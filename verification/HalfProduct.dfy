/** `operator*` and `operator/` of half.hpp. */
module HalfProduct {
  import opened Bits
  import opened HalfFormat
  import opened HalfRounding

  /** 2^24: the number of units of 2^-24 in 1. */
  const UNITS: nat := 0x1000000

  // ----- NaN results, half.hpp:704-710 and 743-761 -----

  const INVALID: Half := 0x7FFF

  /** Sets bit 9, which marks a NaN as quiet. */
  function Quiet(x: Half): (q: Half)
    ensures IsNaN(x) ==> IsNaN(q) && IsQuieted(x, q)
  {
    if x / 0x200 % 2 == 1 then x else x + 0x200
  }

  /** q is a quiet NaN with the sign, exponent and nine lower payload bits of x. */
  predicate IsQuieted(x: Half, q: Half) {
    q / 0x400 == x / 0x400 && q / 0x200 % 2 == 1 && q % 0x200 == x % 0x200
  }

  function Signal(x: Half, y: Half): (q: Half)
    ensures IsNaN(x) || IsNaN(y) ==> IsNaN(q) && Propagates(x, y, q)
  {
    if IsNaN(x) then Quiet(x) else Quiet(y)
  }

  /** z is the first NaN among two operands, quieted. */
  predicate Propagates(x: Half, y: Half, z: Half) {
    if IsNaN(x) then IsQuieted(x, z) else IsNaN(y) && IsQuieted(y, z)
  }

  lemma ZeroDelivers(mode: Mode, neg: bool, d: int)
    requires d > 0
    ensures Delivers(mode, neg, Ratio(0, d), SignBit(neg))
  {
    BelowEarlier(Ratio(0, d), 0, 1);
    BelowEarlier(Ratio(0, d), 0, 2);
  }

  // ----- the normalisation loop that starts every operation -----

  /** abs = m * 2^(e - 1), in units of 2^-24, with a significand m of eleven bits. */
  predicate Normalised(abs: nat, m: nat, e: int) {
    0x400 <= m < 0x800 && -9 <= e <= 30 && Mag(abs) * 0x400 == m * Pow2(e + 9)
  }

  method Normalise(abs: nat) returns (m: nat, e: int)
    requires 0 < abs < INFINITY
    ensures Normalised(abs, m, e)
  {
    var a, k := abs, 0;
    while a < 0x400
      invariant 0 <= k <= 10 && a < 0x8000 && (abs >= 0x400 ==> k == 0)
      invariant abs < 0x400 ==> a < 0x800
      invariant a == abs * Pow2(k)
      decreases 0x400 - a
    {
      Shifted(abs, a, k);
      a := 2 * a;
      k := k + 1;
    }
    m, e := 0x400 + a % 0x400, a / 0x400 - k;
    NormalisedParts(abs, a, k);
  }

  lemma Shifted(abs: nat, a: nat, k: nat)
    requires 0 < abs && a == abs * Pow2(k) && a < 0x400 && k <= 10
    ensures k < 10 && 2 * a == abs * Pow2(k + 1) && a < 2 * a
  {
    ScaleLess(0, abs, Pow2(k));
    ScaleLess(1, abs, Pow2(k));
    assert Pow2(10) == 0x400;
    assert Pow2(k + 1) == 2 * Pow2(k);
    assert abs * Pow2(k + 1) == abs * (2 * Pow2(k)) == 2 * (abs * Pow2(k));
  }

  lemma NormalisedParts(abs: nat, a: nat, k: nat)
    requires 0 < abs < INFINITY && 0x400 <= a < 0x7C00 && k <= 10 && a == abs * Pow2(k)
    requires (abs >= 0x400 ==> k == 0) && (abs < 0x400 ==> a < 0x800)
    ensures Normalised(abs, 0x400 + a % 0x400, a / 0x400 - k)
  {
    var m, e := 0x400 + a % 0x400, a / 0x400 - k;
    assert Pow2(10) == 0x400;
    if abs >= 0x400 {
      MagNormal(abs, e - 1, m);
      Pow2Sum(e - 1, 10);
      Regroup(m, Pow2(e - 1), 0x400);
    } else {
      Pow2Sum(k, 10 - k);
      Regroup(abs, Pow2(k), Pow2(10 - k));
    }
  }

  // ----- operator* -----

  /** The significands' product, its carry i and the exponent, as the operator computes them. */
  lemma ProductShape(x: nat, y: nat, mx: nat, my: nat, ex: int, ey: int, i: nat, exp: int)
    requires Normalised(x, mx, ex) && Normalised(y, my, ey)
    requires i == mx * my / 0x200000 && exp == -16 + ex + ey + i
    ensures i <= 1 && Pow2(20 + i) <= mx * my < 2 * Pow2(20 + i) && exp - i + 34 >= 0
    ensures Mag(x) * Mag(y) * Pow2(20) == mx * my * Pow2(exp - i + 34)
  {
    SignificandProduct(mx, my);
    Pow2Values();
    ScaledProduct(Mag(x), Mag(y), mx, my, Pow2(ex + 9), Pow2(ey + 9));
    Pow2Sum(ex + 9, ey + 9);
    assert ex + 9 + (ey + 9) == exp - i + 34;
  }

  lemma ScaledProduct(x: int, y: int, mx: int, my: int, px: int, py: int)
    requires x * 0x400 == mx * px && y * 0x400 == my * py
    ensures x * y * 0x100000 == mx * my * (px * py)
  {
    FourFactors(x, 0x400, y, 0x400);
    FourFactors(mx, px, my, py);
  }

  lemma FourFactors(a: int, b: int, c: int, d: int)
    ensures (a * b) * (c * d) == (a * c) * (b * d)
  {
    Regroup(a * b, c, d);
    Regroup(a * c, b, d);
    Regroup(a, b, c);
    Regroup(a, c, b);
  }

  lemma SignificandProduct(mx: nat, my: nat)
    requires 0x400 <= mx < 0x800 && 0x400 <= my < 0x800
    ensures 0x100000 <= mx * my < 0x400000
  {
    ScaleLess(0x400, mx, my);
    ScaleLess(mx, 0x800, my);
  }

  /** Shifting out the carry bit and keeping it as sticky bit leaves a representative. */
  lemma ProductRepresented(n: int, m: nat, i: nat, exp: int, k: nat)
    requires i <= 1 && exp - i + 34 >= 0 && exp + 11 + k >= 0
    requires n * Pow2(20) == m * Pow2(exp - i + 34)
    ensures Truncated(Quo(m, Pow2(i)), i == 1 && m % 2 == 1, n * Pow2(21 + k), UNITS * Pow2(exp + 11 + k))
  {
    Pow2Values();
    Pow2Sum(20, 1 + k);
    Regroup(n, Pow2(20), Pow2(1 + k));
    Pow2Sum(exp - i + 34, 1 + k);
    Regroup(m, Pow2(exp - i + 34), Pow2(1 + k));
    Pow2Sum(24, exp + 11 + k);
    var c := Pow2(exp - i + 35 + k);
    assert n * Pow2(21 + k) == m * c;
    if i == 0 {
      assert Pow2(0) == 1;
      ScaleLess(m, m + 1, c);
    } else {
      assert Pow2(1) == 2;
      assert UNITS * Pow2(exp + 11 + k) == 2 * c;
      ParityStep(m, m / 2, m % 2, c);
    }
  }

  lemma ParityStep(m: nat, q: nat, r: nat, c: nat)
    requires m == 2 * q + r && r < 2 && c > 0
    ensures q * (2 * c) <= m * c < (q + 1) * (2 * c)
    ensures r == 0 <==> q * (2 * c) == m * c
  {
    assert m * c == 2 * (q * c) + r * c;
    assert q * (2 * c) == 2 * (q * c);
    assert (q + 1) * (2 * c) == 2 * (q * c) + 2 * c;
  }

  /** From the significands and exponents to the result. */
  function ProductBits(mode: Mode, neg: bool, mx: nat, my: nat, ex: int, ey: int): nat
    requires 0x400 <= mx < 0x800 && 0x400 <= my < 0x800
  {
    SignificandProduct(mx, my);
    var m: nat := mx * my;
    var i := m / 0x200000;
    ShiftedRange(m, i);
    Pack(mode, 20, Quo(m, Pow2(i)), -16 + ex + ey + i, neg, i == 1 && m % 2 == 1)
  }

  lemma ShiftedRange(m: nat, i: nat)
    requires 0x100000 <= m < 0x400000 && i == m / 0x200000
    ensures Pow2(20) <= Quo(m, Pow2(i)) < 2 * Pow2(20)
  {
    Pow2Values();
    assert Pow2(0) == 1 && Pow2(1) == 2;
  }

  lemma ProductDelivers(mode: Mode, neg: bool, x: nat, y: nat, mx: nat, my: nat, ex: int, ey: int)
    requires Normalised(x, mx, ex) && Normalised(y, my, ey)
    ensures ProductBits(mode, neg, mx, my, ex, ey) < 0x10000
    ensures Delivers(mode, neg, Ratio(Mag(x) * Mag(y), UNITS), ProductBits(mode, neg, mx, my, ex, ey))
  {
    SignificandProduct(mx, my);
    var m: nat := mx * my;
    var i := m / 0x200000;
    var exp := -16 + ex + ey + i;
    ShiftedRange(m, i);
    ProductShape(x, y, mx, my, ex, ey, i, exp);
    ProductRepresented(Mag(x) * Mag(y), m, i, exp, 23);
    PackDelivers(mode, 20, Quo(m, Pow2(i)), exp, neg, i == 1 && m % 2 == 1, Mag(x) * Mag(y), UNITS, 23);
  }

  lemma ZeroProduct(mode: Mode, neg: bool, x: nat, y: nat)
    requires x == 0 || y == 0
    ensures Delivers(mode, neg, Ratio(Mag(x) * Mag(y), UNITS), SignBit(neg))
  {
    assert Mag(x) * Mag(y) == 0;
    ZeroDelivers(mode, neg, UNITS);
  }

  /** `operator*`: the product in units of 2^-24 is Mag(x) * Mag(y) / 2^24. */
  method Multiply(mode: Mode, x: Half, y: Half) returns (z: Half)
    ensures IsNaN(x) || IsNaN(y) ==> IsNaN(z) && Propagates(x, y, z)
    ensures !IsNaN(x) && !IsNaN(y) && !(Finite(x) && Finite(y)) ==>
              if Abs(x) == 0 || Abs(y) == 0 then z == 0x7FFF && IsNaN(z)
              else z == SignBit(Negative(x) != Negative(y)) + INFINITY
    ensures Finite(x) && Finite(y) ==>
              Delivers(mode, Negative(x) != Negative(y), Ratio(Mag(Abs(x)) * Mag(Abs(y)), UNITS), z)
  {
    var absx, absy := Abs(x), Abs(y);
    var neg := Negative(x) != Negative(y);
    if absx >= INFINITY || absy >= INFINITY {
      if absx > INFINITY || absy > INFINITY {
        z := Signal(x, y);
      } else if (absx == INFINITY && absy == 0) || (absy == INFINITY && absx == 0) {
        z := INVALID;
      } else {
        z := SignBit(neg) + INFINITY;
      }
      return;
    }
    if absx == 0 || absy == 0 {
      ZeroProduct(mode, neg, absx, absy);
      return SignBit(neg);
    }
    var mx, ex := Normalise(absx);
    var my, ey := Normalise(absy);
    ProductDelivers(mode, neg, absx, absy, mx, my, ex, ey);
    z := ProductBits(mode, neg, mx, my, ex, ey);
  }

  // ----- operator/ -----

  function QuotientBits(mode: Mode, neg: bool, mx: nat, my: nat, ex: int, ey: int): nat
    requires 0x400 <= mx < 0x800 && 0x400 <= my < 0x800
  {
    QuotientRange(mx, my);
    var i := if mx < my then 1 else 0;
    var n, d := if mx < my then mx * 0x2000 else mx * 0x1000, 2 * my;
    Pack(mode, 11, Quo(n, d), 14 + ex - ey - i, neg, n % d != 0)
  }

  lemma QuotientRange(mx: nat, my: nat)
    requires 0x400 <= mx < 0x800 && 0x400 <= my < 0x800
    ensures Pow2(11) <= Quo(if mx < my then mx * 0x2000 else mx * 0x1000, 2 * my) < 2 * Pow2(11)
  {
    Pow2Values();
    var n := if mx < my then mx * 0x2000 else mx * 0x1000;
    DivBound(n, 2 * my, 0x800);
    DivBound(n, 2 * my, 0x1000);
  }

  lemma QuotientTruncates(n: nat, d: nat)
    requires d > 0
    ensures Truncated(Quo(n, d), n % d != 0, n, d)
  {
    var q := Quo(n, d);
    assert n == d * q + n % d;
    assert (q + 1) * d == q * d + d;
  }

  lemma CrossScale(x: int, m: int, p: int, u: int, t: int)
    requires x * 0x400 == m * p
    ensures x * u * t * 0x400 == m * (p * (u * t))
  {
    Regroup(x, u, t);
    Regroup(m, p, u * t);
    assert x * (u * t) * 0x400 == x * 0x400 * (u * t);
  }

  lemma NumeratorScale(x: nat, mx: nat, ex: int, i: nat)
    requires Normalised(x, mx, ex) && i <= 1
    ensures Mag(x) * UNITS * Pow2(27) * 0x400 == mx * Pow2(12 + i) * Pow2(ex + 48 - i)
  {
    Pow2Values();
    Pow2Sum(24, 27);
    Pow2Sum(ex + 9, 51);
    Pow2Sum(12 + i, ex + 48 - i);
    CrossScale(Mag(x), mx, Pow2(ex + 9), UNITS, Pow2(27));
    Regroup(mx, Pow2(12 + i), Pow2(ex + 48 - i));
  }

  lemma DenominatorScale(y: nat, my: nat, ex: int, ey: int, i: nat)
    requires Normalised(y, my, ey) && i <= 1 && -9 <= ex
    ensures Mag(y) * Pow2(40 + ex - ey - i) * 0x400 == 2 * my * Pow2(ex + 48 - i)
  {
    Pow2Sum(ey + 9, 40 + ex - ey - i);
    assert Pow2(ex + 49 - i) == 2 * Pow2(ex + 48 - i);
    CrossScale(Mag(y), my, Pow2(ey + 9), 1, Pow2(40 + ex - ey - i));
    Regroup(my, 2, Pow2(ex + 48 - i));
  }

  lemma CommonFactor(q: nat, s: bool, a: int, b: int, n: int, d: int, c: int)
    requires Truncated(q, s, n, d) && c > 0
    requires a * 0x400 == n * c && b * 0x400 == d * c
    ensures Truncated(q, s, a, b)
  {
    RepresentsScaled(q, s, n, d, 1, c);
    RepresentsScaled(q, s, a, b, 1, 0x400);
  }

  lemma QuotientRepresented(x: nat, y: nat, mx: nat, my: nat, ex: int, ey: int, i: nat, n: nat, d: nat)
    requires Normalised(x, mx, ex) && Normalised(y, my, ey) && i <= 1
    requires n == mx * Pow2(12 + i) && d == 2 * my
    ensures Truncated(Quo(n, d), n % d != 0, Mag(x) * UNITS * Pow2(27), Mag(y) * Pow2(40 + ex - ey - i))
  {
    NumeratorScale(x, mx, ex, i);
    DenominatorScale(y, my, ex, ey, i);
    QuotientTruncates(n, d);
    CommonFactor(Quo(n, d), n % d != 0, Mag(x) * UNITS * Pow2(27), Mag(y) * Pow2(40 + ex - ey - i),
                 n, d, Pow2(ex + 48 - i));
  }

  lemma QuotientDelivers(mode: Mode, neg: bool, x: nat, y: nat, mx: nat, my: nat, ex: int, ey: int)
    requires Normalised(x, mx, ex) && Normalised(y, my, ey)
    ensures QuotientBits(mode, neg, mx, my, ex, ey) < 0x10000
    ensures Delivers(mode, neg, Ratio(Mag(x) * UNITS, Mag(y)), QuotientBits(mode, neg, mx, my, ex, ey))
  {
    var q, s, exp := QuotientParts(x, y, mx, my, ex, ey, mode, neg);
    PackDelivers(mode, 11, q, exp, neg, s, Mag(x) * UNITS, Mag(y), 15);
  }

  lemma QuotientParts(x: nat, y: nat, mx: nat, my: nat, ex: int, ey: int, mode: Mode, neg: bool)
      returns (q: nat, s: bool, exp: int)
    requires Normalised(x, mx, ex) && Normalised(y, my, ey)
    ensures Pow2(11) <= q < 2 * Pow2(11) && exp + 26 >= 0 && Mag(y) > 0
    ensures Truncated(q, s, Mag(x) * UNITS * Pow2(27), Mag(y) * Pow2(exp + 26))
    ensures QuotientBits(mode, neg, mx, my, ex, ey) == Pack(mode, 11, q, exp, neg, s)
  {
    var i := if mx < my then 1 else 0;
    var n, d := if mx < my then mx * 0x2000 else mx * 0x1000, 2 * my;
    QuotientRange(mx, my);
    q, s, exp := Quo(n, d), n % d != 0, 14 + ex - ey - i;
    ShiftFactor(i);
    QuotientRepresented(x, y, mx, my, ex, ey, i, n, d);
    ScaleLess(0, my, Pow2(ey + 9));
  }

  lemma ShiftFactor(i: nat)
    requires i <= 1
    ensures Pow2(12 + i) == if i == 1 then 0x2000 else 0x1000
  {
    Pow2Values();
    assert Pow2(12) == 2 * Pow2(11) && Pow2(13) == 2 * Pow2(12);
  }

  /** `operator/`: the quotient in units of 2^-24 is Mag(x) * 2^24 / Mag(y). */
  method Divide(mode: Mode, x: Half, y: Half) returns (z: Half)
    ensures IsNaN(x) || IsNaN(y) ==> IsNaN(z) && Propagates(x, y, z)
    ensures !IsNaN(x) && !IsNaN(y) && Abs(x) == Abs(y) && (Abs(x) == 0 || Abs(x) == INFINITY) ==> z == 0x7FFF && IsNaN(z)
    ensures (Abs(x) == INFINITY && Finite(y)) || (Finite(x) && Abs(x) != 0 && Abs(y) == 0) ==>
              z == SignBit(Negative(x) != Negative(y)) + INFINITY
    ensures Finite(x) && Abs(y) == INFINITY ==> z == SignBit(Negative(x) != Negative(y))
    ensures Finite(x) && Finite(y) && Abs(y) != 0 ==>
              Delivers(mode, Negative(x) != Negative(y), Ratio(Mag(Abs(x)) * UNITS, Mag(Abs(y))), z)
  {
    var absx, absy := Abs(x), Abs(y);
    var neg := Negative(x) != Negative(y);
    if absx >= INFINITY || absy >= INFINITY {
      if absx > INFINITY || absy > INFINITY {
        z := Signal(x, y);
      } else if absx == absy {
        z := INVALID;
      } else {
        z := SignBit(neg) + if absx == INFINITY then INFINITY else 0;
      }
      return;
    }
    if absx == 0 {
      ZeroQuotient(mode, neg, absy);
      return if absy != 0 then SignBit(neg) else INVALID;
    }
    if absy == 0 {
      return SignBit(neg) + INFINITY;
    }
    var mx, ex := Normalise(absx);
    var my, ey := Normalise(absy);
    QuotientDelivers(mode, neg, absx, absy, mx, my, ex, ey);
    z := QuotientBits(mode, neg, mx, my, ex, ey);
  }

  lemma ZeroQuotient(mode: Mode, neg: bool, y: nat)
    ensures y != 0 ==> Delivers(mode, neg, Ratio(Mag(0) * UNITS, Mag(y)), SignBit(neg))
  {
    if y != 0 {
      MagMonotone(0, y);
      assert Mag(0) * UNITS == 0;
      ZeroDelivers(mode, neg, Mag(y));
    }
  }
}
