/** `operator+` and `operator-` of half.hpp. */
module HalfSum {
  import opened Bits
  import opened HalfFormat
  import opened HalfRounding
  import opened HalfAlign
  import opened HalfProduct

  /** Significand with the hidden bit, and the exponent field, which is 1 for subnormals too. */
  function Significand(a: nat): (m: nat)
    ensures m < 0x800
  {
    if a <= 0x3FF then a % 0x400 else a % 0x400 + 0x400
  }

  function Exponent(a: nat): (e: nat)
    ensures e >= 1
  {
    if a <= 0x3FF then 1 else a / 0x400
  }

  lemma MagParts(a: nat)
    ensures Mag(a) == Significand(a) * Pow2(Exponent(a) - 1)
    ensures Exponent(a) > 1 ==> Significand(a) >= 0x400
  {
    if a <= 0x3FF {
      assert Pow2(0) == 1;
    } else {
      MagNormal(a, Exponent(a) - 1, Significand(a));
    }
  }

  /** A half delivers its own value exactly, in every mode. */
  lemma ExactDelivers(mode: Mode, x: Half)
    requires Finite(x)
    ensures Delivers(mode, Negative(x), Ratio(Mag(Abs(x)), 1), x)
  {
    var a := Abs(x);
    MagStep(a);
    if a > 0 {
      MagStep(a - 1);
    }
  }

  // ----- the part of operator+ after both operands are known to be nonzero -----

  /** (exact * 8) * 2^d = (8 * ma * 2^d +- 8 * mb) * 2^(ea - 1). */
  lemma AlignedScale(a: nat, b: nat, d: nat)
    requires d == Exponent(a) - Exponent(b)
    ensures var n, u := 8 * Significand(a) * Pow2(d), Pow2(Exponent(a) - 1);
            && (Mag(a) + Mag(b)) * 8 * Pow2(d) == (n + 8 * Significand(b)) * u
            && (Mag(a) - Mag(b)) * 8 * Pow2(d) == (n - 8 * Significand(b)) * u
  {
    MagParts(a);
    MagParts(b);
    Pow2Sum(Exponent(b) - 1, d);
    Totals(Mag(a), Mag(b), Significand(a), Significand(b), Pow2(Exponent(a) - 1), Pow2(Exponent(b) - 1), Pow2(d));
  }

  lemma Totals(x: int, y: int, ma: int, mb: int, u: int, ub: int, p: int)
    requires x == ma * u && y == mb * ub && u == ub * p
    ensures (x + y) * 8 * p == (8 * ma * p + 8 * mb) * u
    ensures (x - y) * 8 * p == (8 * ma * p - 8 * mb) * u
  {
    assert x * 8 * p == 8 * ma * p * u by {
      assert ma * u * 8 * p == 8 * ma * p * u;
    }
    assert y * 8 * p == 8 * mb * u by {
      assert mb * ub * 8 * p == 8 * mb * (ub * p);
    }
    assert (8 * ma * p + 8 * mb) * u == 8 * ma * p * u + 8 * mb * u;
    assert (8 * ma * p - 8 * mb) * u == 8 * ma * p * u - 8 * mb * u;
  }

  /** Sum and difference of the aligned significands, which are three bits wider than a significand. */
  lemma AlignedSum(a: nat, b: nat, d: nat)
    requires d == Exponent(a) - Exponent(b) && Significand(b) > 0
    ensures var t, u := Align(8 * Significand(b), d, 13), Pow2(Exponent(a) - 1);
            && Jammed(8 * Significand(a) + t, (Mag(a) + Mag(b)) * 8, u)
            && Jammed(8 * Significand(a) - t, (Mag(a) - Mag(b)) * 8, u)
  {
    assert Pow2(13) == 4 * Pow2(11);
    Pow2Values();
    AlignJams(8 * Significand(b), d, 13);
    AlignedScale(a, b, d);
    var ma, mb := 8 * Significand(a), 8 * Significand(b);
    JamTotals(ma, Align(mb, d, 13), mb, Pow2(d), Pow2(Exponent(a) - 1),
              (Mag(a) + Mag(b)) * 8, (Mag(a) - Mag(b)) * 8);
  }

  lemma JamTotals(k: int, t: int, n: int, p: int, u: int, sum: int, diff: int)
    requires p > 0 && u > 0 && k % 2 == 0 && Jammed(t, n, p)
    requires sum * p == (k * p + n) * u && diff * p == (k * p - n) * u
    ensures Jammed(k + t, sum, u) && Jammed(k - t, diff, u)
  {
    JammedSum(t, n, p, k);
    JamTransfer(k + t, k * p + n, p, u, sum);
    JamTransfer(k - t, k * p - n, p, u, diff);
  }

  lemma JamTransfer(t: int, n: int, p: int, u: int, v: int)
    requires Jammed(t, n, p) && p > 0 && u > 0 && v * p == n * u
    ensures Jammed(t, v, u)
  {
    JammedScaled(t, n, p, u);
    JammedScaled(t, v, u, p);
    assert p * u == u * p;
  }

  /** The last line of operator+. */
  function SumBits(mode: Mode, neg: bool, m: nat, exp: nat): nat
    requires 1 <= exp <= 30 && m < 0x4000
  {
    Rounded(mode, SignBit(neg) + ((exp - 1) * 0x400 + m / 8), m / 4 % 2 == 1, m % 4 != 0)
  }

  lemma SumBitsDeliver(mode: Mode, neg: bool, m: nat, exp: nat, v: nat)
    requires 1 <= exp <= 30 && m < 0x4000 && (m >= 0x2000 || exp == 1)
    requires Celled(m, v * 8, Pow2(exp - 1))
    ensures SumBits(mode, neg, m, exp) < 0x10000
    ensures Delivers(mode, neg, Ratio(v, 1), SumBits(mode, neg, m, exp))
  {
    var a, g, s := SumBrackets(m, exp, v);
    assert SumBits(mode, neg, m, exp) == Rounded(mode, SignBit(neg) + a, g, s);
    RoundedDelivers(mode, neg, Ratio(v, 1), a, g, s);
  }

  lemma SumBrackets(m: nat, exp: nat, v: nat) returns (a: nat, g: bool, s: bool)
    requires 1 <= exp <= 30 && m < 0x4000 && (m >= 0x2000 || exp == 1)
    requires Celled(m, v * 8, Pow2(exp - 1))
    ensures a == (exp - 1) * 0x400 + m / 8 && g == (m / 4 % 2 == 1) && s == (m % 4 != 0)
    ensures Brackets(Ratio(v, 1), a, g, s)
  {
    a, g, s := (exp - 1) * 0x400 + m / 8, m / 4 % 2 == 1, m % 4 != 0;
    SumPlace(a, exp - 1, m / 8);
    PlacesExact(a, Pow2(exp - 1), 4, m, false, v, 1);
  }

  lemma SumPlace(a: nat, e: nat, q: nat)
    requires a == e * 0x400 + q && q < 0x800 && (q >= 0x400 || e == 0)
    ensures Mag(a) == q * Pow2(e) && Mag(a + 1) == (q + 1) * Pow2(e)
  {
    if q >= 0x400 {
      NormalPlace(a, e, q);
      NormalPlace(a + 1, e, q + 1);
    } else {
      SmallPlace(q);
      assert e == 0 && Pow2(0) == 1;
    }
  }

  lemma NormalPlace(a: nat, e: nat, q: nat)
    requires 0x400 <= q <= 0x800 && a == e * 0x400 + q
    ensures Mag(a) == q * Pow2(e)
  {
    MagField(e, q);
  }

  lemma SmallPlace(q: nat)
    requires q < 0x400
    ensures Mag(q) == q && Mag(q + 1) == q + 1
  {
    if q == 0x3FF {
      NormalPlace(0x400, 0, 0x400);
      assert Pow2(0) == 1;
    }
  }

  // ----- addition of magnitudes -----

  lemma SumStart(a: nat, b: nat, m: nat)
    requires 0 < b <= a < INFINITY && m == 8 * Significand(a) + Align(8 * Significand(b), Exponent(a) - Exponent(b), 13)
    ensures m < 0x8000 && (m >= 0x2000 || Exponent(a) == 1)
    ensures Jammed(m, (Mag(a) + Mag(b)) * 8, Pow2(Exponent(a) - 1))
  {
    var d := Exponent(a) - Exponent(b);
    AlignedSum(a, b, d);
    AlignBound(8 * Significand(b), d, 13);
    MagParts(a);
  }

  lemma AlignBound(m: nat, d: nat, limit: nat)
    requires m > 0
    ensures 1 <= Align(m, d, limit) <= m
  {
    if d < limit {
      var q, p := Quo(m, Pow2(d)), Pow2(d);
      assert m == p * q + m % p;
      ScaleUp(p, q);
      if q == m && m % p != 0 {
        assert false;
      }
    }
  }

  lemma ScaleUp(p: int, q: int)
    requires p >= 1 && q >= 0
    ensures p * q >= q
  {
  }

  lemma AlignFar(m: nat, d: nat, limit: nat)
    requires 4 <= d && 4 <= limit
    ensures Align(m, d, limit) <= m / 16 + 1
  {
    if d < limit {
      var q, p := Quo(m, Pow2(d)), Pow2(d);
      assert m == p * q + m % p;
      Pow2Grows(4, d);
      assert Pow2(4) == 16;
      assert 16 * q <= p * q by {
        ScaleUp(p - 15, q);
      }
    }
  }

  lemma AlignNear(m: nat, d: nat, limit: nat)
    requires d <= 3 && d < limit && m % 8 == 0
    ensures Align(m, d, limit) * Pow2(d) == m
  {
    var h := m / 8;
    assert m == 8 * h;
    EvenShift(m, d, limit, if d == 0 then 8 * h else if d == 1 then 4 * h else if d == 2 then 2 * h else h);
  }

  /** The carry i of the sum is shifted out into the sticky bit. */
  lemma SumShifted(m: nat, e: nat, v: nat, i: nat)
    requires m < 0x8000 && 1 <= e <= 30 && (m >= 0x2000 || e == 1) && i == m / 0x4000
    requires Jammed(m, v * 8, Pow2(e - 1))
    ensures ShiftJam(m, i) < 0x4000 && (ShiftJam(m, i) >= 0x2000 || e + i == 1)
    ensures Celled(ShiftJam(m, i), v * 8, Pow2(e + i - 1))
  {
    assert Pow2(0) == 1 && Pow2(1) == 2;
    if i == 0 {
      JammedIsCelled(m, v * 8, Pow2(e - 1));
    } else {
      SumCarried(m, e, v, Pow2(e - 1));
    }
  }

  lemma SumCarried(m: nat, e: nat, v: nat, u: nat)
    requires e >= 1 && Jammed(m, v * 8, u) && u == Pow2(e - 1)
    ensures Celled(ShiftJam(m, 1), v * 8, Pow2(e))
  {
    JammedHalf(m, v * 8, u);
    JammedIsCelled(ShiftJam(m, 1), v * 8, 2 * u);
  }

  lemma SumOverflows(m: nat, e: nat, v: nat, i: nat)
    requires m < 0x8000 && e <= 30 && i == m / 0x4000 && e + i > 30
    requires Jammed(m, v * 8, Pow2(e - 1))
    ensures v >= Mag(INFINITY) && !Ratio(v, 1).Below(2 * Mag(INFINITY))
  {
    Pow2Values();
    InfinityMag();
    Pow2Sum(10, 30);
    var u := Pow2(29);
    assert Pow2(30) == 2 * u;
    ScaleLess(0x4000, m, u);
    ScaleLess(0x4000, m - 1, u);
  }

  method AddMagnitudes(mode: Mode, neg: bool, a: nat, b: nat) returns (z: Half)
    requires 0 < b <= a < INFINITY
    ensures Delivers(mode, neg, Ratio(Mag(a) + Mag(b), 1), z)
  {
    var exp: nat := Exponent(a);
    var m: nat := 8 * Significand(a) + Align(8 * Significand(b), exp - Exponent(b), 13);
    SumStart(a, b, m);
    z := FinishSum(mode, neg, m, exp, Mag(a) + Mag(b));
  }

  /** The carry, the overflow and the final rounding. */
  method FinishSum(mode: Mode, neg: bool, m: nat, exp: nat, ghost v: nat) returns (z: Half)
    requires m < 0x8000 && 1 <= exp <= 30 && (m >= 0x2000 || exp == 1) && Jammed(m, v * 8, Pow2(exp - 1))
    ensures Delivers(mode, neg, Ratio(v, 1), z)
  {
    var i := m / 0x4000;
    SumShifted(m, exp, v, i);
    if exp + i > 30 {
      SumOverflows(m, exp, v, i);
      OverflowDelivers(mode, neg, Ratio(v, 1));
      return Overflow(mode, neg);
    }
    z := RoundSum(mode, neg, ShiftJam(m, i), exp + i, v);
  }

  method RoundSum(mode: Mode, neg: bool, m: nat, exp: nat, ghost v: nat) returns (z: Half)
    requires 1 <= exp <= 30 && m < 0x4000 && (m >= 0x2000 || exp == 1) && Celled(m, v * 8, Pow2(exp - 1))
    ensures Delivers(mode, neg, Ratio(v, 1), z)
  {
    SumBitsDeliver(mode, neg, m, exp, v);
    z := SumBits(mode, neg, m, exp);
  }

  // ----- subtraction of magnitudes -----

  /** m at exponent e still tells all that rounding v needs: exactly, or as a jammed value that will
      be doubled at most once more, or as one that will not be doubled. */
  ghost predicate Tracks(m: nat, e: nat, v: nat) {
    && 1 <= e <= 30 && m < 0x4000
    && (|| m * Pow2(e - 1) == v * 8
        || (Jammed(m, v * 8, Pow2(e - 1)) && m >= 0x1000 && e >= 2)
        || (Celled(m, v * 8, Pow2(e - 1)) && m >= 0x2000))
  }

  lemma DifferenceStart(a: nat, b: nat, m: int)
    requires 0 < b <= a < INFINITY && m == 8 * Significand(a) - Align(8 * Significand(b), Exponent(a) - Exponent(b), 13)
    ensures m >= 0 && Mag(a) >= Mag(b) && (m == 0 <==> a == b)
    ensures Tracks(m, Exponent(a), Mag(a) - Mag(b))
  {
    MagOrder(b, a);
    if b < a {
      MagMonotone(b, a);
    }
    var v: nat := Mag(a) - Mag(b);
    var d := Exponent(a) - Exponent(b);
    AlignedSum(a, b, d);
    JammedSign(m, v * 8, Pow2(Exponent(a) - 1));
    AlignBound(8 * Significand(b), d, 13);
    if d <= 3 {
      ExactDifference(a, b, d, m);
    } else {
      MagParts(a);
      AlignFar(8 * Significand(b), d, 13);
    }
  }

  lemma ExactDifference(a: nat, b: nat, d: nat, m: int)
    requires d == Exponent(a) - Exponent(b) && d <= 3 && Significand(b) > 0
    requires m == 8 * Significand(a) - Align(8 * Significand(b), d, 13)
    ensures m * Pow2(Exponent(a) - 1) == (Mag(a) - Mag(b)) * 8
  {
    var t, p, u := Align(8 * Significand(b), d, 13), Pow2(d), Pow2(Exponent(a) - 1);
    AlignNear(8 * Significand(b), d, 13);
    AlignedScale(a, b, d);
    CancelScale((Mag(a) - Mag(b)) * 8, 8 * Significand(a), t, 8 * Significand(b), p, u);
  }

  lemma CancelScale(v: int, k: int, t: int, n: int, p: int, u: int)
    requires p > 0 && t * p == n && v * p == (k * p - n) * u
    ensures (k - t) * u == v
  {
    assert k * p - n == (k - t) * p;
    assert (k - t) * p * u == (k - t) * u * p;
    ScaleLess(v, (k - t) * u, p);
  }

  lemma TracksDoubled(m: nat, e: nat, v: nat)
    requires Tracks(m, e, v) && m < 0x2000 && e > 1
    ensures Tracks(2 * m, e - 1, v)
  {
    var u := Pow2(e - 2);
    assert Pow2(e - 1) == 2 * u;
    if m * Pow2(e - 1) == v * 8 {
      Twice(m, u);
    } else {
      JammedDouble(m, v * 8, u);
    }
  }

  lemma TracksCelled(m: nat, e: nat, v: nat)
    requires Tracks(m, e, v)
    ensures Celled(m, v * 8, Pow2(e - 1))
  {
    var u := Pow2(e - 1);
    if Jammed(m, v * 8, u) {
      JammedIsCelled(m, v * 8, u);
    }
  }

  method SubtractMagnitudes(mode: Mode, neg: bool, a: nat, b: nat) returns (z: Half)
    requires 0 < b <= a < INFINITY
    ensures a == b ==> z == SignBit(mode == Downward)
    ensures a != b ==> Mag(a) > Mag(b) && Delivers(mode, neg, Ratio(Mag(a) - Mag(b), 1), z)
  {
    var exp: nat := Exponent(a);
    var m := 8 * Significand(a) - Align(8 * Significand(b), exp - Exponent(b), 13);
    DifferenceStart(a, b, m);
    if m == 0 {
      return SignBit(mode == Downward);
    }
    MagMonotone(b, a);
    while m < 0x2000 && exp > 1
      invariant m > 0 && Tracks(m, exp, Mag(a) - Mag(b))
      decreases exp
    {
      TracksDoubled(m, exp, Mag(a) - Mag(b));
      m, exp := 2 * m, exp - 1;
    }
    TracksCelled(m, exp, Mag(a) - Mag(b));
    z := RoundSum(mode, neg, m, exp, Mag(a) - Mag(b));
  }

  // ----- operator+ and operator- -----

  function Magnitude(n: int): nat { if n < 0 then -n else n }

  /** z is the sum n correctly rounded; an exact zero has the sign that IEEE 754-2008 section 6.3 gives
      it: that of the addends if they agree, and otherwise + except when rounding downward. */
  predicate IsSum(mode: Mode, x: Half, y: Half, z: Half) {
    var n := Value(x) + Value(y);
    if n != 0 then Delivers(mode, n < 0, Ratio(Magnitude(n), 1), z)
    else z == if Negative(x) == Negative(y) then SignBit(Negative(x)) else SignBit(mode == Downward)
  }

  /** The order of the operands' magnitudes decides the sign of the sum. */
  lemma SumValue(x: Half, y: Half)
    requires Finite(x) && Finite(y)
    ensures var n, a, b := Value(x) + Value(y), Mag(Abs(x)), Mag(Abs(y));
            && (Negative(x) == Negative(y) ==> n == Signed(Negative(x), a + b))
            && (Negative(x) != Negative(y) && a > b ==> n == Signed(Negative(x), a - b))
            && (Negative(x) != Negative(y) && b > a ==> n == Signed(Negative(y), b - a))
    ensures Abs(x) > Abs(y) ==> Mag(Abs(x)) > Mag(Abs(y))
    ensures Abs(x) < Abs(y) ==> Mag(Abs(x)) < Mag(Abs(y))
    ensures Abs(x) > 0 ==> Mag(Abs(x)) > 0
    ensures Abs(y) > 0 ==> Mag(Abs(y)) > 0
  {
    MagOrder(0, Abs(x));
    if Abs(x) > 0 { MagMonotone(0, Abs(x)); }
    if Abs(y) > 0 { MagMonotone(0, Abs(y)); }
    if Abs(x) < Abs(y) {
      MagMonotone(Abs(x), Abs(y));
    } else if Abs(y) < Abs(x) {
      MagMonotone(Abs(y), Abs(x));
    }
  }

  lemma ZeroAddend(mode: Mode, x: Half, y: Half)
    requires Finite(x) && Finite(y) && Abs(x) == 0 && Abs(y) != 0
    ensures IsSum(mode, x, y, y) && IsSum(mode, y, x, y)
  {
    SumValue(x, y);
    ExactDelivers(mode, y);
  }

  lemma SumAssembled(mode: Mode, x: Half, y: Half, z: Half, neg: bool, a: nat, b: nat)
    requires Finite(x) && Finite(y) && Abs(x) != 0 && Abs(y) != 0
    requires if Abs(y) > Abs(x) then a == Abs(y) && b == Abs(x) else a == Abs(x) && b == Abs(y)
    requires neg == Negative(if Negative(x) != Negative(y) && Abs(y) > Abs(x) then y else x)
    requires if Negative(x) == Negative(y) then Delivers(mode, neg, Ratio(Mag(a) + Mag(b), 1), z)
             else if a == b then z == SignBit(mode == Downward)
             else Delivers(mode, neg, Ratio(Mag(a) - Mag(b), 1), z)
    ensures IsSum(mode, x, y, z)
  {
    SumValue(x, y);
    var n := Value(x) + Value(y);
    assert n != 0 ==> Magnitude(n) == if Negative(x) == Negative(y) then Mag(a) + Mag(b) else Mag(a) - Mag(b);
  }

  method Add(mode: Mode, x: Half, y: Half) returns (z: Half)
    ensures IsNaN(x) || IsNaN(y) ==> IsNaN(z) && Propagates(x, y, z)
    ensures Abs(x) == INFINITY && Abs(y) == INFINITY && Negative(x) != Negative(y) ==> z == 0x7FFF && IsNaN(z)
    ensures Abs(x) == INFINITY && (Finite(y) || y == x) ==> z == x
    ensures Abs(y) == INFINITY && (Finite(x) || y == x) ==> z == y
    ensures Finite(x) && Finite(y) ==> IsSum(mode, x, y, z)
  {
    var absx, absy := Abs(x), Abs(y);
    var sub := Negative(x) != Negative(y);
    if absx >= INFINITY || absy >= INFINITY {
      z := if absx > INFINITY || absy > INFINITY then Signal(x, y)
           else if absy != INFINITY then x
           else if sub && absx == INFINITY then INVALID
           else y;
      return;
    }
    if absx == 0 {
      if absy != 0 {
        ZeroAddend(mode, x, y);
        return y;
      }
      // both are zeros: OR of the sign bits when rounding downward, AND otherwise
      return if mode == Downward then SignBit(Negative(x) || Negative(y)) else SignBit(Negative(x) && Negative(y));
    }
    if absy == 0 {
      ZeroAddend(mode, y, x);
      return x;
    }
    var neg := if sub && absy > absx then Negative(y) else Negative(x);
    if absy > absx {
      absx, absy := absy, absx;
    }
    if sub {
      z := SubtractMagnitudes(mode, neg, absx, absy);
    } else {
      z := AddMagnitudes(mode, neg, absx, absy);
    }
    SumAssembled(mode, x, y, z, neg, absx, absy);
  }

  /** Flips the sign bit. */
  function Negate(x: Half): (r: Half)
    ensures Negative(r) != Negative(x) && Abs(r) == Abs(x)
  {
    if Negative(x) then x - 0x8000 else x + 0x8000
  }

  method Subtract(mode: Mode, x: Half, y: Half) returns (z: Half)
    ensures IsNaN(x) || IsNaN(y) ==> IsNaN(z) && Propagates(x, Negate(y), z)
    ensures Abs(x) == INFINITY && Abs(y) == INFINITY && x == y ==> z == 0x7FFF && IsNaN(z)
    ensures Abs(x) == INFINITY && Finite(y) ==> z == x
    ensures Finite(x) && Abs(y) == INFINITY ==> z == Negate(y)
    ensures Finite(x) && Finite(y) ==>
              var n := Value(x) - Value(y);
              if n != 0 then Delivers(mode, n < 0, Ratio(Magnitude(n), 1), z)
              else z == if Negative(x) != Negative(y) then SignBit(Negative(x)) else SignBit(mode == Downward)
  {
    z := Add(mode, x, Negate(y));
  }
}
