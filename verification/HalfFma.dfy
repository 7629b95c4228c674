/** `fma` of half.hpp: product and sum with a single rounding. */
module HalfFma {
  import opened Bits
  import opened HalfFormat
  import opened HalfRounding
  import opened HalfAlign
  import opened HalfProduct
  import opened HalfSum

  /** An addend m of exponent e is m * 2^(e - 14) units of 2^-24.  Exact values n are counted in units
      of 2^-48, so that n = m * 2^(e + 10); the factor 2^k on both sides keeps the powers integral. */
  predicate Stands(m: int, e: int, n: int, k: nat) {
    e + 10 + k >= 0 && n * Pow2(k) == m * Pow2(e + 10 + k)
  }

  predicate Addend(m: nat, e: int, n: int, k: nat) {
    0x800000 <= m < 0x1000000 && m % 4 == 0 && -33 <= e <= 46 && k >= 50 && Stands(m, e, n, k)
  }

  // ----- the two addends: product and third operand -----

  /** The product of the significands, normalised to 24 bits. */
  function ProductMantissa(p: nat): nat
    requires p / 0x200000 <= 1
  {
    p * Pow2(3 - p / 0x200000)
  }

  lemma ProductAddend(x: nat, y: nat, mx: nat, my: nat, ex: int, ey: int, p: nat, k: nat)
    requires Normalised(x, mx, ex) && Normalised(y, my, ey) && p == mx * my && k >= 50
    ensures p / 0x200000 <= 1
    ensures Addend(ProductMantissa(p), -15 + ex + ey + p / 0x200000, Mag(x) * Mag(y), k)
  {
    SignificandProduct(mx, my);
    MantissaRange(p);
    ProductScale(x, y, mx, my, ex, ey, p, k);
  }

  lemma ProductScale(x: nat, y: nat, mx: nat, my: nat, ex: int, ey: int, p: nat, k: nat)
    requires Normalised(x, mx, ex) && Normalised(y, my, ey) && p == mx * my && k >= 50
    ensures p / 0x200000 <= 1
    ensures Stands(ProductMantissa(p), -15 + ex + ey + p / 0x200000, Mag(x) * Mag(y), k)
  {
    var n, i, t := ProductValue(x, y, mx, my, ex, ey, p);
    ProductStands(n, p, i, t, k);
  }

  lemma ProductValue(x: nat, y: nat, mx: nat, my: nat, ex: int, ey: int, p: nat) returns (n: int, i: nat, t: nat)
    requires Normalised(x, mx, ex) && Normalised(y, my, ey) && p == mx * my
    ensures n == Mag(x) * Mag(y) && i == p / 0x200000 <= 1 && t == ex + ey + 18 && n * Pow2(20) == p * Pow2(t)
  {
    n, i, t := Mag(x) * Mag(y), p / 0x200000, ex + ey + 18;
    ProductShape(x, y, mx, my, ex, ey, i, -16 + ex + ey + i);
  }

  lemma MantissaRange(p: nat)
    requires 0x100000 <= p < 0x400000
    ensures p / 0x200000 <= 1
    ensures 0x800000 <= ProductMantissa(p) < 0x1000000 && ProductMantissa(p) % 4 == 0
  {
    assert Pow2(2) == 4 && Pow2(3) == 8;
    if p < 0x200000 {
      assert p / 0x200000 == 0 && ProductMantissa(p) == p * 8;
      FourFold(2 * p);
    } else {
      assert p / 0x200000 == 1 && ProductMantissa(p) == p * 4;
      FourFold(p);
    }
  }

  lemma FourFold(p: nat)
    ensures p * 4 % 4 == 0
  {
  }

  lemma ProductStands(n: int, p: nat, i: nat, t: nat, k: nat)
    requires i <= 1 && k >= 23 && n * Pow2(20) == p * Pow2(t)
    ensures Stands(p * Pow2(3 - i), t - 33 + i, n, k)
  {
    Pow2Sum(20, k - 20);
    Pow2Sum(t, k - 20);
    Pow2Sum(3 - i, t + k - 23 + i);
    Rescale(n, Pow2(20), p, Pow2(t), Pow2(k - 20));
    Regroup(p, Pow2(3 - i), Pow2(t + k - 23 + i));
  }

  lemma Rescale(n: int, a: int, m: int, b: int, c: int)
    requires n * a == m * b
    ensures n * (a * c) == m * (b * c)
  {
    Regroup(n, a, c);
    Regroup(m, b, c);
  }

  lemma SummandAddend(z: nat, mz: nat, ez: int, k: nat)
    requires Normalised(z, mz, ez) && k >= 50
    ensures Addend(mz * 0x2000, ez, Mag(z) * UNITS, k)
  {
    SummandStands(Mag(z), mz, ez + 9, k);
  }

  lemma SummandStands(v: int, m: nat, t: nat, k: nat)
    requires v * 0x400 == m * Pow2(t) && k >= 14
    ensures Stands(m * 0x2000, t - 9, v * UNITS, k)
  {
    Pow2Values();
    assert Pow2(13) == 4 * Pow2(11);
    Pow2Sum(10, 14 + k);
    Pow2Sum(t, 14 + k);
    Pow2Sum(24, k);
    Pow2Sum(13, t + 1 + k);
    Rescale(v, 0x400, m, Pow2(t), Pow2(14 + k));
    Regroup(v, UNITS, Pow2(k));
    Regroup(m, 0x2000, Pow2(t + 1 + k));
  }

  // ----- aligned sum and difference -----

  lemma FmaAligned(m: nat, e: int, n: int, m': nat, e': int, n': int, k: nat)
    requires Addend(m, e, n, k) && Addend(m', e', n', k) && e >= e'
    ensures Jammed(m + Align(m', e - e', 23), (n + n') * Pow2(k), Pow2(e + 10 + k))
    ensures Jammed(m - Align(m', e - e', 23), (n - n') * Pow2(k), Pow2(e + 10 + k))
  {
    var q, u, u' := AddendScales(m, e, n, m', e', n', k);
    AlignedAt(m, m', n, n', q, e - e', u, u');
  }

  lemma AddendScales(m: nat, e: int, n: int, m': nat, e': int, n': int, k: nat) returns (q: nat, u: nat, u': nat)
    requires Addend(m, e, n, k) && Addend(m', e', n', k) && e >= e'
    ensures q == Pow2(k) && u == Pow2(e + 10 + k) && u > 0
    ensures n * q == m * u && n' * q == m' * u' && u == Pow2(e - e') * u' && m % 2 == 0
  {
    q, u := AddendScale(m, e, n, k);
    u' := Pow2(e' + 10 + k);
    ScaleGap(e - e', e' + 10 + k, e + 10 + k);
  }

  lemma AddendScale(m: nat, e: int, n: int, k: nat) returns (q: nat, u: nat)
    requires Addend(m, e, n, k)
    ensures e + 10 + k >= 0 && q == Pow2(k) && u == Pow2(e + 10 + k) && u > 0 && n * q == m * u && m % 2 == 0
  {
    q, u := Pow2(k), Pow2(e + 10 + k);
    FourIsEven(m);
  }

  lemma FourIsEven(m: nat)
    requires m % 4 == 0
    ensures m % 2 == 0
  {
    DivUnique(m, 2, 2 * (m / 4), 0);
  }

  lemma ScaleGap(d: nat, j: nat, k: nat)
    requires k == d + j
    ensures Pow2(k) == Pow2(d) * Pow2(j)
  {
    Pow2Sum(d, j);
  }

  lemma AlignedAt(m: int, m': nat, n: int, n': int, q: int, d: nat, u: int, u': int)
    requires n * q == m * u && n' * q == m' * u' && u == Pow2(d) * u' && u > 0
    requires m % 2 == 0 && 0 < m' < 0x1000000
    ensures Jammed(m + Align(m', d, 23), (n + n') * q, u)
    ensures Jammed(m - Align(m', d, 23), (n - n') * q, u)
  {
    Pow2Values();
    AlignJams(m', d, 23);
    FmaTotals(m, m', n, n', q, Pow2(d), u, u');
    JamTotals(m, Align(m', d, 23), m', Pow2(d), u, (n + n') * q, (n - n') * q);
  }

  lemma FmaTotals(m: int, m': int, n: int, n': int, q: int, p: int, u: int, u': int)
    requires n * q == m * u && n' * q == m' * u' && u == p * u'
    ensures (n + n') * q * p == (m * p + m') * u
    ensures (n - n') * q * p == (m * p - m') * u
  {
    assert n * q * p == m * p * u;
    assert n' * q * p == m' * u by {
      Regroup(m', p, u');
      assert m' * u' * p == m' * (p * u');
    }
    assert (m * p + m') * u == m * p * u + m' * u;
    assert (m * p - m') * u == m * p * u - m' * u;
    assert (n + n') * q * p == n * q * p + n' * q * p;
    assert (n - n') * q * p == n * q * p - n' * q * p;
  }

  /** The carry i of the sum is shifted out into the sticky bit. */
  lemma FmaSum(m: nat, e: int, n: int, m': nat, e': int, n': int, t: nat, i: nat, k: nat)
    requires Addend(m, e, n, k) && Addend(m', e', n', k) && e >= e'
    requires t == m + Align(m', e - e', 23) && i == t / 0x1000000
    ensures i <= 1 && 0x800000 <= ShiftJam(t, i) < 0x1000000
    ensures Celled(ShiftJam(t, i), (n + n') * Pow2(k), Pow2(e + i + 10 + k))
  {
    FmaAligned(m, e, n, m', e', n', k);
    AlignBound(m', e - e', 23);
    assert Pow2(0) == 1 && Pow2(1) == 2;
    if i == 0 {
      JammedIsCelled(t, (n + n') * Pow2(k), Pow2(e + 10 + k));
    } else {
      SumCarries(t, (n + n') * Pow2(k), e + 10 + k);
    }
  }

  lemma SumCarries(t: nat, n: int, e: nat)
    requires Jammed(t, n, Pow2(e))
    ensures Celled(ShiftJam(t, 1), n, Pow2(e + 1))
  {
    JammedHalf(t, n, Pow2(e));
    JammedIsCelled(ShiftJam(t, 1), n, 2 * Pow2(e));
  }

  /** As `Tracks` for addition: what the normalisation loop after a cancellation preserves. */
  ghost predicate FmaTracks(m: nat, e: int, n: int, k: nat) {
    && e + 10 + k >= 0 && m < 0x1000000
    && (|| Stands(m, e, n, k)
        || (Jammed(m, n * Pow2(k), Pow2(e + 10 + k)) && m >= 0x400000)
        || (Celled(m, n * Pow2(k), Pow2(e + 10 + k)) && m >= 0x800000))
  }

  lemma FmaDoubled(m: nat, e: int, n: int, k: nat)
    requires FmaTracks(m, e, n, k) && m < 0x800000 && e + 10 + k > 0
    ensures FmaTracks(2 * m, e - 1, n, k)
  {
    var u := Pow2(e + 9 + k);
    assert Pow2(e + 10 + k) == 2 * u;
    if Stands(m, e, n, k) {
      Twice(m, u);
    } else {
      JammedDouble(m, n * Pow2(k), u);
    }
  }

  lemma FmaCelled(m: nat, e: int, n: int, k: nat)
    requires FmaTracks(m, e, n, k)
    ensures Celled(m, n * Pow2(k), Pow2(e + 10 + k))
  {
    if Jammed(m, n * Pow2(k), Pow2(e + 10 + k)) {
      JammedIsCelled(m, n * Pow2(k), Pow2(e + 10 + k));
    }
  }

  lemma FmaDifference(m: nat, e: int, n: int, m': nat, e': int, n': int, t: int, k: nat)
    requires Addend(m, e, n, k) && Addend(m', e', n', k) && (e > e' || (e == e' && m >= m'))
    requires t == m - Align(m', e - e', 23)
    ensures t >= 0 && n >= n' && (t == 0 <==> n == n')
    ensures FmaTracks(t, e, n - n', k)
  {
    var d := e - e';
    AlignShrinks(m', d, 23);
    assert 0 <= t < 0x1000000;
    assert Jammed(t, (n - n') * Pow2(k), Pow2(e + 10 + k)) by {
      FmaAligned(m, e, n, m', e', n', k);
    }
    JammedOrder(t, n - n', Pow2(k), Pow2(e + 10 + k));
    if d <= 2 {
      assert Stands(t, e, n - n', k) by {
        ExactAt(m, m', n, n', d, e, k);
      }
    }
  }

  /** Nothing is lost in a shift by at most two places. */
  lemma ExactAt(m: nat, m': nat, n: int, n': int, d: nat, e: int, k: nat)
    requires d <= 2 && m' % 4 == 0 && e + 10 + k - d >= 0
    requires Stands(m, e, n, k) && Stands(m', e - d, n', k)
    ensures Stands(m - Align(m', d, 23), e, n - n', k)
  {
    var t := Align(m', d, 23);
    ExactShift(m', d);
    Pow2Sum(d, e - d + 10 + k);
    Difference(n, n', Pow2(k), m, t, m', Pow2(d), Pow2(e - d + 10 + k));
  }

  lemma ExactShift(m: nat, d: nat)
    requires d <= 2 && m % 4 == 0
    ensures Align(m, d, 23) * Pow2(d) == m
  {
    EvenShift(m, d, 23, if d == 0 then m else if d == 1 then m / 2 else m / 4);
  }

  lemma Difference(n: int, n': int, q: int, m: int, t: int, m': int, p: int, u: int)
    requires n * q == m * (p * u) && n' * q == m' * u && t * p == m'
    ensures (n - n') * q == (m - t) * (p * u)
  {
    Regroup(t, p, u);
    assert (n - n') * q == n * q - n' * q;
    assert (m - t) * (p * u) == m * (p * u) - t * (p * u);
  }

  lemma AlignShrinks(m: nat, d: nat, limit: nat)
    requires m > 0 && limit > 0
    ensures d == 0 ==> Align(m, d, limit) == m
    ensures d > 0 ==> 1 <= Align(m, d, limit) <= m / 2 + 1
    ensures d > 2 ==> Align(m, d, limit) <= m / 8 + 1
  {
    AlignBound(m, d, limit);
    if d == 0 {
      assert Pow2(0) == 1;
    } else if d < limit {
      QuotientShrinks(m, d, 1);
      if d > 2 {
        QuotientShrinks(m, d, 3);
      }
      assert Pow2(1) == 2 && Pow2(3) == 8;
    }
  }

  lemma QuotientShrinks(m: nat, d: nat, c: nat)
    requires c <= d
    ensures Pow2(c) * Quo(m, Pow2(d)) <= m
  {
    Pow2Grows(c, d);
    Fits(m, Pow2(d), Pow2(c));
  }

  lemma Fits(m: nat, p: nat, c: nat)
    requires 0 < c <= p
    ensures c * Quo(m, p) <= m
  {
    var q := Quo(m, p);
    assert m == p * q + m % p;
    Grows(q, c, p);
  }

  /** A jammed value that is not negative stands for one that is not negative. */
  lemma JammedOrder(t: int, n: int, q: int, d: int)
    requires Jammed(t, n * q, d) && d > 0 && q > 0 && t >= 0
    ensures n >= 0 && (n == 0 <==> t == 0)
  {
    ScaleLess(0, t, d);
    ScaleLess(0, t - 1, d);
    ScaleLess(0, n, q);
    ScaleLess(n, 0, q);
  }

  lemma FmaPack(mode: Mode, neg: bool, m: nat, e: int, n: int, k: nat)
    requires 0x800000 <= m < 0x1000000 && e + 10 + k >= 0 && Celled(m, n * Pow2(k), Pow2(e + 10 + k))
    ensures m < 2 * Pow2(23) && Pack(mode, 23, m, e - 1, neg, false) < 0x10000
    ensures Delivers(mode, neg, Ratio(n, UNITS), Pack(mode, 23, m, e - 1, neg, false))
  {
    Pow2Values();
    RepresentsScaled(m, false, n * Pow2(k), Pow2(e + 10 + k), 4, Pow2(24));
    Pow2Sum(24, k);
    Regroup(n, Pow2(k), Pow2(24));
    PackDelivers(mode, 23, m, e - 1, neg, false, n, UNITS, k);
  }

  method FmaAdd(mode: Mode, neg: bool, m: nat, e: int, m': nat, e': int, ghost n: int, ghost n': int, ghost k: nat)
      returns (r: Half)
    requires Addend(m, e, n, k) && Addend(m', e', n', k) && e >= e'
    ensures Delivers(mode, neg, Ratio(n + n', UNITS), r)
  {
    var t: nat := m + Align(m', e - e', 23);
    var i := t / 0x1000000;
    FmaSum(m, e, n, m', e', n', t, i, k);
    r := FmaFinish(mode, neg, ShiftJam(t, i), e + i, n + n', k);
  }

  /** What both branches end with. */
  method FmaFinish(mode: Mode, neg: bool, m: nat, e: int, ghost n: int, ghost k: nat) returns (r: Half)
    requires 0x800000 <= m < 0x1000000 && e + 10 + k >= 0 && Celled(m, n * Pow2(k), Pow2(e + 10 + k))
    ensures Delivers(mode, neg, Ratio(n, UNITS), r)
  {
    FmaPack(mode, neg, m, e, n, k);
    r := Pack(mode, 23, m, e - 1, neg, false);
  }

  method FmaSubtract(mode: Mode, neg: bool, m: nat, e: int, m': nat, e': int, ghost n: int, ghost n': int, ghost k: nat)
      returns (r: Half)
    requires Addend(m, e, n, k) && Addend(m', e', n', k) && (e > e' || (e == e' && m >= m'))
    ensures n >= n'
    ensures n == n' ==> r == SignBit(mode == Downward)
    ensures n != n' ==> Delivers(mode, neg, Ratio(n - n', UNITS), r)
  {
    var t := m - Align(m', e - e', 23);
    var exp := e;
    FmaDifference(m, e, n, m', e', n', t, k);
    if t == 0 {
      return SignBit(mode == Downward);
    }
    ghost var j := 0;
    while t < 0x800000
      invariant 0 < t && FmaTracks(t, exp, n - n', k)
      invariant 0 <= j <= 23 && exp == e - j && Pow2(j) <= t
      decreases 0x800000 - t
    {
      FmaDoubled(t, exp, n - n', k);
      ShiftsLeft(j, t);
      t, exp, j := 2 * t, exp - 1, j + 1;
    }
    FmaCelled(t, exp, n - n', k);
    r := FmaFinish(mode, neg, t, exp, n - n', k);
  }

  lemma ShiftsLeft(j: nat, t: nat)
    requires j <= 23 && Pow2(j) <= t < 0x800000
    ensures j < 23 && Pow2(j + 1) <= 2 * t
  {
    Pow2Values();
  }

  /** The exact x * y + z in units of 2^-48. */
  function FusedValue(x: Half, y: Half, z: Half): int {
    Signed(Negative(x) != Negative(y), Mag(Abs(x)) * Mag(Abs(y))) + Value(z) * UNITS
  }

  /** r is x * y + z rounded once; an exact zero has the sign of IEEE 754-2008 section 6.3. */
  predicate IsFused(mode: Mode, x: Half, y: Half, z: Half, r: Half) {
    var neg, n := Negative(x) != Negative(y), FusedValue(x, y, z);
    if n != 0 then Delivers(mode, n < 0, Ratio(Magnitude(n), UNITS), r)
    else r == if neg == Negative(z) then SignBit(neg) else SignBit(mode == Downward)
  }

  lemma MagnitudesPositive(x: nat, y: nat)
    requires x > 0 && y > 0
    ensures Mag(x) * Mag(y) > 0
  {
    MagMonotone(0, x);
    MagMonotone(0, y);
    ScaleLess(0, Mag(x), Mag(y));
  }

  /** Signs and magnitudes of the two addends put together; p is the product in units of 2^-48. */
  lemma FusedAssembled(mode: Mode, x: Half, y: Half, z: Half, r: Half, p: int)
    requires p == Mag(Abs(x)) * Mag(Abs(y)) && p >= 0 && (p > 0 || Abs(z) > 0)
    requires IsSignedSum(mode, Negative(x) != Negative(y), Negative(z), p, Mag(Abs(z)) * UNITS, r)
    ensures IsFused(mode, x, y, z, r)
  {
    MagOrder(0, Abs(z));
    if Abs(z) > 0 {
      MagMonotone(0, Abs(z));
    }
    FusedSigned(Negative(x) != Negative(y), Negative(z), p, Mag(Abs(z)));
  }

  lemma FusedSigned(neg: bool, negz: bool, p: nat, c: nat)
    ensures var n := Signed(neg, p) + Signed(negz, c) * UNITS;
            if neg == negz then n == Signed(neg, p + c * UNITS)
            else if p >= c * UNITS then n == Signed(neg, p - c * UNITS)
            else n == Signed(negz, c * UNITS - p)
  {
  }

  lemma FusedZeroProduct(mode: Mode, x: Half, y: Half, z: Half)
    requires Finite(z) && (Abs(x) == 0 || Abs(y) == 0)
    ensures Abs(z) != 0 ==> IsFused(mode, x, y, z, z)
    ensures Abs(z) == 0 ==> FusedValue(x, y, z) == 0
  {
    NoProduct(Mag(Abs(x)), Mag(Abs(y)));
    if Abs(z) != 0 {
      AddendAlone(mode, z);
      FusedAssembled(mode, x, y, z, z, 0);
    }
  }

  lemma NoProduct(x: nat, y: nat)
    requires x == 0 || y == 0
    ensures x * y == 0
  {
  }

  lemma AddendAlone(mode: Mode, z: Half)
    requires Finite(z) && Abs(z) != 0
    ensures Mag(Abs(z)) > 0 && Delivers(mode, Negative(z), Ratio(Mag(Abs(z)) * UNITS, UNITS), z)
  {
    MagMonotone(0, Abs(z));
    ExactDelivers(mode, z);
    RatioScales(mode, Negative(z), Mag(Abs(z)), 1, UNITS, Abs(z));
  }

  /** r is the rounded sum of a product p and a summand c with the given signs. */
  predicate IsSignedSum(mode: Mode, neg: bool, negz: bool, p: int, c: int, r: Half) {
    if neg == negz then Delivers(mode, neg, Ratio(p + c, UNITS), r)
    else if p == c then r == SignBit(mode == Downward)
    else if p > c then Delivers(mode, neg, Ratio(p - c, UNITS), r)
    else Delivers(mode, negz, Ratio(c - p, UNITS), r)
  }

  /** Swaps the addends unless the product's exponent, or on equal exponents its mantissa, is the
      larger one. */
  method FmaOrdered(mode: Mode, neg: bool, negz: bool, m: nat, exp: int, mz: nat, ez: int,
                    ghost p: int, ghost c: int, ghost k: nat) returns (r: Half)
    requires Addend(m, exp, p, k) && Addend(mz, ez, c, k)
    ensures IsSignedSum(mode, neg, negz, p, c, r)
  {
    var swap := ez > exp || (ez == exp && mz > m);
    if neg != negz {
      if swap {
        r := FmaSubtract(mode, negz, mz, ez, m, exp, c, p, k);
      } else {
        r := FmaSubtract(mode, neg, m, exp, mz, ez, p, c, k);
      }
    } else if swap {
      r := FmaAdd(mode, neg, mz, ez, m, exp, c, p, k);
    } else {
      r := FmaAdd(mode, neg, m, exp, mz, ez, p, c, k);
    }
  }

  /** The operation on finite operands with a nonzero product. */
  method FmaFinite(mode: Mode, neg: bool, negz: bool, absx: nat, absy: nat, absz: nat) returns (r: Half)
    requires 0 < absx < INFINITY && 0 < absy < INFINITY && absz < INFINITY
    ensures if absz == 0 then Delivers(mode, neg, Ratio(Mag(absx) * Mag(absy), UNITS), r)
            else IsSignedSum(mode, neg, negz, Mag(absx) * Mag(absy), Mag(absz) * UNITS, r)
  {
    ghost var k: nat := 50;
    var mx, ex := Normalise(absx);
    var my, ey := Normalise(absy);
    SignificandProduct(mx, my);
    var p: nat := mx * my;
    ProductAddend(absx, absy, mx, my, ex, ey, p, k);
    var exp := -15 + ex + ey + p / 0x200000;
    var m := ProductMantissa(p);
    if absz == 0 {
      FmaPack(mode, neg, m, exp, Mag(absx) * Mag(absy), k);
      r := Pack(mode, 23, m, exp - 1, neg, false);
    } else {
      var mz, ez := Normalise(absz);
      SummandAddend(absz, mz, ez, k);
      r := FmaOrdered(mode, neg, negz, m, exp, mz * 0x2000, ez, Mag(absx) * Mag(absy), Mag(absz) * UNITS, k);
    }
  }

  method Fma(mode: Mode, x: Half, y: Half, z: Half) returns (r: Half)
    ensures IsNaN(x) || IsNaN(y) || IsNaN(z) ==>
              IsNaN(r) && if IsNaN(x) || IsNaN(y) then Propagates(x, y, r) else IsQuieted(z, r)
    ensures (Abs(x) == INFINITY && Abs(y) == 0) || (Abs(x) == 0 && Abs(y) == INFINITY) ==>
              IsNaN(r) && (!IsNaN(z) ==> r == 0x7FFF)
    ensures !IsNaN(x) && !IsNaN(y) && !IsNaN(z) && Abs(x) != 0 && Abs(y) != 0 && !(Finite(x) && Finite(y)) ==>
              var neg := Negative(x) != Negative(y);
              if Abs(z) == INFINITY && neg != Negative(z) then r == 0x7FFF && IsNaN(r) else r == SignBit(neg) + INFINITY
    ensures Finite(x) && Finite(y) && Abs(z) == INFINITY ==> r == z
    ensures Finite(x) && Finite(y) && Finite(z) ==> IsFused(mode, x, y, z, r)
  {
    var absx, absy, absz := Abs(x), Abs(y), Abs(z);
    var neg := Negative(x) != Negative(y);
    var sub := neg != Negative(z);
    if absx >= INFINITY || absy >= INFINITY || absz >= INFINITY {
      r := if absx > INFINITY || absy > INFINITY || absz > INFINITY then
             (if absx > INFINITY then Quiet(x) else if absy > INFINITY then Quiet(y) else Quiet(z))
           else if absx == INFINITY then
             (if absy == 0 || (sub && absz == INFINITY) then INVALID else SignBit(neg) + INFINITY)
           else if absy == INFINITY then
             (if absx == 0 || (sub && absz == INFINITY) then INVALID else SignBit(neg) + INFINITY)
           else z;
      return;
    }
    if absx == 0 || absy == 0 {
      FusedZeroProduct(mode, x, y, z);
      // OR of the sign bits of two zeros when rounding downward, AND otherwise
      return if absz != 0 then z
             else SignBit(if mode == Downward then Negative(z) || neg else Negative(z) && neg);
    }
    r := FmaFinite(mode, neg, Negative(z), absx, absy, absz);
    FusedNonzero(mode, x, y, z, r);
  }

  lemma FusedNonzero(mode: Mode, x: Half, y: Half, z: Half, r: Half)
    requires Abs(x) != 0 && Abs(y) != 0
    requires var neg, p := Negative(x) != Negative(y), Mag(Abs(x)) * Mag(Abs(y));
             if Abs(z) == 0 then Delivers(mode, neg, Ratio(p, UNITS), r)
             else IsSignedSum(mode, neg, Negative(z), p, Mag(Abs(z)) * UNITS, r)
    ensures IsFused(mode, x, y, z, r)
  {
    MagnitudesPositive(Abs(x), Abs(y));
    FusedAssembled(mode, x, y, z, r, Mag(Abs(x)) * Mag(Abs(y)));
  }
}
