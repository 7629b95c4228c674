/** `detail::mod` of half.hpp and the three functions built on it: fmod, remainder and remquo.
    All of them are exact, so that they are about the integers Mag(x) and Mag(y). */
module HalfMod {
  import opened Bits
  import opened HalfFormat
  import opened HalfProduct
  import opened HalfSum

  // ----- the remainder operation of IEEE 754-2008 section 5.3.1 -----

  predicate RoundsUp(x: nat, y: nat)
    requires y > 0
  {
    2 * (x % y) > y || (2 * (x % y) == y && x / y % 2 == 1)
  }

  /** The integer nearest to x/y, ties to even. */
  function NearestQuotient(x: nat, y: nat): int
    requires y > 0
  {
    if RoundsUp(x, y) then x / y + 1 else x / y
  }

  /** What the 30 low bits of the quotient and the rounding leave of NearestQuotient. */
  function KeptQuotient(x: nat, y: nat): (q: nat)
    requires y > 0
    ensures (q - NearestQuotient(x, y)) % 0x4000_0000 == 0
    ensures NearestQuotient(x, y) < 0x4000_0000 ==> q == NearestQuotient(x, y)
  {
    KeptParts(x / y, x / y % 0x4000_0000);
    x / y % 0x4000_0000 + if RoundsUp(x, y) then 1 else 0
  }

  lemma KeptParts(k: nat, low: nat)
    requires low == k % 0x4000_0000
    ensures (low - k) % 0x4000_0000 == 0 && (low + 1 - (k + 1)) % 0x4000_0000 == 0
    ensures k < 0x4000_0000 ==> low == k
  {
    ExactTurns(low - k, 0 - k / 0x4000_0000);
  }

  lemma ExactTurns(x: int, z: int)
    requires x == 0x4000_0000 * z
    ensures x % 0x4000_0000 == 0
  {
  }

  /** x - y * NearestQuotient(x, y) */
  function SignedRemainder(x: nat, y: nat): int
    requires y > 0
  {
    if RoundsUp(x, y) then x % y - y else x % y
  }

  /** No other multiple of y is nearer to x, and one as near as this has an odd factor. */
  lemma NearestQuotientIsNearest(x: nat, y: nat, j: int)
    requires y > 0
    ensures SignedRemainder(x, y) == x - y * NearestQuotient(x, y)
    ensures j != NearestQuotient(x, y) ==>
              Magnitude(x - y * j) > Magnitude(SignedRemainder(x, y))
              || (Magnitude(x - y * j) == Magnitude(SignedRemainder(x, y)) && NearestQuotient(x, y) % 2 == 0)
  {
    var k, r := x / y, x % y;
    assert x == y * k + r;
    assert y * (k + 1) == y * k + y;
    if j < k {
      MultipleOrder(y, j, k);
    } else if j > k + 1 {
      MultipleOrder(y, k + 1, j);
    }
  }

  lemma MultipleOrder(y: nat, i: int, j: int)
    requires i < j
    ensures y * i + y <= y * j
  {
    Grows(y, i + 1, j);
    assert y * (i + 1) == y * i + y;
  }

  // ----- the shift-subtract loop -----

  /** After the bits of the quotient down to weight 2^d: x = k * 2^d * y + what m stands for. */
  predicate Divides(x: int, y: int, k: int, d: nat, m: int, my: int, e: nat) {
    x * 0x400 == k * Pow2(d) * (y * 0x400) + m * Pow2(d + e)
  }

  lemma DivideStep(x: int, y: int, k: int, d: nat, m: int, my: int, e: nat)
    requires Divides(x, y, k, d, m, my, e) && y * 0x400 == my * Pow2(e)
    ensures Divides(x, y, k + 1, d, m - my, my, e)
    ensures d > 0 ==> Divides(x, y, 2 * k, d - 1, 2 * m, my, e)
  {
    Pow2Sum(d, e);
    Regroup(my, Pow2(d), Pow2(e));
    StepAlgebra(k, Pow2(d), y * 0x400, m, my, Pow2(e));
    if d > 0 {
      HalveAlgebra(k, Pow2(d - 1), y * 0x400, m, Pow2(d - 1 + e));
    }
  }

  lemma StepAlgebra(k: int, p: int, b: int, m: int, my: int, u: int)
    requires b == my * u
    ensures (k + 1) * p * b + (m - my) * (p * u) == k * p * b + m * (p * u)
  {
    assert (k + 1) * p * b == k * p * b + p * b;
    assert (m - my) * (p * u) == m * (p * u) - my * (p * u);
    assert my * (p * u) == p * (my * u);
  }

  lemma HalveAlgebra(k: int, p: int, b: int, m: int, u: int)
    ensures k * (2 * p) * b + m * (2 * u) == 2 * k * p * b + 2 * m * u
  {
  }

  lemma DivideDone(x: nat, y: nat, k: nat, m: nat, my: nat, e: nat) returns (r: nat)
    requires Divides(x, y, k, 0, m, my, e) && y * 0x400 == my * Pow2(e) && m < my
    ensures r == x % y && k == x / y && r * 0x400 == m * Pow2(e) && r < y
  {
    assert Pow2(0) == 1;
    r := x - k * y;
    assert k * 1 * (y * 0x400) == k * y * 0x400;
    ScaleLess(m, my, Pow2(e));
    DivUnique(x, y, k, r);
  }

  lemma GapNonnegative(x: nat, y: nat, mx: nat, my: nat, ex: int, ey: int)
    requires Normalised(x, mx, ex) && Normalised(y, my, ey) && x > y
    ensures ex >= ey
  {
    MagMonotone(y, x);
    if ex < ey {
      Pow2Grows(ex + 9, ey + 9);
      LowerBinade(mx, my, Pow2(ex + 9), Pow2(ey + 9));
    }
  }

  lemma LowerBinade(mx: int, my: int, u: int, w: int)
    requires mx < 0x800 && my >= 0x400 && w >= 2 * u && u > 0
    ensures mx * u < my * w
  {
    ScaleLess(mx, 0x800, u);
    ScaleLess(0x400, my, w);
  }

  /** k is the quotient so far; q is what the 32-bit counter holds of it before the next bit. */
  predicate Counts(full: bool, q: nat, k: nat) {
    k % 2 == 0 && if full then q == k % WORD else q == 0
  }

  /** The bits of the quotient that the counter keeps. */
  function LowPart(full: bool, k: nat): nat {
    if full then k % WORD else k % 2
  }

  lemma CountStep(full: bool, q: nat, k: nat, b: nat)
    requires Counts(full, q, k) && b < 2
    ensures Counts(full, if full then 2 * (q + b) % WORD else q, 2 * (k + b))
    ensures q + b == LowPart(full, k + b)
  {
    Doubled(k + b);
    if full {
      WordPlusBit(k, b);
      WordDouble(k + b);
    } else {
      EvenPlusBit(k, b);
    }
  }

  lemma Doubled(k: nat)
    ensures 2 * k % 2 == 0
  {
  }

  lemma EvenPlusBit(k: nat, b: nat)
    requires k % 2 == 0 && b < 2
    ensures (k + b) % 2 == b
  {
  }

  lemma WordPlusBit(k: nat, b: nat)
    requires k % 2 == 0 && b < 2
    ensures k % WORD + b == (k + b) % WORD
  {
    var c, q := k / WORD, k % WORD;
    assert k == WORD * c + q;
    assert q % 2 == 0;
    DivUnique(k + b, WORD, c, q + b);
  }

  lemma WordDouble(k: nat)
    ensures 2 * (k % WORD) % WORD == 2 * k % WORD
  {
    var c, q := k / WORD, k % WORD;
    assert k == WORD * c + q;
    if 2 * q < WORD {
      DivUnique(2 * k, WORD, 2 * c, 2 * q);
    } else {
      DivUnique(2 * k, WORD, 2 * c + 1, 2 * q - WORD);
      DivUnique(2 * q, WORD, 1, 2 * q - WORD);
    }
  }

  /** One round of the loop: the subtraction if it is possible, then the shift. */
  lemma DivideRound(x: int, y: int, k: int, d: nat, m: int, my: int, e: nat, b: nat)
    requires Divides(x, y, k, d, m, my, e) && y * 0x400 == my * Pow2(e) && b < 2
    ensures b == 1 ==> Divides(x, y, k + 1, d, m - my, my, e)
    ensures d > 0 ==> Divides(x, y, 2 * (k + b), d - 1, if b == 1 then 2 * (m - my) else 2 * m, my, e)
  {
    DivideStep(x, y, k, d, m, my, e);
    if b == 1 {
      DivideStep(x, y, k + 1, d, m - my, my, e);
    }
  }

  ghost predicate Dividing(full: bool, x: int, y: int, k: nat, d: nat, m: nat, my: nat, e: nat, q: nat) {
    Divides(x, y, k, d, m, my, e) && m < 2 * my && Counts(full, q, k) && (!full ==> m > 0)
  }

  function Reduced(m: nat, my: nat): nat { if m >= my then m - my else m }

  function Counted(m: nat, my: nat): (b: nat)
    ensures b < 2
  {
    if m >= my then 1 else 0
  }

  lemma RoundKeeps(full: bool, x: int, y: int, k: nat, d: nat, m: nat, my: nat, e: nat, q: nat)
    requires Dividing(full, x, y, k, d, m, my, e, q) && y * 0x400 == my * Pow2(e)
    requires d > 0 && (full || m != my)
    ensures var b := Counted(m, my);
            Dividing(full, x, y, 2 * (k + b), d - 1, 2 * Reduced(m, my), my, e, if full then 2 * (q + b) % WORD else q)
  {
    DivideRound(x, y, k, d, m, my, e, Counted(m, my));
    CountStep(full, q, k, Counted(m, my));
  }

  lemma LastRound(full: bool, x: int, y: int, k: nat, m: nat, my: nat, e: nat, q: nat)
    requires Dividing(full, x, y, k, 0, m, my, e, q) && y * 0x400 == my * Pow2(e) && (full || m != my)
    ensures var b := Counted(m, my);
            && Divides(x, y, k + b, 0, Reduced(m, my), my, e) && Reduced(m, my) < my
            && q + b == LowPart(full, k + b)
  {
    var b := Counted(m, my);
    assert Divides(x, y, k + b, 0, Reduced(m, my), my, e) by {
      DivideRound(x, y, k, 0, m, my, e, b);
    }
    CountStep(full, q, k, b);
  }

  /** The loop over the exponent gap d and the last subtraction.  In 32-bit unsigned arithmetic q
      collects the quotient if `full`, and otherwise only its lowest bit.  `zero` stands for the early
      `return 0` of the version without a quotient. */
  method ShiftSubtract(full: bool, mx: nat, my: nat, gap: nat, ghost x: nat, ghost y: nat, ghost e: nat)
      returns (m: nat, q: nat, zero: bool, ghost k: nat)
    requires 0 < mx < 2 * my && y > 0
    requires x * 0x400 == mx * Pow2(gap + e) && y * 0x400 == my * Pow2(e)
    ensures zero ==> !full && x % y == 0
    ensures !zero ==> m < my && Divides(x, y, k, 0, m, my, e)
    ensures !zero && m == 0 ==> full
    ensures full || !zero ==> q == LowPart(full, k)
  {
    m, q, k, zero := mx, 0, 0, false;
    var d := gap;
    while d != 0
      invariant Dividing(full, x, y, k, d, m, my, e, q)
      decreases d
    {
      if !full && m == my {
        EarlyZero(x, y, k, d, m, my, e);
        return m, q, true, k;
      }
      RoundKeeps(full, x, y, k, d, m, my, e, q);
      k := 2 * (k + Counted(m, my));
      if m >= my {
        m := m - my;
        q := if full then q + 1 else q;
      }
      m := 2 * m;
      q := if full then 2 * q % WORD else q;
      d := d - 1;
    }
    if !full && m == my {
      EarlyZero(x, y, k, 0, m, my, e);
      return m, q, true, k;
    }
    LastRound(full, x, y, k, m, my, e, q);
    k := k + Counted(m, my);
    if m >= my {
      m, q := m - my, q + 1;
    }
  }

  /** m is what remains of x at y's exponent. */
  method DivideBits(full: bool, x: nat, y: nat) returns (m: nat, my: nat, ey: int, q: nat, zero: bool)
    requires 0 < y < x < INFINITY
    ensures Normalised(y, my, ey) && Mag(y) > 0
    ensures zero ==> !full && Mag(x) % Mag(y) == 0
    ensures !zero ==> m < my && Mag(x) % Mag(y) * 0x400 == m * Pow2(ey + 9)
    ensures !zero && m == 0 ==> full
    ensures full || !zero ==> q == LowPart(full, Quo(Mag(x), Mag(y)))
  {
    var mx, ex := Normalise(x);
    my, ey := Normalise(y);
    GapNonnegative(x, y, mx, my, ex, ey);
    MagMonotone(0, y);
    ghost var k: nat;
    m, q, zero, k := ShiftSubtract(full, mx, my, ex - ey, Mag(x), Mag(y), ey + 9);
    if !zero {
      ghost var r := DivideDone(Mag(x), Mag(y), k, m, my, ey + 9);
    }
  }

  lemma EarlyZero(x: nat, y: nat, k: nat, d: nat, m: nat, my: nat, e: nat)
    requires Divides(x, y, k, d, m, my, e) && y * 0x400 == my * Pow2(e) && m == my && y > 0
    ensures x % y == 0
  {
    DivideStep(x, y, k, d, m, my, e);
    CancelUnits(x, y, (k + 1) * Pow2(d), Pow2(d + e));
    ProductBound(0, k + 1, 0, Pow2(d));
    ExactMultiple(x, y, (k + 1) * Pow2(d));
  }

  lemma CancelUnits(x: int, y: int, c: int, u: int)
    requires x * 0x400 == c * (y * 0x400) + 0 * u
    ensures x == y * c
  {
    assert c * (y * 0x400) == y * c * 0x400;
  }

  lemma ExactMultiple(x: nat, y: nat, c: int)
    requires x == y * c && y > 0 && c >= 0
    ensures x % y == 0
  {
    DivUnique(x, y, c, 0);
  }

  // ----- the remainder's own representation -----

  lemma UnpackStep(r: nat, m: nat, e: int)
    requires r > 0 && m < 0x400 && e + 9 >= 0 && r * 0x400 == m * Pow2(e + 9)
    ensures e + 9 > 0 && r * 0x400 == 2 * m * Pow2(e + 8)
  {
    if e + 9 > 0 {
      Regroup(m, 2, Pow2(e + 8));
    }
  }

  lemma NormalRemainder(r: nat, m: nat, e: nat)
    requires 0x400 <= m < 0x800 && e > 0 && r * 0x400 == m * Pow2(e + 9)
    ensures Mag(e * 0x400 + m % 0x400) == r
  {
    assert Pow2(10) == 0x400;
    Pow2Sum(e - 1, 10);
    CancelUnit(r, m, Pow2(e - 1));
    MagField(e - 1, m);
    HiddenBit(m, e);
  }

  lemma HiddenBit(m: nat, e: nat)
    requires 0x400 <= m < 0x800 && e > 0
    ensures e * 0x400 + m % 0x400 == (e - 1) * 0x400 + m
  {
  }

  lemma CancelUnit(r: int, m: int, p: int)
    requires r * 0x400 == m * (p * 0x400)
    ensures r == m * p
  {
    Regroup(m, p, 0x400);
  }

  lemma SubnormalRemainder(r: nat, m: nat, e: int)
    requires m < 0x800 && -9 <= e <= 0 && r * 0x400 == m * Pow2(e + 9)
    ensures Quo(m, Pow2(1 - e)) == r < 0x400
  {
    assert Pow2(10) == 0x400 && Pow2(1) == 2;
    Pow2Sum(1 - e, e + 9);
    Pow2Grows(1, 1 - e);
    ScaledRemainder(r, m, Pow2(1 - e), Pow2(e + 9));
  }

  lemma ScaledRemainder(r: nat, m: nat, p: nat, q: nat)
    requires m < 0x800 && p >= 2 && q > 0 && r * (p * q) == m * q
    ensures m / p == r < 0x400
  {
    Regroup(r, p, q);
    ScaleLess(r * p, m, q);
    DivUnique(m, p, r, 0);
    Grows(r, 2, p);
  }

  method RemainderBits(mx: nat, ey: int, ghost r: nat) returns (z: nat)
    requires 0 < mx < 0x800 && -9 <= ey <= 30 && r * 0x400 == mx * Pow2(ey + 9)
    ensures z < INFINITY && Mag(z) == r
  {
    var m, e := mx, ey;
    ScaleLess(0, mx, Pow2(ey + 9));
    while m < 0x400
      invariant 0 < m < 0x800 && -9 <= e <= 30 && r * 0x400 == m * Pow2(e + 9)
      decreases 0x800 - m
    {
      UnpackStep(r, m, e);
      m, e := 2 * m, e - 1;
    }
    if e > 0 {
      NormalRemainder(r, m, e);
      z := e * 0x400 + m % 0x400;
    } else {
      SubnormalRemainder(r, m, e);
      z := Quo(m, Pow2(1 - e));
    }
  }

  // ----- the signed remainder -----

  /** Doubling x, or halving y, is a change of the exponent field; so 2 * x is compared with y. */
  lemma CompareTwice(x: nat, y: nat, a: nat, b: nat)
    requires x < INFINITY && y < INFINITY
    requires a == if y < 0x800 then (if x < 0x400 then 2 * x else x + 0x400) else x
    requires b == if y < 0x800 then y else y - 0x400
    ensures a > b <==> 2 * Mag(x) > Mag(y)
    ensures a == b <==> 2 * Mag(x) == Mag(y)
  {
    if y < 0x800 {
      TwiceMag(x);
    } else {
      TwiceMag(y - 0x400);
    }
    CompareMag(a, b);
  }

  lemma CompareMag(a: nat, b: nat)
    ensures a > b <==> Mag(a) > Mag(b)
    ensures a == b <==> Mag(a) == Mag(b)
  {
    if a < b {
      MagMonotone(a, b);
    } else if b < a {
      MagMonotone(b, a);
    }
  }

  lemma TwiceMag(x: nat)
    ensures Mag(if x < 0x400 then 2 * x else x + 0x400) == 2 * Mag(x)
  {
    if x < 0x400 {
      if 2 * x >= 0x400 {
        MagField(0, 2 * x);
      }
    } else {
      var e, q := x / 0x400 - 1, 0x400 + x % 0x400;
      MagField(e, q);
      MagField(e + 1, q);
      Regroup(q, 2, Pow2(e));
    }
  }

  /** 2 * (y - x) at y's exponent, when x < y <= 2 * x. */
  lemma ComplementStart(x: nat, y: nat, d: int)
    requires x < y < INFINITY && 2 * Mag(x) >= Mag(y) && d == Exponent(y) - Exponent(x)
    ensures 0 <= d <= 1
    ensures var m := 2 * Significand(y) - Significand(x) * (if d == 1 then 1 else 2);
            0 < m < 0x1000 && 2 * (Mag(y) - Mag(x)) == m * Pow2(Exponent(y) - 1)
            && (m % 2 == 0 || (m < 0x800 && Exponent(y) > 1))
  {
    MagMonotone(x, y);
    MagParts(x);
    MagParts(y);
    ExponentGap(x, y, d);
    var m := 2 * Significand(y) - Significand(x) * (if d == 1 then 1 else 2);
    var u := Pow2(Exponent(y) - 1);
    if d == 1 {
      assert u == 2 * Pow2(Exponent(x) - 1);
      OneApart(Mag(x), Mag(y), Significand(x), Significand(y), Pow2(Exponent(x) - 1));
    } else {
      SameExponent(Mag(x), Mag(y), Significand(x), Significand(y), u);
    }
  }

  lemma SameExponent(x: int, y: int, mx: int, my: int, u: int)
    requires x == mx * u && y == my * u && x < y && u > 0
    ensures mx < my && 2 * (y - x) == (2 * my - 2 * mx) * u
  {
    ScaleLess(mx, my, u);
  }

  lemma OneApart(x: int, y: int, mx: int, my: int, u: int)
    requires x == mx * u && y == my * (2 * u) && x < y <= 2 * x && u > 0
    ensures 0 < 2 * my - mx <= mx && 2 * (y - x) == (2 * my - mx) * (2 * u)
  {
    assert y == 2 * my * u && 2 * x == 2 * mx * u;
    ScaleLess(mx, 2 * my, u);
    ScaleLess(2 * my, 2 * mx, u);
    Difference(2 * my, mx, u);
  }

  lemma Difference(a: int, b: int, u: int)
    ensures (a - b) * (2 * u) == 2 * (a * u - b * u)
  {
  }

  lemma ExponentGap(x: nat, y: nat, d: int)
    requires x < y && 2 * Mag(x) >= Mag(y) && d == Exponent(y) - Exponent(x)
    ensures 0 <= d <= 1
  {
    if d > 1 {
      MagParts(x);
      MagParts(y);
      var u, w := Pow2(Exponent(x) - 1), Pow2(Exponent(y) - 1);
      Pow2Grows(Exponent(x) + 1, Exponent(y) - 1);
      assert Pow2(Exponent(x) + 1) == 4 * u;
      FarApart(Significand(x), Significand(y), u, w);
    }
  }

  lemma FarApart(mx: int, my: int, u: int, w: int)
    requires mx < 0x800 && my >= 0x400 && w >= 4 * u && u > 0
    ensures 2 * (mx * u) < my * w
  {
    ScaleLess(mx, 0x800, u);
    ScaleLess(0x400, my, w);
  }

  lemma ComplementStep(v: int, m: nat, e: nat)
    requires e > 1 && v == m * Pow2(e - 1)
    ensures v == 2 * m * Pow2(e - 2)
  {
    Regroup(m, 2, Pow2(e - 2));
  }

  lemma ComplementMag(v: nat, m: nat, e: nat)
    requires m % 2 == 0 && m < 0x1000 && e >= 1 && (m >= 0x800 || e == 1) && 2 * v == m * Pow2(e - 1)
    ensures Mag((e - 1) * 0x400 + m / 2) == v
  {
    var h, u := m / 2, Pow2(e - 1);
    assert m * u == 2 * (h * u);
    if h >= 0x400 {
      MagField(e - 1, h);
    } else {
      assert Pow2(0) == 1;
    }
  }

  predicate Complementing(v: nat, m: nat, exp: nat) {
    1 <= exp <= 30 && 0 < m < 0x1000 && 2 * v == m * Pow2(exp - 1) && (m % 2 == 0 || (m < 0x800 && exp > 1))
  }

  method NormaliseComplement(m0: nat, exp0: nat, ghost v: nat) returns (a: nat)
    requires Complementing(v, m0, exp0)
    ensures a < INFINITY && Mag(a) == v
  {
    var m, exp := m0, exp0;
    while m < 0x800 && exp > 1
      invariant Complementing(v, m, exp)
      decreases exp
    {
      ComplementKeeps(v, m, exp);
      m, exp := 2 * m, exp - 1;
    }
    ComplementMag(v, m, exp);
    a := (exp - 1) * 0x400 + m / 2;
  }

  lemma ComplementKeeps(v: nat, m: nat, exp: nat)
    requires Complementing(v, m, exp) && m < 0x800 && exp > 1
    ensures Complementing(v, 2 * m, exp - 1)
  {
    ComplementStep(2 * v, m, exp);
  }

  /** y - x with the sign bit set: what `mod` returns when the next multiple of y is nearer. */
  method ComplementBits(x: nat, y: nat) returns (z: Half)
    requires x < y < INFINITY && 2 * Mag(x) >= Mag(y)
    ensures Negative(z) && Abs(z) < INFINITY && Mag(x) < Mag(y) && Mag(Abs(z)) == Mag(y) - Mag(x)
  {
    MagMonotone(x, y);
    var d := Exponent(y) - Exponent(x);
    ComplementStart(x, y, d);
    var m: nat := 2 * Significand(y) - Significand(x) * (if d == 1 then 1 else 2);
    var a := NormaliseComplement(m, Exponent(y), Mag(y) - Mag(x));
    z := 0x8000 + a;
    assert Abs(z) == a;
  }

  // ----- mod, half.hpp:1409-1473 -----

  /** What the remainder part leaves: the pattern r of x mod y, and a count q of the quotient. */
  predicate Modulus(full: bool, x: nat, y: nat, r: nat, q: nat) {
    && Mag(y) > 0 && r < y && Mag(r) == Mag(x) % Mag(y)
    && (full ==> q == Quo(Mag(x), Mag(y)) % 0x4000_0000)
    && (full || Mag(r) != 0 ==> q % 2 == Mag(x) / Mag(y) % 2)
  }

  lemma LowBits(q: nat, k: nat)
    requires q == k % WORD
    ensures q % 0x4000_0000 == k % 0x4000_0000
    ensures q % 0x4000_0000 % 2 == k % 2
  {
    var c, h, low := k / WORD, q / 0x4000_0000, q % 0x4000_0000;
    assert k == WORD * c + q && q == 0x4000_0000 * h + low;
    DivUnique(k, 0x4000_0000, 4 * c + h, low);
    SameParity(low, k, h + 4 * c);
  }

  lemma SameParity(low: nat, k: nat, z: int)
    requires k == 0x4000_0000 * z + low
    ensures low % 2 == k % 2
  {
    assert k == 2 * (0x2000_0000 * z) + low;
  }

  method Remainder(full: bool, x: nat, y: nat) returns (r: nat, q: nat)
    requires x < INFINITY && 0 < y < INFINITY && x != y
    ensures Modulus(full, x, y, r, q)
  {
    CompareMag(x, y);
    CompareMag(y, 0);
    if x < y {
      DivUnique(Mag(x), Mag(y), 0, Mag(x));
      return x, 0;
    }
    var m, my, ey, c, zero := DivideBits(full, x, y);
    if zero {
      return 0, c;
    }
    q := if full then c % 0x4000_0000 else c;
    ghost var rest := RestOf(full, x, y, c, q);
    if full && m == 0 {
      ZeroRest(rest, Pow2(ey + 9));
      return 0, q;
    }
    r := RemainderBits(m, ey, rest);
    CompareMag(r, y);
  }

  lemma RestOf(full: bool, x: nat, y: nat, c: nat, q: nat) returns (rest: nat)
    requires Mag(y) > 0 && c == LowPart(full, Quo(Mag(x), Mag(y))) && q == if full then c % 0x4000_0000 else c
    ensures rest == Mag(x) % Mag(y) < Mag(y)
    ensures full ==> q == Quo(Mag(x), Mag(y)) % 0x4000_0000
    ensures q % 2 == Mag(x) / Mag(y) % 2
  {
    rest := Mag(x) % Mag(y);
    if full {
      LowBits(c, Mag(x) / Mag(y));
    }
  }

  lemma ZeroRest(r: nat, p: nat)
    requires r * 0x400 == 0 * p
    ensures r == 0
  {
  }

  predicate GoesUp(r: nat, y: nat, q: nat) {
    2 * r > y || (2 * r == y && q % 2 == 1)
  }

  lemma ModDone(full: bool, x: nat, y: nat, r: nat, q: nat) returns (v: int, n: nat)
    requires Modulus(full, x, y, r, q)
    ensures v == SignedRemainder(Mag(x), Mag(y)) && n == KeptQuotient(Mag(x), Mag(y))
    ensures v == if GoesUp(Mag(r), Mag(y), q) then Mag(r) - Mag(y) else Mag(r)
    ensures full ==> n == q + if GoesUp(Mag(r), Mag(y), q) then 1 else 0
  {
    v, n := SignedRemainder(Mag(x), Mag(y)), KeptQuotient(Mag(x), Mag(y));
  }

  /** The half of the source that turns the remainder into the one nearest zero. */
  method RoundRemainder(full: bool, y: nat, r: nat, q0: nat, ghost v: int, ghost n: nat) returns (z: Half, q: nat)
    requires r < y < INFINITY
    requires v == if GoesUp(Mag(r), Mag(y), q0) then Mag(r) - Mag(y) else Mag(r)
    requires full ==> n == q0 + if GoesUp(Mag(r), Mag(y), q0) then 1 else 0
    ensures Abs(z) < INFINITY && Value(z) == v && (Abs(z) == 0 ==> !Negative(z))
    ensures full ==> q == n
  {
    z, q := r, q0;
    assert Abs(z) == r;
    var up := DoubledAbove(r, y, q);
    if up {
      z := ComplementBits(r, y);
      q := if full then q + 1 else q;
      CompareMag(0, Abs(z));
    }
  }

  /** Whether twice the remainder is above the divisor, or equal to it with an odd quotient. */
  method DoubledAbove(r: nat, y: nat, q: nat) returns (up: bool)
    requires r < y < INFINITY
    ensures up == GoesUp(Mag(r), Mag(y), q)
  {
    var a := if y < 0x800 then (if r < 0x400 then 2 * r else r + 0x400) else r;
    var b := if y < 0x800 then y else y - 0x400;
    CompareTwice(r, y, a, b);
    up := a > b || (a == b && q % 2 == 1);
  }

  /** `mod`: the remainder of x / y, which if `signed` is taken to the nearest multiple of y and then
      carries a sign of its own; q counts the quotient modulo 2^30 if `full`. */
  method Mod(full: bool, signed: bool, x: nat, y: nat) returns (z: Half, q: nat)
    requires x < INFINITY && 0 < y < INFINITY && x != y
    ensures Mag(y) > 0 && Abs(z) < INFINITY
    ensures !signed ==> !Negative(z) && Mag(Abs(z)) == Mag(x) % Mag(y)
    ensures signed ==> Value(z) == SignedRemainder(Mag(x), Mag(y)) && (Abs(z) == 0 ==> !Negative(z))
    ensures full && signed ==> q == KeptQuotient(Mag(x), Mag(y))
  {
    var r: nat;
    r, q := Remainder(full, x, y);
    if signed {
      ghost var v, n := ModDone(full, x, y, r, q);
      z, q := RoundRemainder(full, y, r, q, v, n);
    } else {
      z := r;
      assert Abs(z) == r;
    }
  }

  // ----- the functions built on it -----

  /** Flips the sign of z if x is negative: the sign of x XORed into the bits of z. */
  function WithSignOf(x: Half, z: Half): (r: Half)
    ensures Abs(r) == Abs(z) && Negative(r) == (Negative(x) != Negative(z))
    ensures Value(r) == if Negative(x) then 0 - Value(z) else Value(z)
  {
    if Negative(x) then Negate(z) else z
  }

  /** `fmod`: x - trunc(x / y) * y, with the sign of x. */
  method FMod(x: Half, y: Half) returns (z: Half)
    ensures IsNaN(x) || IsNaN(y) ==> IsNaN(z) && Propagates(x, y, z)
    ensures !IsNaN(x) && !IsNaN(y) && (Abs(x) == INFINITY || Abs(y) == 0) ==> z == 0x7FFF && IsNaN(z)
    ensures Finite(x) && Abs(y) == INFINITY ==> z == x
    ensures Finite(x) && Finite(y) && Abs(y) != 0 ==>
              Mag(Abs(y)) > 0 && Negative(z) == Negative(x) && Mag(Abs(z)) == Mag(Abs(x)) % Mag(Abs(y))
  {
    var absx, absy := Abs(x), Abs(y);
    if absx >= INFINITY || absy >= INFINITY {
      return if absx > INFINITY || absy > INFINITY then Signal(x, y) else if absx == INFINITY then INVALID else x;
    }
    if absy == 0 {
      return INVALID;
    }
    CompareMag(absy, 0);
    if absx == 0 {
      DivUnique(0, Mag(absy), 0, 0);
      return x;
    }
    if absx == absy {
      OnceModulus(Mag(absy));
      return SignBit(Negative(x));
    }
    var q: nat;
    z, q := Mod(false, false, absx, absy);
    z := WithSignOf(x, z);
  }

  lemma OnceModulus(y: nat)
    requires y > 0
    ensures y % y == 0 && SignedRemainder(y, y) == 0 && KeptQuotient(y, y) == 1
  {
    DivUnique(y, y, 1, 0);
  }

  /** z is x - n * y for the integer n nearest to x / y; a zero has the sign of x. */
  predicate IsRemainder(x: Half, y: Half, z: Half)
    requires Mag(Abs(y)) > 0
  {
    && Value(z) == (if Negative(x) then 0 - SignedRemainder(Mag(Abs(x)), Mag(Abs(y)))
                    else SignedRemainder(Mag(Abs(x)), Mag(Abs(y))))
    && (Abs(z) == 0 ==> Negative(z) == Negative(x))
  }

  lemma EqualRemainder(x: Half, y: Half)
    requires Abs(x) == Abs(y) && Mag(Abs(y)) > 0
    ensures IsRemainder(x, y, SignBit(Negative(x))) && KeptQuotient(Mag(Abs(x)), Mag(Abs(y))) == 1
  {
    var m, zero := Mag(Abs(y)), SignBit(Negative(x));
    OnceModulus(m);
    assert Abs(zero) == 0 && Negative(zero) == Negative(x);
    assert Mag(0) == 0 && Value(zero) == 0;
  }

  lemma SignedByDividend(x: Half, y: Half, r: Half)
    requires Mag(Abs(y)) > 0 && Value(r) == SignedRemainder(Mag(Abs(x)), Mag(Abs(y)))
    requires Abs(r) == 0 ==> !Negative(r)
    ensures IsRemainder(x, y, WithSignOf(x, r))
  {
  }

  /** `remainder`: x - n * y for the integer n nearest to x / y; a zero has the sign of x. */
  method IeeeRemainder(x: Half, y: Half) returns (z: Half)
    ensures IsNaN(x) || IsNaN(y) ==> IsNaN(z) && Propagates(x, y, z)
    ensures !IsNaN(x) && !IsNaN(y) && (Abs(x) == INFINITY || Abs(y) == 0) ==> z == 0x7FFF && IsNaN(z)
    ensures Finite(x) && Abs(y) == INFINITY ==> z == x
    ensures Finite(x) && Finite(y) && Abs(y) != 0 ==>
              && Mag(Abs(y)) > 0
              && IsRemainder(x, y, z)
  {
    var absx, absy := Abs(x), Abs(y);
    if absx >= INFINITY || absy >= INFINITY {
      return if absx > INFINITY || absy > INFINITY then Signal(x, y) else if absx == INFINITY then INVALID else x;
    }
    if absy == 0 {
      return INVALID;
    }
    CompareMag(absy, 0);
    if absx == absy {
      EqualRemainder(x, y);
      return SignBit(Negative(x));
    }
    var q: nat;
    z, q := Mod(false, true, absx, absy);
    SignedByDividend(x, y, z);
    z := WithSignOf(x, z);
  }

  /** `remquo`: that remainder, and an integer that agrees with n modulo 2^30 in magnitude and has the
      sign of x / y.  Without a finite x and a nonzero y nothing is promised of it. */
  method RemQuo(x: Half, y: Half) returns (z: Half, quo: int)
    ensures IsNaN(x) || IsNaN(y) ==> IsNaN(z) && Propagates(x, y, z)
    ensures !IsNaN(x) && !IsNaN(y) && (Abs(x) == INFINITY || Abs(y) == 0) ==> z == 0x7FFF && IsNaN(z)
    ensures Finite(x) && Abs(y) == INFINITY ==> z == x && quo == 0
    ensures Finite(x) && Finite(y) && Abs(y) != 0 ==>
              && Mag(Abs(y)) > 0
              && IsRemainder(x, y, z)
              && Magnitude(quo) == Mag(Abs(x)) / Mag(Abs(y)) % 0x4000_0000
                                   + (if RoundsUp(Mag(Abs(x)), Mag(Abs(y))) then 1 else 0)
              && (NearestQuotient(Mag(Abs(x)), Mag(Abs(y))) < 0x4000_0000 ==>
                    Magnitude(quo) == NearestQuotient(Mag(Abs(x)), Mag(Abs(y))))
              && (Magnitude(quo) - NearestQuotient(Mag(Abs(x)), Mag(Abs(y)))) % 0x4000_0000 == 0
              && (quo > 0 ==> Negative(x) == Negative(y))
              && (quo < 0 ==> Negative(x) != Negative(y))
  {
    var absx, absy := Abs(x), Abs(y);
    quo := 0;
    if absx >= INFINITY || absy >= INFINITY {
      z := if absx > INFINITY || absy > INFINITY then Signal(x, y) else if absx == INFINITY then INVALID else x;
      return;
    }
    if absy == 0 {
      return INVALID, quo;
    }
    var q: int;
    z, q := FiniteRemQuo(x, y);
    quo := if Negative(x) != Negative(y) then -q else q;
  }

  method FiniteRemQuo(x: Half, y: Half) returns (z: Half, q: nat)
    requires Finite(x) && Finite(y) && Abs(y) != 0
    ensures Mag(Abs(y)) > 0 && IsRemainder(x, y, z)
    ensures q == KeptQuotient(Mag(Abs(x)), Mag(Abs(y)))
  {
    var absx, absy := Abs(x), Abs(y);
    CompareMag(absy, 0);
    q := 1;
    if absx == absy {
      EqualRemainder(x, y);
      z := SignBit(Negative(x));
    } else {
      z, q := Mod(true, true, absx, absy);
      SignedByDividend(x, y, z);
      z := WithSignOf(x, z);
    }
  }
}
