/** `rounded`, `overflow`, `underflow` and `fixed2half` of half.hpp, and what their guard and sticky
    bits have to mean for the result to be the correctly rounded one. */
module HalfRounding {
  import opened Bits
  import opened HalfFormat

  // ----- half.hpp:784-839, error handling off -----

  function Overflow(mode: Mode, neg: bool): Half {
    match mode
    case Upward => if neg then 0xFBFF else 0x7C00
    case Downward => if neg then 0xFC00 else 0x7BFF
    case TowardZero => SignBit(neg) + 0x7BFF
    case Nearest => SignBit(neg) + 0x7C00
  }

  function Underflow(mode: Mode, neg: bool): Half {
    match mode
    case Upward => if neg then 0x8000 else 1
    case Downward => if neg then 0x8001 else 0
    case TowardZero => SignBit(neg)
    case Nearest => SignBit(neg)
  }

  function Bit(b: bool): (i: nat)
    ensures i < 2
  {
    if b then 1 else 0
  }

  /** `value` carries the sign bit; g is the guard bit and s the sticky bit. */
  function Rounded(mode: Mode, value: Half, g: bool, s: bool): nat {
    match mode
    case Nearest => value + Bit(g && (s || value % 2 == 1))
    case Upward => value + Bit(!Negative(value) && (g || s))
    case Downward => value + Bit(Negative(value) && (g || s))
    case TowardZero => value
  }

  // ----- when these deliver the correctly rounded result -----

  /** The exact result lies in the interval [Mag(a), Mag(a + 1)), g tells on which side of the
      midpoint, and s whether anything is left beyond the point that g decides. */
  ghost predicate Brackets(v: Exact, a: nat, g: bool, s: bool) {
    && a <= LARGEST
    && !v.Below(2 * Mag(a))
    && v.Below(2 * Mag(a + 1))
    && (g <==> !v.Below(Mag(a) + Mag(a + 1)))
    && (!s <==> v.Meets(if g then Mag(a) + Mag(a + 1) else 2 * Mag(a)))
  }

  lemma BracketInward(v: Exact, a: nat)
    requires a <= LARGEST && !v.Below(2 * Mag(a)) && v.Below(2 * Mag(a + 1))
    ensures RoundsInward(v, a)
  {
  }

  lemma BracketOutward(v: Exact, a: nat, g: bool, s: bool)
    requires v.Valid() && Brackets(v, a, g, s)
    ensures RoundsOutward(v, a + Bit(g || s))
  {
    MagStep(a);
    BelowEarlier(v, 2 * Mag(a), Mag(a) + Mag(a + 1));
    if !(g || s) && a > 0 {
      MagStep(a - 1);
      BelowEarlier(v, 2 * Mag(a - 1), 2 * Mag(a));
    }
  }

  lemma BracketNearest(v: Exact, a: nat, g: bool, s: bool)
    requires v.Valid() && Brackets(v, a, g, s)
    ensures RoundsToNearest(v, a + Bit(g && (s || a % 2 == 1)))
  {
    if g && (s || a % 2 == 1) {
      NearestAbove(v, a);
    } else {
      NearestBelow(v, a);
    }
  }

  lemma NearestAbove(v: Exact, a: nat)
    requires v.Valid() && a <= LARGEST && v.Below(2 * Mag(a + 1))
    requires v.Above(Mag(a) + Mag(a + 1)) || (v.Meets(Mag(a) + Mag(a + 1)) && a % 2 == 1)
    ensures RoundsToNearest(v, a + 1)
  {
    MagStep(a + 1);
    BelowEarlier(v, 2 * Mag(a + 1), Mag(a + 1) + Mag(a + 2));
  }

  lemma NearestBelow(v: Exact, a: nat)
    requires v.Valid() && a <= LARGEST && !v.Below(2 * Mag(a))
    requires v.Below(Mag(a) + Mag(a + 1)) || (v.Meets(Mag(a) + Mag(a + 1)) && a % 2 == 0)
    ensures RoundsToNearest(v, a)
  {
    if a > 0 {
      MagStep(a - 1);
      BelowEarlier(v, Mag(a - 1) + Mag(a), 2 * Mag(a));
    }
  }

  predicate RoundsAway(mode: Mode, neg: bool, odd: bool, g: bool, s: bool) {
    match mode
    case Nearest => g && (s || odd)
    case Upward => !neg && (g || s)
    case Downward => neg && (g || s)
    case TowardZero => false
  }

  lemma RoundedBits(mode: Mode, neg: bool, a: nat, g: bool, s: bool)
    requires a <= LARGEST
    ensures Rounded(mode, SignBit(neg) + a, g, s)
            == SignBit(neg) + a + Bit(RoundsAway(mode, neg, a % 2 == 1, g, s)) < 0x10000
    ensures Negative(Rounded(mode, SignBit(neg) + a, g, s)) == neg
    ensures Abs(Rounded(mode, SignBit(neg) + a, g, s)) == a + Bit(RoundsAway(mode, neg, a % 2 == 1, g, s))
  {
    assert (SignBit(neg) + a) % 2 == a % 2;
  }

  lemma RoundedDelivers(mode: Mode, neg: bool, v: Exact, a: nat, g: bool, s: bool)
    requires v.Valid() && Brackets(v, a, g, s)
    ensures Rounded(mode, SignBit(neg) + a, g, s) < 0x10000
    ensures Delivers(mode, neg, v, Rounded(mode, SignBit(neg) + a, g, s))
  {
    RoundedBits(mode, neg, a, g, s);
    match mode
    case Nearest => BracketNearest(v, a, g, s);
    case TowardZero => BracketInward(v, a);
    case Upward => if neg { BracketInward(v, a); } else { BracketOutward(v, a, g, s); }
    case Downward => if neg { BracketOutward(v, a, g, s); } else { BracketInward(v, a); }
  }

  lemma OverflowDelivers(mode: Mode, neg: bool, v: Exact)
    requires v.Valid() && !v.Below(2 * Mag(INFINITY))
    ensures Delivers(mode, neg, v, Overflow(mode, neg))
  {
    HugeRounds(v);
    var z: Half := Overflow(mode, neg);
    OverflowBits(mode, neg);
    match mode
    case Nearest => assert RoundsTo(mode, neg, v, INFINITY);
    case TowardZero => assert RoundsTo(mode, neg, v, LARGEST);
    case Upward => assert RoundsTo(mode, neg, v, if neg then LARGEST else INFINITY);
    case Downward => assert RoundsTo(mode, neg, v, if neg then INFINITY else LARGEST);
  }

  lemma OverflowBits(mode: Mode, neg: bool)
    ensures Negative(Overflow(mode, neg)) == neg
    ensures Abs(Overflow(mode, neg)) ==
            if mode == TowardZero || mode == (if neg then Upward else Downward) then LARGEST else INFINITY
  {
  }

  lemma HugeRounds(v: Exact)
    requires v.Valid() && !v.Below(2 * Mag(INFINITY))
    ensures RoundsToNearest(v, INFINITY) && RoundsInward(v, LARGEST) && RoundsOutward(v, INFINITY)
  {
    MagStep(LARGEST);
    BelowEarlier(v, 2 * Mag(LARGEST), 2 * Mag(INFINITY));
    BelowEarlier(v, Mag(LARGEST) + Mag(INFINITY), 2 * Mag(INFINITY));
  }

  lemma UnderflowDelivers(mode: Mode, neg: bool, v: Exact)
    requires v.Valid() && v.Above(0) && v.Below(1)
    ensures Delivers(mode, neg, v, Underflow(mode, neg))
  {
    TinyRounds(v);
    var z: Half := Underflow(mode, neg);
    assert Negative(z) == neg && Abs(z) == Underflow(mode, neg) - SignBit(neg);
  }

  lemma TinyRounds(v: Exact)
    requires v.Valid() && v.Above(0) && v.Below(1)
    ensures RoundsToNearest(v, 0) && RoundsInward(v, 0) && RoundsOutward(v, 1)
  {
    assert Mag(0) == 0 && Mag(1) == 1;
    BelowEarlier(v, 1, 2);
  }

  // ----- integers that stand for an exact value -----

  /** m is n/d rounded down and s tells whether anything was cut off. */
  predicate Truncated(m: nat, s: bool, n: int, d: int) {
    m * d <= n < (m + 1) * d && (s <==> m * d != n)
  }

  /** m is n/d, or both lie strictly between the same two multiples of four: what is left of an
      operand after bits that were shifted out have been ORed into the lowest one. */
  predicate Celled(m: nat, n: int, d: int) {
    m * d == n || (m % 4 != 0 && (m - m % 4) * d < n < (m - m % 4 + 4) * d)
  }

  predicate Represents(m: nat, s: bool, n: int, d: int, grain: int) {
    Truncated(m, s, n, d) || (grain % 4 == 0 && !s && Celled(m, n, d))
  }

  /** Comparing with a multiple of the grain gives the same answer for m and for n/d. */
  lemma ComparesAlike(m: nat, s: bool, n: int, d: int, grain: int, k: nat)
    requires d > 0 && Represents(m, s, n, d, grain * k)
    ensures grain * k * d < n <==> grain * k < m || (grain * k == m && s)
    ensures grain * k * d == n <==> grain * k == m && !s
  {
    var c := grain * k;
    if Truncated(m, s, n, d) {
      ScaleLess(c, m, d);
      ScaleLess(c, m + 1, d);
      ScaleLess(m + 1, c, d);
    } else {
      ScaleLess(c, m, d);
      ScaleLess(m, c, d);
      if c <= m - m % 4 {
        ScaleLess(c, m - m % 4, d);
      } else {
        assert c >= m - m % 4 + 4;
        ScaleLess(m - m % 4 + 4, c, d);
      }
    }
  }

  lemma RepresentsGrain(m: nat, s: bool, n: int, d: int, grain: int, k: nat)
    requires Represents(m, s, n, d, grain)
    ensures Represents(m, s, n, d, grain * k)
  {
    assert grain % 4 == 0 ==> (grain * k) % 4 == 0 by {
      if grain % 4 == 0 {
        var t := grain / 4;
        assert grain * k == 4 * (t * k);
      }
    }
  }

  lemma Position(n: int, d: int, u: nat, half: nat, c: nat)
    requires half > 0
    ensures Ratio(n, d).Below(c * u) <==> n * (2 * half) < half * c * (d * u)
    ensures Ratio(n, d).Meets(c * u) <==> n * (2 * half) == half * c * (d * u)
  {
    calc {
      half * c * (d * u);
      { Regroup(half, c, d * u); }
      half * (c * (d * u));
      { assert c * (d * u) == c * u * d; }
      half * (c * u * d);
    }
    assert n * (2 * half) == half * (2 * n);
    ScaleLess(2 * n, c * u * d, half);
  }

  lemma PlacesAt(u: nat, half: nat, m: nat, s: bool, n: int, d: int, c: nat)
    requires u > 0 && half > 0 && d > 0
    requires Represents(m, s, n * (2 * half), d * u, half)
    ensures Ratio(n, d).Below(c * u) <==> m < half * c
    ensures Ratio(n, d).Meets(c * u) <==> half * c == m && !s
  {
    assert d * u > 0;
    RepresentsGrain(m, s, n * (2 * half), d * u, half, c);
    ComparesAlike(m, s, n * (2 * half), d * u, half, c);
    Position(n, d, u, half, c);
  }

  /** If n/d = (m + what s stands for) * u / (2 * half), then the quotient, the guard bit and the
      sticky bit of m on division by 2 * half place n/d between two neighbouring halves. */
  lemma PlacesExact(a: nat, u: nat, half: nat, m: nat, s: bool, n: int, d: int)
    requires a <= LARGEST && u > 0 && half > 0 && d > 0
    requires Represents(m, s, n * (2 * half), d * u, half)
    requires Mag(a) == Quo(m, 2 * half) * u && Mag(a + 1) == (Quo(m, 2 * half) + 1) * u
    ensures Brackets(Ratio(n, d), a, Quo(m, half) % 2 == 1, s || m % half != 0)
  {
    var q := Quo(m, 2 * half);
    QuotientParts(m, half);
    EvenMultiples(q, u);
    PlacesAt(u, half, m, s, n, d, 2 * q);
    PlacesAt(u, half, m, s, n, d, 2 * q + 1);
    PlacesAt(u, half, m, s, n, d, 2 * q + 2);
  }

  lemma EvenMultiples(q: nat, u: nat)
    ensures 2 * q * u == 2 * (q * u)
    ensures (2 * q + 1) * u == q * u + (q + 1) * u
    ensures (2 * q + 2) * u == 2 * ((q + 1) * u)
  {
  }

  lemma QuotientParts(m: nat, half: nat)
    requires half > 0
    ensures Quo(m, half) == 2 * (Quo(m, 2 * half)) + Quo(m, half) % 2
    ensures m % half == 0 <==> half * (2 * (Quo(m, 2 * half)) + Quo(m, half) % 2) == m
    ensures half * (2 * (Quo(m, 2 * half))) <= m
    ensures m < half * (2 * (Quo(m, 2 * half)) + 2)
    ensures Quo(m, half) % 2 == 1 <==> half * (2 * (Quo(m, 2 * half)) + 1) <= m
  {
    var c, r := Quo(m, half), m % half;
    assert m == half * c + r;
    var q, g := c / 2, c % 2;
    assert c == 2 * q + g;
    assert half * c == half * (2 * q) + half * g;
    assert half * (2 * q + 1) == half * (2 * q) + half;
    assert half * (2 * q + 2) == half * (2 * q) + 2 * half;
    assert half * (2 * q) == 2 * half * q;
    assert half * g == if g == 1 then half else 0;
    DivUnique(m, 2 * half, q, half * g + r);
  }

  // ----- half.hpp:884-897, without the negation (S) and normalisation (N) options -----

  function Discard(mode: Mode, base: nat, m: nat, half: nat, s: bool): nat
    requires half > 0 && base + Quo(m, 2 * half) < 0x10000
  {
    Rounded(mode, base + Quo(m, 2 * half), Quo(m, half) % 2 == 1, s || m % half != 0)
  }

  function Fixed2Half(mode: Mode, f: nat, m: nat, exp: int, neg: bool, s: bool): nat
    requires f >= 11 && exp <= 29 && m < 2 * Pow2(f)
  {
    if exp < 0 then
      FieldBound(f, -exp, m);
      Discard(mode, SignBit(neg), m, Pow2(f - 11 - exp), s)
    else
      FieldBound(f, 0, m);
      Discard(mode, SignBit(neg) + exp * 0x400, m, Pow2(f - 11), s)
  }

  lemma FieldBound(f: nat, e: nat, m: nat)
    requires f >= 11 && m < 2 * Pow2(f)
    ensures Quo(m, 2 * Pow2(f - 11 + e)) < 0x800
  {
    assert Pow2(11) == 0x800;
    Pow2Sum(f - 11, 11);
    Pow2Grows(f - 11, f - 11 + e);
    var half := Pow2(f - 11 + e);
    assert m < 0x800 * (2 * half);
    DivBound(m, 2 * half, 0x800);
  }

  lemma RepresentsScaled(m: nat, s: bool, n: int, d: int, grain: int, c: nat)
    requires c > 0
    ensures Represents(m, s, n * c, d * c, grain) <==> Represents(m, s, n, d, grain)
  {
    forall k: nat
      ensures k * (d * c) == k * d * c
      ensures k * d < n <==> k * d * c < n * c
      ensures k * d > n <==> k * d * c > n * c
    {
      Regroup(k, d, c);
      ScaleLess(k * d, n, c);
      ScaleLess(n, k * d, c);
    }
  }

  lemma FieldStart(f: nat, m: nat)
    requires f >= 11 && Pow2(f) <= m
    ensures Quo(m, 2 * Pow2(f - 11)) >= 0x400
  {
    var d := 2 * Pow2(f - 11);
    assert Pow2(10) == 0x400;
    Pow2Sum(f - 10, 10);
    assert Pow2(f) == 0x400 * d;
    DivBound(m, d, 0x400);
  }

  lemma FieldSubnormal(f: nat, e: nat, m: nat)
    requires f >= 11 && 1 <= e && m < 2 * Pow2(f)
    ensures Quo(m, 2 * Pow2(f - 11 + e)) < 0x400
  {
    assert Pow2(11) == 0x800;
    Pow2Sum(f - 11, 11);
    Pow2Grows(f - 11, f - 11 + e);
    var d := 2 * Pow2(f - 11 + e);
    assert 2 * Pow2(f) <= 0x400 * d;
    DivBound(m, d, 0x400);
  }

  lemma DiscardDelivers(mode: Mode, neg: bool, field: nat, q: nat, m: nat, half: nat, s: bool, u: nat, n: int, d: int)
    requires u > 0 && half > 0 && d > 0
    requires q == Quo(m, 2 * half) && field + q <= LARGEST
    requires Represents(m, s, n * (2 * half), d * u, half)
    requires Mag(field + q) == q * u && Mag(field + q + 1) == (q + 1) * u
    ensures Discard(mode, SignBit(neg) + field, m, half, s) < 0x10000
    ensures Delivers(mode, neg, Ratio(n, d), Discard(mode, SignBit(neg) + field, m, half, s))
  {
    var g, t := Quo(m, half) % 2 == 1, s || m % half != 0;
    var z := Discard(mode, SignBit(neg) + field, m, half, s);
    assert z == Rounded(mode, SignBit(neg) + (field + q), g, t);
    assert Brackets(Ratio(n, d), field + q, g, t) by {
      PlacesExact(field + q, u, half, m, s, n, d);
    }
    RoundedDelivers(mode, neg, Ratio(n, d), field + q, g, t);
  }

  /** `fixed2half` rounds correctly whatever its mantissa, sticky bit and exponent represent. */
  lemma Fixed2HalfDelivers(mode: Mode, f: nat, m: nat, exp: int, neg: bool, s: bool, n: int, d: int)
    requires f >= 11 && -11 <= exp <= 29 && d > 0
    requires Pow2(f) <= m < 2 * Pow2(f)
    requires Represents(m, s, n * Pow2(f + 1), d * Pow2(exp + 11), if f >= 13 then 4 else 1)
    ensures Fixed2Half(mode, f, m, exp, neg, s) < 0x10000
    ensures Delivers(mode, neg, Ratio(n, d), Fixed2Half(mode, f, m, exp, neg, s))
  {
    var field, q, half, u := Fixed2HalfParts(mode, f, m, exp, neg, s, n, d);
    DiscardDelivers(mode, neg, field, q, m, half, s, u, n, d);
  }

  /** The fields that `fixed2half` puts together: q significand units of size u above `field`, cut
      out of m by a division by 2 * half. */
  lemma Fixed2HalfParts(mode: Mode, f: nat, m: nat, exp: int, neg: bool, s: bool, n: int, d: int)
      returns (field: nat, q: nat, half: nat, u: nat)
    requires f >= 11 && -11 <= exp <= 29 && d > 0
    requires Pow2(f) <= m < 2 * Pow2(f)
    requires Represents(m, s, n * Pow2(f + 1), d * Pow2(exp + 11), if f >= 13 then 4 else 1)
    ensures half > 0 && u > 0 && q == Quo(m, 2 * half) && field + q <= LARGEST
    ensures Represents(m, s, n * (2 * half), d * u, half)
    ensures Mag(field + q) == q * u && Mag(field + q + 1) == (q + 1) * u
    ensures Fixed2Half(mode, f, m, exp, neg, s) == Discard(mode, SignBit(neg) + field, m, half, s)
  {
    half := Pow2(f - 11 + if exp < 0 then -exp else 0);
    u := if exp < 0 then 1 else Pow2(exp);
    Fixed2HalfScale(f, m, exp, s, n, d, half, u);
    if exp < 0 {
      field := 0;
      q := SubnormalParts(f, -exp, m, half);
    } else {
      field := exp * 0x400;
      q := NormalParts(f, exp, m, half);
    }
    IsDiscard(mode, f, m, exp, neg, s, half, field);
  }

  lemma IsDiscard(mode: Mode, f: nat, m: nat, exp: int, neg: bool, s: bool, half: nat, field: nat)
    requires f >= 11 && exp <= 29 && m < 2 * Pow2(f)
    requires half == Pow2(f - 11 + if exp < 0 then -exp else 0) && field == if exp < 0 then 0 else exp * 0x400
    requires half > 0 && SignBit(neg) + field + Quo(m, 2 * half) < 0x10000
    ensures Fixed2Half(mode, f, m, exp, neg, s) == Discard(mode, SignBit(neg) + field, m, half, s)
  {
  }

  lemma SubnormalParts(f: nat, e: nat, m: nat, half: nat) returns (q: nat)
    requires f >= 11 && e >= 1 && Pow2(f) <= m < 2 * Pow2(f) && half == Pow2(f - 11 + e)
    ensures q == Quo(m, 2 * half) && q <= LARGEST && Mag(0 + q) == q * 1 && Mag(0 + q + 1) == (q + 1) * 1
  {
    q := Quo(m, 2 * half);
    FieldSubnormal(f, e, m);
    MagField(0, 0x400);
    assert Pow2(0) == 1;
  }

  lemma NormalParts(f: nat, e: nat, m: nat, half: nat) returns (q: nat)
    requires f >= 11 && e <= 29 && Pow2(f) <= m < 2 * Pow2(f) && half == Pow2(f - 11)
    ensures q == Quo(m, 2 * half) && e * 0x400 + q <= LARGEST
    ensures Mag(e * 0x400 + q) == q * Pow2(e) && Mag(e * 0x400 + q + 1) == (q + 1) * Pow2(e)
  {
    q := Quo(m, 2 * half);
    FieldStart(f, m);
    FieldBound(f, 0, m);
    MagField(e, q);
    var a := e * 0x400 + q;
    NextField(a + 1, e, q + 1);
  }

  lemma NextField(a: nat, e: nat, q: nat)
    requires 0x400 <= q <= 0x800 && a == e * 0x400 + q
    ensures Mag(a) == q * Pow2(e)
  {
    MagField(e, q);
  }

  lemma Fixed2HalfScale(f: nat, m: nat, exp: int, s: bool, n: int, d: int, half: nat, u: nat)
    requires f >= 11 && -11 <= exp <= 29
    requires Represents(m, s, n * Pow2(f + 1), d * Pow2(exp + 11), if f >= 13 then 4 else 1)
    requires half == Pow2(f - 11 + if exp < 0 then -exp else 0)
    requires u == if exp < 0 then 1 else Pow2(exp)
    ensures Represents(m, s, n * (2 * half), d * u, half)
  {
    var c := Pow2(if exp < 0 then exp + 11 else 11);
    var grain := if f >= 13 then 4 else 1;
    CommonScale(f, exp, n, d, half, u, c);
    RepresentsScaled(m, s, n * (2 * half), d * u, grain, c);
    HalfGrain(f, if exp < 0 then -exp else 0);
    RepresentsGrain(m, s, n * (2 * half), d * u, grain, half / grain);
  }

  lemma HalfGrain(f: nat, e: nat)
    requires f >= 11
    ensures f >= 13 ==> Pow2(f - 11 + e) == 4 * (Pow2(f - 11 + e) / 4)
  {
    if f >= 13 {
      Pow2Sum(2, f - 13 + e);
    }
  }

  lemma CommonScale(f: nat, exp: int, n: int, d: int, half: nat, u: nat, c: nat)
    requires f >= 11 && -11 <= exp
    requires half == Pow2(f - 11 + if exp < 0 then -exp else 0)
    requires u == (if exp < 0 then 1 else Pow2(exp)) && c == Pow2(if exp < 0 then exp + 11 else 11)
    ensures n * Pow2(f + 1) == n * (2 * half) * c
    ensures d * Pow2(exp + 11) == d * u * c
  {
    if exp < 0 {
      Pow2Sum(f - 10 - exp, exp + 11);
    } else {
      Pow2Sum(f - 10, 11);
      Pow2Sum(exp, 11);
    }
    assert Pow2(f + 1) == 2 * half * c;
    assert Pow2(exp + 11) == u * c;
    Regroup(n, 2 * half, c);
    Regroup(d, u, c);
  }

  /** The end of `operator*`, `operator/` and `fma`: overflow, underflow or `fixed2half`. */
  function Pack(mode: Mode, f: nat, m: nat, exp: int, neg: bool, s: bool): nat
    requires f >= 11 && m < 2 * Pow2(f)
  {
    if exp > 29 then Overflow(mode, neg)
    else if exp < -11 then Underflow(mode, neg)
    else Fixed2Half(mode, f, m, exp, neg, s)
  }

  /** m and s stand for (n/d) * 2^(f - 10 - exp); k only keeps the powers of two integral. */
  lemma PackDelivers(mode: Mode, f: nat, m: nat, exp: int, neg: bool, s: bool, n: int, d: int, k: nat)
    requires f >= 11 && exp + 11 + k >= 0 && d > 0
    requires Pow2(f) <= m < 2 * Pow2(f)
    requires Represents(m, s, n * Pow2(f + 1 + k), d * Pow2(exp + 11 + k), if f >= 13 then 4 else 1)
    ensures Pack(mode, f, m, exp, neg, s) < 0x10000
    ensures Delivers(mode, neg, Ratio(n, d), Pack(mode, f, m, exp, neg, s))
  {
    if exp > 29 {
      TooLarge(f, m, exp, s, n, d, k);
      OverflowDelivers(mode, neg, Ratio(n, d));
    } else if exp < -11 {
      TooSmall(f, m, exp, s, n, d, k);
      UnderflowDelivers(mode, neg, Ratio(n, d));
    } else {
      var grain := if f >= 13 then 4 else 1;
      Pow2Sum(f + 1, k);
      Pow2Sum(exp + 11, k);
      Regroup(n, Pow2(f + 1), Pow2(k));
      Regroup(d, Pow2(exp + 11), Pow2(k));
      RepresentsScaled(m, s, n * Pow2(f + 1), d * Pow2(exp + 11), grain, Pow2(k));
      Fixed2HalfDelivers(mode, f, m, exp, neg, s, n, d);
    }
  }

  lemma RepresentedRange(a: nat, m: nat, s: bool, n: int, d: int, grain: nat)
    requires d > 0 && 4 * a <= m < 8 * a
    requires Represents(m, s, n, d, grain)
    ensures 4 * a * d <= n < 8 * a * d
  {
    if Truncated(m, s, n, d) {
      ScaleLess(4 * a, m, d);
      ScaleLess(m + 1, 8 * a, d);
    } else if m * d == n {
      ScaleLess(4 * a, m, d);
      ScaleLess(m, 8 * a, d);
    } else {
      CellWithin(a, m, m / 4, m % 4);
      ScaleLess(m - m % 4 + 4, 8 * a, d);
      ScaleLess(4 * a, m - m % 4, d);
    }
  }

  lemma CellWithin(a: nat, m: nat, q: nat, r: nat)
    requires 4 * a <= m < 8 * a && m == 4 * q + r && r < 4
    ensures 4 * a <= m - r && m - r + 4 <= 8 * a
  {
  }

  lemma TooLarge(f: nat, m: nat, exp: int, s: bool, n: int, d: int, k: nat)
    requires f >= 11 && exp > 29 && d > 0 && Pow2(f) <= m < 2 * Pow2(f)
    requires Represents(m, s, n * Pow2(f + 1 + k), d * Pow2(exp + 11 + k), if f >= 13 then 4 else 1)
    ensures !Ratio(n, d).Below(2 * Mag(INFINITY))
  {
    var a, c, p := Span(f, m, s, n, d, f + 1 + k, exp + 11 + k);
    var b, top := TopScale(f, k, exp + 11 + k);
    LargeCancels(n, d, a, b, c, p, top);
  }

  lemma TopScale(f: nat, k: nat, j: nat) returns (b: nat, top: nat)
    requires j >= 41 + k
    ensures b <= Pow2(j) && top == Mag(INFINITY) && Pow2(f) * b == Pow2(f + 1 + k) * top
  {
    b, top := Pow2(41 + k), Mag(INFINITY);
    Pow2Grows(41 + k, j);
    Pow2Sum(f + 1 + k, 40);
    Pow2Sum(f, 41 + k);
    InfinityMag();
  }

  /** The range that a significand of f + 1 bits puts the exact value in. */
  lemma Span(f: nat, m: nat, s: bool, n: int, d: int, i: nat, j: nat) returns (a: nat, c: nat, p: nat)
    requires f >= 11 && d > 0 && Pow2(f) <= m < 2 * Pow2(f)
    requires Represents(m, s, n * Pow2(i), d * Pow2(j), if f >= 13 then 4 else 1)
    ensures a == Pow2(f) && c == Pow2(j) && p == Pow2(i)
    ensures a * (d * c) <= n * p < 2 * a * (d * c)
  {
    a, c, p := Pow2(f), Pow2(j), Pow2(i);
    ScaleLess(0, d, c);
    Pow2Sum(2, f - 2);
    assert Pow2(2) == 4;
    RepresentedRange(Pow2(f - 2), m, s, n * p, d * c, if f >= 13 then 4 else 1);
  }

  lemma InfinityMag()
    ensures Mag(INFINITY) == Pow2(40)
  {
    Pow2Sum(10, 30);
    MagField(30, 0x400);
    Pow2Values();
  }

  lemma LargeCancels(n: int, d: nat, a: nat, b: nat, c: nat, p: nat, top: nat)
    requires a * (d * c) <= n * p && b <= c && a * b == p * top && p > 0
    ensures n >= top * d
    ensures !Ratio(n, d).Below(2 * top)
  {
    Grows(d, b, c);
    Grows(a, d * b, d * c);
    assert top * d * p == a * (d * b);
    ScaleLess(top * d, n, p);
    assert 2 * top * d == 2 * (top * d);
  }

  lemma TooSmall(f: nat, m: nat, exp: int, s: bool, n: int, d: int, k: nat)
    requires f >= 11 && exp < -11 && exp + 11 + k >= 0 && d > 0 && Pow2(f) <= m < 2 * Pow2(f)
    requires Represents(m, s, n * Pow2(f + 1 + k), d * Pow2(exp + 11 + k), if f >= 13 then 4 else 1)
    ensures Ratio(n, d).Above(0) && Ratio(n, d).Below(1)
  {
    var a, c, p := Span(f, m, s, n, d, f + 1 + k, exp + 11 + k);
    Pow2Grows(exp + 11 + k, k - 1);
    Pow2Sum(f + 1, k);
    assert Pow2(k) == 2 * Pow2(k - 1) && Pow2(f + 1) == 2 * Pow2(f);
    TriplePositive(a, d, c);
    SmallCancels(n, d, a, Pow2(k - 1), c, p);
  }

  lemma TriplePositive(a: int, d: int, c: int)
    requires a > 0 && d > 0 && c > 0
    ensures a * (d * c) > 0
  {
    ScaleLess(0, d, c);
    ScaleLess(0, a, d * c);
  }

  lemma SmallCancels(n: int, d: nat, a: nat, b: nat, c: nat, p: nat)
    requires 0 < a * (d * c) <= n * p < 2 * a * (d * c) && c <= b && p == 2 * a * (2 * b) && d > 0
    ensures 0 < 2 * n < d
  {
    Grows(d, c, b);
    Grows(a, d * c, d * b);
    assert d * p == 4 * (a * (d * b));
    assert 2 * a * (d * c) == 2 * (a * (d * c));
    ScaleLess(2 * n, d, p);
    ScaleLess(0, 2 * n, p);
  }
}
