/** The binary16 format of IEEE 754-2008 section 3.4 and rounding as its section 4.3 defines it.

    A half is given by its 16 bits.  Every finite half is an integer multiple of 2^-24, so magnitudes
    are counted in that unit.  `Mag(0x7C00)`, the pattern of infinity, is 2^16: the value that follows
    the largest finite half when the exponent range is thought of as unbounded, as section 4.3.1 does. */
module HalfFormat {
  import opened Bits

  const INFINITY: nat := 0x7C00
  const LARGEST: nat := 0x7BFF

  type Half = x: nat | x < 0x10000

  datatype Mode = TowardZero | Nearest | Upward | Downward

  predicate Negative(x: Half) { x >= 0x8000 }

  function Abs(x: Half): (a: nat)
    ensures a < 0x8000
  {
    x % 0x8000
  }

  function SignBit(neg: bool): nat { if neg then 0x8000 else 0 }

  predicate Finite(x: Half) { Abs(x) < INFINITY }

  predicate IsNaN(x: Half) { Abs(x) > INFINITY }

  /** Magnitude of the pattern `a` in units of 2^-24. */
  function Mag(a: nat): nat {
    if a < 0x400 then a else (0x400 + a % 0x400) * Pow2(a / 0x400 - 1)
  }

  function Signed(neg: bool, m: nat): int { if neg then 0 - m else m }

  /** Signed value in units of 2^-24. */
  function Value(x: Half): int {
    Signed(Negative(x), Mag(Abs(x)))
  }

  /** A pattern with exponent field e + 1 and significand q, where the carry into the next binade is
      the plain successor of the pattern. */
  lemma MagField(e: nat, q: nat)
    requires 0x400 <= q <= 0x800
    ensures Mag(e * 0x400 + q) == q * Pow2(e)
  {
    MagFieldAt(e * 0x400 + q, e, q);
  }

  lemma MagFieldAt(a: nat, e: nat, q: nat)
    requires 0x400 <= q <= 0x800 && a == e * 0x400 + q
    ensures Mag(a) == q * Pow2(e)
  {
    FieldSplit(e, q);
    if q == 0x800 {
      MagNormal(a, e + 1, 0x400);
      Doubled(e);
    } else {
      MagNormal(a, e, q);
    }
  }

  lemma Doubled(e: nat)
    ensures 0x400 * Pow2(e + 1) == 0x800 * Pow2(e)
  {
  }

  lemma MagNormal(a: nat, e: nat, q: nat)
    requires 0x400 <= a && a / 0x400 == e + 1 && a % 0x400 == q - 0x400
    ensures Mag(a) == q * Pow2(e)
  {
  }

  lemma FieldSplit(e: nat, q: nat)
    requires 0x400 <= q <= 0x800
    ensures (e * 0x400 + q) / 0x400 == if q == 0x800 then e + 2 else e + 1
    ensures (e * 0x400 + q) % 0x400 == if q == 0x800 then 0 else q - 0x400
  {
  }

  lemma MagStep(a: nat)
    ensures Mag(a) < Mag(a + 1)
  {
    if a < 0x3FF {
    } else if a == 0x3FF {
      MagField(0, 0x400);
    } else {
      var e, q := a / 0x400 - 1, 0x400 + a % 0x400;
      MagField(e, q);
      MagField(e, q + 1);
      assert (q + 1) * Pow2(e) == q * Pow2(e) + Pow2(e);
    }
  }

  lemma {:induction false} MagMonotone(a: nat, b: nat)
    requires a < b
    ensures Mag(a) < Mag(b)
  {
    MagStep(b - 1);
    if a < b - 1 {
      MagMonotone(a, b - 1);
    }
  }

  /** An exact non-negative result in units of 2^-24: the rational n/d or the square root of n/d. */
  datatype Exact = Ratio(n: int, d: int) | Root(n: int, d: int) {
    predicate Valid() { d > 0 }

    function Lhs(): int { if Ratio? then 2 * n else 4 * n }

    function Rhs(p: nat): int { if Ratio? then p * d else p * p * d }

    /** The exact result is less than, equal to, greater than p/2. */
    predicate Below(p: nat) { Lhs() < Rhs(p) }

    predicate Meets(p: nat) { Lhs() == Rhs(p) }

    predicate Above(p: nat) { Lhs() > Rhs(p) }
  }

  lemma RhsMonotone(v: Exact, p: nat, q: nat)
    requires v.Valid() && p < q
    ensures v.Rhs(p) < v.Rhs(q)
  {
    ScaleLess(p, q, v.d);
    if v.Root? {
      assert p * p <= p * q < q * q by {
        assert p * (q - p) >= 0 && (q - p) * q > 0;
      }
      ScaleLess(p * p, q * q, v.d);
    }
  }

  // ----- the rounding directions of IEEE 754-2008 section 4.3, over all halves -----

  /** roundTiesToEven: no half is nearer, and one that is equally near has an odd significand.
      v is nearer to r than to h when it is on r's side of their midpoint. */
  ghost predicate IsNearest(v: Exact, r: nat) {
    && r <= INFINITY
    && (forall h :: 0 <= h < r ==>
          v.Above(Mag(h) + Mag(r)) || (v.Meets(Mag(h) + Mag(r)) && r % 2 == 0))
    && (forall h :: r < h <= INFINITY ==>
          v.Below(Mag(r) + Mag(h)) || (v.Meets(Mag(r) + Mag(h)) && r % 2 == 0))
  }

  /** The largest finite half that does not exceed v. */
  ghost predicate IsLargestNotAbove(v: Exact, r: nat) {
    && r <= LARGEST
    && !v.Below(2 * Mag(r))
    && (forall h :: r < h <= LARGEST ==> v.Below(2 * Mag(h)))
  }

  /** The least half, infinity included, that v does not exceed. */
  ghost predicate IsLeastNotBelow(v: Exact, r: nat) {
    && r <= INFINITY
    && (r < INFINITY ==> !v.Above(2 * Mag(r)))
    && (forall h :: 0 <= h < r ==> v.Above(2 * Mag(h)))
  }

  ghost predicate IsRounding(mode: Mode, neg: bool, v: Exact, r: nat) {
    match mode
    case Nearest => IsNearest(v, r)
    case TowardZero => IsLargestNotAbove(v, r)
    case Upward => if neg then IsLargestNotAbove(v, r) else IsLeastNotBelow(v, r)
    case Downward => if neg then IsLeastNotBelow(v, r) else IsLargestNotAbove(v, r)
  }

  // ----- the same, looking only at the neighbours of r -----

  predicate RoundsToNearest(v: Exact, r: nat) {
    && r <= INFINITY
    && (r == 0 || v.Above(Mag(r - 1) + Mag(r)) || (v.Meets(Mag(r - 1) + Mag(r)) && r % 2 == 0))
    && (r == INFINITY || v.Below(Mag(r) + Mag(r + 1)) || (v.Meets(Mag(r) + Mag(r + 1)) && r % 2 == 0))
  }

  predicate RoundsInward(v: Exact, r: nat) {
    r <= LARGEST && !v.Below(2 * Mag(r)) && (r == LARGEST || v.Below(2 * Mag(r + 1)))
  }

  predicate RoundsOutward(v: Exact, r: nat) {
    r <= INFINITY && (r == INFINITY || !v.Above(2 * Mag(r))) && (r == 0 || v.Above(2 * Mag(r - 1)))
  }

  predicate RoundsTo(mode: Mode, neg: bool, v: Exact, r: nat) {
    match mode
    case Nearest => RoundsToNearest(v, r)
    case TowardZero => RoundsInward(v, r)
    case Upward => if neg then RoundsInward(v, r) else RoundsOutward(v, r)
    case Downward => if neg then RoundsOutward(v, r) else RoundsInward(v, r)
  }

  /** `z` is the correctly rounded half of the exact result with magnitude v and the given sign. */
  predicate Delivers(mode: Mode, neg: bool, v: Exact, z: Half) {
    Negative(z) == neg && RoundsTo(mode, neg, v, Abs(z))
  }

  lemma BelowEarlier(v: Exact, p: nat, q: nat)
    requires v.Valid() && p <= q
    ensures v.Below(p) ==> v.Below(q)
    ensures v.Above(q) ==> v.Above(p)
    ensures p < q && !v.Below(q) ==> v.Above(p)
    ensures p < q && !v.Above(p) ==> v.Below(q)
  {
    if p < q {
      RhsMonotone(v, p, q);
    }
  }

  lemma MagOrder(a: nat, b: nat)
    requires a <= b
    ensures Mag(a) <= Mag(b)
  {
    if a < b {
      MagMonotone(a, b);
    }
  }

  lemma NearestIsLocal(v: Exact, r: nat)
    requires v.Valid()
    ensures RoundsToNearest(v, r) <==> IsNearest(v, r)
  {
    if RoundsToNearest(v, r) {
      forall h: nat | h < r
        ensures v.Above(Mag(h) + Mag(r)) || (v.Meets(Mag(h) + Mag(r)) && r % 2 == 0)
      {
        if h < r - 1 {
          MagMonotone(h, r - 1);
          BelowEarlier(v, Mag(h) + Mag(r), Mag(r - 1) + Mag(r));
        }
      }
      forall h: nat | r < h <= INFINITY
        ensures v.Below(Mag(r) + Mag(h)) || (v.Meets(Mag(r) + Mag(h)) && r % 2 == 0)
      {
        if r + 1 < h {
          MagMonotone(r + 1, h);
          BelowEarlier(v, Mag(r) + Mag(r + 1), Mag(r) + Mag(h));
        }
      }
    }
  }

  lemma DirectedIsLocal(v: Exact, r: nat)
    requires v.Valid()
    ensures RoundsInward(v, r) <==> IsLargestNotAbove(v, r)
    ensures RoundsOutward(v, r) <==> IsLeastNotBelow(v, r)
  {
    forall h: nat
      ensures r < h && v.Below(2 * Mag(r + 1)) ==> v.Below(2 * Mag(h))
      ensures h < r && v.Above(2 * Mag(r - 1)) ==> v.Above(2 * Mag(h))
    {
      if r < h {
        MagOrder(r + 1, h);
        BelowEarlier(v, 2 * Mag(r + 1), 2 * Mag(h));
      } else if h < r {
        MagOrder(h, r - 1);
        BelowEarlier(v, 2 * Mag(h), 2 * Mag(r - 1));
      }
    }
  }

  /** Comparing a half with its neighbours decides whether it is the correct rounding among all. */
  lemma RoundingIsLocal(mode: Mode, neg: bool, v: Exact, r: nat)
    requires v.Valid()
    ensures RoundsTo(mode, neg, v, r) <==> IsRounding(mode, neg, v, r)
  {
    NearestIsLocal(v, r);
    DirectedIsLocal(v, r);
  }

  /** The rounding directions determine the result: there is at most one. */
  lemma RoundingIsUnique(mode: Mode, neg: bool, v: Exact, r: nat, r': nat)
    requires v.Valid()
    requires RoundsTo(mode, neg, v, r) && RoundsTo(mode, neg, v, r')
    ensures r == r'
  {
    if r < r' {
      RoundingsCollide(mode, neg, v, r, r');
    } else if r' < r {
      RoundingsCollide(mode, neg, v, r', r);
    }
  }

  /** Of two roundings the smaller would have to be the greater. */
  lemma RoundingsCollide(mode: Mode, neg: bool, v: Exact, low: nat, high: nat)
    requires v.Valid() && low < high
    ensures !(RoundsTo(mode, neg, v, low) && RoundsTo(mode, neg, v, high))
  {
    if mode == Nearest {
      NearestCollide(v, low, high);
    } else {
      DirectedCollide(v, low, high);
    }
  }

  lemma NearestCollide(v: Exact, low: nat, high: nat)
    requires v.Valid() && low < high
    ensures !(RoundsToNearest(v, low) && RoundsToNearest(v, high))
  {
    if low + 1 < high {
      MagMonotone(low + 1, high);
      MagMonotone(low, high - 1);
      BelowEarlier(v, Mag(low) + Mag(low + 1), Mag(high - 1) + Mag(high));
    }
  }

  lemma DirectedCollide(v: Exact, low: nat, high: nat)
    requires v.Valid() && low < high
    ensures !(RoundsInward(v, low) && RoundsInward(v, high))
    ensures !(RoundsOutward(v, low) && RoundsOutward(v, high))
  {
    MagOrder(low + 1, high);
    MagOrder(low, high - 1);
    BelowEarlier(v, 2 * Mag(low + 1), 2 * Mag(high));
    BelowEarlier(v, 2 * Mag(low), 2 * Mag(high - 1));
  }

  /** Two halves delivered for one exact result are the same half. */
  lemma DeliveryIsUnique(mode: Mode, neg: bool, v: Exact, z: Half, z': Half)
    requires v.Valid() && Delivers(mode, neg, v, z) && Delivers(mode, neg, v, z')
    ensures z == z'
  {
    RoundingIsUnique(mode, neg, v, Abs(z), Abs(z'));
    SameBits(z, z');
  }

  lemma SameBits(z: Half, z': Half)
    requires Abs(z) == Abs(z') && Negative(z) == Negative(z')
    ensures z == z'
  {
    assert z == (if Negative(z) then 0x8000 else 0) + Abs(z);
    assert z' == (if Negative(z') then 0x8000 else 0) + Abs(z');
  }

  /** Equal rationals written with different denominators round alike. */
  lemma RatioScales(mode: Mode, neg: bool, n: int, d: int, c: int, r: nat)
    requires d > 0 && c > 0
    ensures RoundsTo(mode, neg, Ratio(n, d), r) <==> RoundsTo(mode, neg, Ratio(n * c, d * c), r)
  {
    var v, w := Ratio(n, d), Ratio(n * c, d * c);
    forall p: nat
      ensures v.Below(p) <==> w.Below(p)
      ensures v.Meets(p) <==> w.Meets(p)
      ensures v.Above(p) <==> w.Above(p)
    {
      SameSide(n, d, c, p);
    }
  }

  lemma SameSide(n: int, d: int, c: int, p: nat)
    requires c > 0
    ensures Ratio(n, d).Below(p) <==> Ratio(n * c, d * c).Below(p)
    ensures Ratio(n, d).Meets(p) <==> Ratio(n * c, d * c).Meets(p)
    ensures Ratio(n, d).Above(p) <==> Ratio(n * c, d * c).Above(p)
  {
    ScaleLess(2 * n, p * d, c);
    ScaleLess(p * d, 2 * n, c);
    Regroup(2, n, c);
    Regroup(p, d, c);
  }
}
