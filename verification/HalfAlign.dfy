/** Alignment of addends: shifting right and ORing what falls out into the lowest bit. */
module HalfAlign {
  import opened Bits
  import opened HalfFormat
  import opened HalfRounding

  /** (m >> d) | ((m & ((1 << d) - 1)) != 0) */
  function ShiftJam(m: nat, d: nat): nat {
    var q := Quo(m, Pow2(d));
    if m % Pow2(d) != 0 && q % 2 == 0 then q + 1 else q
  }

  /** The smaller addend at the scale of the larger; beyond `limit` only a sticky bit is left. */
  function Align(m: nat, d: nat, limit: nat): nat {
    if d < limit then ShiftJam(m, d) else 1
  }

  /** t is n/d, or t is odd and n/d differs from it by less than one. */
  predicate Jammed(t: int, n: int, d: int) {
    t * d == n || (t % 2 == 1 && (t - 1) * d < n < (t + 1) * d)
  }

  lemma ShiftJams(m: nat, d: nat)
    ensures Jammed(ShiftJam(m, d), m, Pow2(d))
  {
    var p := Pow2(d);
    var q: int, r := Quo(m, p), m % p;
    assert m == p * q + r;
    assert q * p == p * q;
    assert (q + 1) * p == p * q + p && (q - 1) * p == p * q - p && (q + 2) * p == p * q + 2 * p;
  }

  lemma AlignJams(m: nat, d: nat, limit: nat)
    requires 0 < m < 2 * Pow2(limit)
    ensures Jammed(Align(m, d, limit), m, Pow2(d))
  {
    if d < limit {
      ShiftJams(m, d);
    } else {
      Pow2Grows(limit, d);
      assert (1 + 1) * Pow2(d) == 2 * Pow2(d);
      assert (1 - 1) * Pow2(d) == 0;
    }
  }

  lemma JammedSum(t: int, n: int, d: int, k: int)
    requires Jammed(t, n, d) && k % 2 == 0
    ensures Jammed(k + t, k * d + n, d)
    ensures Jammed(k - t, k * d - n, d)
  {
    assert (k + t) * d == k * d + t * d && (k - t) * d == k * d - t * d;
    assert (k + t - 1) * d == k * d + (t - 1) * d && (k + t + 1) * d == k * d + (t + 1) * d;
    assert (k - t - 1) * d == k * d - (t + 1) * d && (k - t + 1) * d == k * d - (t - 1) * d;
  }

  /** Jamming twice is jamming once. */
  lemma JammedHalf(t: nat, n: int, d: int)
    requires Jammed(t, n, d) && d > 0
    ensures Jammed(ShiftJam(t, 1), n, 2 * d)
  {
    assert Pow2(1) == 2;
    var q, r := t / 2, t % 2;
    assert t * d == 2 * (q * d) + r * d;
    assert (t - 1) * d == t * d - d && (t + 1) * d == t * d + d;
    assert q * (2 * d) == 2 * (q * d);
    assert (q + 1) * (2 * d) == 2 * (q * d) + 2 * d;
    assert (q - 1) * (2 * d) == 2 * (q * d) - 2 * d;
    assert (q + 2) * (2 * d) == 2 * (q * d) + 4 * d;
  }

  lemma JammedIsCelled(t: nat, n: int, d: int)
    requires Jammed(t, n, d) && d > 0
    ensures Celled(t, n, d)
  {
    if t * d != n {
      var r := t % 4;
      ScaleLess(t - r, t, d);
      Grows(d, t - r, t - 1);
      Grows(d, t + 1, t - r + 4);
    }
  }

  /** One doubling of a jammed value; after that the lowest two bits no longer tell enough. */
  lemma JammedDouble(t: nat, n: int, d: int)
    requires Jammed(t, n, 2 * d) && d > 0
    ensures Celled(2 * t, n, d)
    ensures t * (2 * d) == n ==> 2 * t * d == n
  {
    Regroup(t, 2, d);
    assert 2 * t * d == t * (2 * d);
    if t * (2 * d) != n {
      assert 2 * t % 4 == 2;
      Twice(t - 1, d);
      Twice(t + 1, d);
    }
  }

  lemma Twice(t: int, d: int)
    ensures 2 * t * d == t * (2 * d)
  {
  }

  lemma JammedScaled(t: int, n: int, d: int, c: int)
    requires c > 0
    ensures Jammed(t, n * c, d * c) <==> Jammed(t, n, d)
  {
    forall k: int
      ensures k * (d * c) == k * d * c
      ensures k * d < n <==> k * d * c < n * c
      ensures k * d > n <==> k * d * c > n * c
    {
      Regroup(k, d, c);
      ScaleLess(k * d, n, c);
      ScaleLess(n, k * d, c);
    }
  }

  /** A jammed value is zero exactly when the exact one is, and has its sign. */
  lemma JammedSign(t: int, n: int, d: int)
    requires Jammed(t, n, d) && d > 0 && n >= 0
    ensures t >= 0 && (t == 0 <==> n == 0)
  {
    if t * d != n {
      ScaleLess(0, t + 1, d);
    } else {
      ScaleLess(0, t, d);
      ScaleLess(t, 0, d);
    }
  }

  /** Nothing is lost when the bits shifted out are zero. */
  lemma EvenShift(m: nat, d: nat, limit: nat, q: nat)
    requires d <= 3 && d < limit && m == q * (if d == 0 then 1 else if d == 1 then 2 else if d == 2 then 4 else 8)
    ensures Align(m, d, limit) * Pow2(d) == m
  {
    assert Pow2(0) == 1 && Pow2(1) == 2 && Pow2(2) == 4 && Pow2(3) == 8;
    DivUnique(m, Pow2(d), q, 0);
  }
}
