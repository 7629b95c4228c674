/** `get_aligned_bytes`: the size of a request rounded up to the alignment, computed in `float`.

    A float has 24 significant bits.  The conversion of the byte count rounds to nearest, ties to even;
    the division by the alignment, `ceil` and the multiplication are exact, as the alignment is a power
    of two. */
module FloatAlign {
  import opened Bits

  const ALIGNMENT: nat := 0x20_0000

  /** Spacing of the floats in the binade of b. */
  function Ulp(b: nat): (u: nat)
    ensures u > 0
  {
    if b < 0x100_0000 then 1 else 2 * Ulp(b / 2)
  }

  /** The spacing in the binade from 2^k on. */
  lemma {:induction false} UlpIsSpacing(b: nat, k: nat)
    requires k >= 23 && Pow2(k) <= b < Pow2(k + 1)
    ensures Ulp(b) == Pow2(k - 23)
  {
    Pow2Values();
    if k == 23 {
      assert Pow2(k + 1) == 0x100_0000;
    } else {
      Pow2Grows(24, k);
      HalvedBinade(b, Pow2(k - 1), Pow2(k));
      UlpIsSpacing(b / 2, k - 1);
    }
  }

  lemma HalvedBinade(b: nat, p: nat, q: nat)
    requires 2 * p <= b < 2 * q
    ensures p <= b / 2 < q
  {
  }

  predicate RoundsDown(b: nat) {
    var u, r := Ulp(b), b % Ulp(b);
    2 * r < u || (2 * r == u && b / u % 2 == 0)
  }

  /** (float)b */
  function ToFloat(b: nat): nat {
    var u := Ulp(b);
    u * (if RoundsDown(b) then Quo(b, u) else Quo(b, u) + 1)
  }

  /** The conversion is a multiple of the spacing, no further away than half of it, and even when it is that far. */
  lemma ToFloatIsNearest(b: nat, k: nat)
    requires k >= 23 && Pow2(k) <= b < Pow2(k + 1)
    ensures ToFloat(b) % Pow2(k - 23) == 0
    ensures 2 * ToFloat(b) <= 2 * b + Pow2(k - 23) && 2 * b <= 2 * ToFloat(b) + Pow2(k - 23)
    ensures 2 * ToFloat(b) == 2 * b + Pow2(k - 23) || 2 * b == 2 * ToFloat(b) + Pow2(k - 23) ==>
              ToFloat(b) / Pow2(k - 23) % 2 == 0
  {
    var u, q, r, c := FloatParts(b, k);
    NearestMultiple(b, u, q, r, c);
  }

  lemma FloatParts(b: nat, k: nat) returns (u: nat, q: nat, r: nat, c: nat)
    requires k >= 23 && Pow2(k) <= b < Pow2(k + 1)
    ensures u == Pow2(k - 23) > 0 && b == u * q + r && r < u && ToFloat(b) == u * c
    ensures c == if 2 * r < u || (2 * r == u && q % 2 == 0) then q else q + 1
  {
    UlpIsSpacing(b, k);
    u := Ulp(b);
    q, r := Quo(b, u), b % u;
    c := if RoundsDown(b) then q else q + 1;
    assert b == u * q + r;
  }

  lemma NearestMultiple(b: nat, u: nat, q: nat, r: nat, c: nat)
    requires u > 0 && b == u * q + r && r < u && c == if 2 * r < u || (2 * r == u && q % 2 == 0) then q else q + 1
    ensures u * c % u == 0 && u * c / u == c
    ensures 2 * (u * c) <= 2 * b + u && 2 * b <= 2 * (u * c) + u
    ensures 2 * (u * c) == 2 * b + u || 2 * b == 2 * (u * c) + u ==> c % 2 == 0
  {
    ProductBound(0, u, 0, c);
    DivUnique(u * c, u, c, 0);
    assert u * (q + 1) == u * q + u;
  }

  function CeilDiv(x: nat, d: nat): nat
    requires d > 0
  {
    if x % d == 0 then Quo(x, d) else Quo(x, d) + 1
  }

  function AlignedBytes(bytes: nat): nat {
    ALIGNMENT * CeilDiv(ToFloat(bytes), ALIGNMENT)
  }

  // ----- when the result is large enough -----

  /** What a caller can check: how far the byte count is above a multiple of the alignment, or of the
      spacing where that is coarser, and whether the conversion rounds that little away. */
  predicate LosesBytes(bytes: nat) {
    var u := Ulp(bytes);
    var r := bytes % if u > ALIGNMENT then u else ALIGNMENT;
    0 < r && (2 * r < u || (2 * r == u && bytes / u % 2 == 0))
  }

  lemma {:induction false} UlpPower(b: nat) returns (j: nat)
    ensures Ulp(b) == Pow2(j)
    decreases b
  {
    if b < 0x100_0000 {
      j := 0;
    } else {
      j := UlpPower(b / 2);
      j := j + 1;
    }
  }

  /** Two powers of two: one is a multiple of the other. */
  lemma UlpAndAlignment(b: nat) returns (k: nat)
    ensures k > 0 && (ALIGNMENT == k * Ulp(b) || Ulp(b) == k * ALIGNMENT)
    ensures Ulp(b) <= ALIGNMENT ==> ALIGNMENT == k * Ulp(b)
    ensures Ulp(b) > ALIGNMENT ==> Ulp(b) == k * ALIGNMENT
  {
    var j := UlpPower(b);
    Pow2Values();
    if j <= 21 {
      Pow2Sum(21 - j, j);
      Pow2Grows(j, 21);
      k := Pow2(21 - j);
    } else {
      Pow2Sum(j - 21, 21);
      Pow2Grows(21, j);
      k := Pow2(j - 21);
    }
  }

  lemma MultipleMod(k: nat, d: nat)
    requires d > 0
    ensures k * d % d == 0 && k * d / d == k
  {
    DivUnique(k * d, d, k, 0);
  }

  /** Rounding up to a multiple of d. */
  lemma CeilBounds(x: nat, d: nat)
    requires d > 0
    ensures x <= d * CeilDiv(x, d) < x + d
    ensures d * CeilDiv(x, d) == x <==> x % d == 0
  {
    var q, r := Quo(x, d), x % d;
    assert x == d * q + r;
    assert d * (q + 1) == d * q + d;
  }

  /** The remainder by a multiple of u, when it is less than u, is the remainder by u. */
  lemma NestedMod(x: nat, u: nat, k: nat)
    requires u > 0 && k > 0
    ensures x % (k * u) % u == x % u
    ensures x % (k * u) <= x
  {
    Grows(u, 1, k);
    var d := k * u;
    NestedParts(x, u, k, d, x / d, x % d);
  }

  lemma NestedParts(x: nat, u: nat, k: nat, d: nat, q: nat, r: nat)
    requires u > 0 && d == k * u && x == d * q + r
    ensures r % u == x % u && r <= x
  {
    ProductBound(0, d, 0, q);
    ProductBound(0, k, 0, q);
    var q', r' := r / u, r % u;
    assert d * q == u * (k * q);
    NestedRemainder(x, u, k * q, q', r');
  }

  lemma NestedRemainder(x: nat, u: nat, a: int, q: int, r: nat)
    requires a >= 0 && q >= 0 && r < u && x == u * a + (u * q + r)
    ensures x % u == r
  {
    assert x == u * (a + q) + r;
    DivUnique(x, u, a + q, r);
  }

  lemma Division(b: nat, u: nat) returns (q: nat, r: nat)
    requires u > 0
    ensures q == b / u == Quo(b, u) && r == b % u && b == u * q + r && r < u
    ensures u * (q + 1) == u * q + u
  {
    q, r := Quo(b, u), b % u;
  }

  lemma FloatMultiple(b: nat) returns (c: nat)
    ensures ToFloat(b) == c * Ulp(b)
  {
    c := if RoundsDown(b) then Quo(b, Ulp(b)) else Quo(b, Ulp(b)) + 1;
  }

  /** The aligned size falls short of the request exactly when `LosesBytes` says so. */
  lemma AlignedBytesSuffice(bytes: nat)
    ensures AlignedBytes(bytes) >= bytes <==> !LosesBytes(bytes)
  {
    var k := UlpAndAlignment(bytes);
    if Ulp(bytes) <= ALIGNMENT {
      FineSpacing(bytes, Ulp(bytes), k);
    } else {
      CoarseSpacing(bytes, Ulp(bytes), k);
    }
  }

  lemma FineSpacing(b: nat, u: nat, k: nat)
    requires u == Ulp(b) && u <= ALIGNMENT && k > 0 && ALIGNMENT == k * u
    ensures AlignedBytes(b) >= b <==> !LosesBytes(b)
  {
    var q, r := Division(b, u);
    CeilBounds(ToFloat(b), ALIGNMENT);
    FloatBelow(b, u, k, q, r);
    NextMultiple(u, k, q);
    FineCases(b, u, q, r, u * q, AlignedBytes(b), b % ALIGNMENT, u * q % ALIGNMENT == 0);
  }

  /** low is the float below b, r how far, r' how far the alignment boundary below b is, a the result. */
  lemma FineCases(b: nat, u: nat, q: nat, r: nat, low: nat, a: nat, r': nat, aligned: bool)
    requires b == low + r && r < u && (aligned <==> r' == r) && (r' < u ==> r' == r)
    requires var down := 2 * r < u || (2 * r == u && q % 2 == 0);
             && (down ==> a >= low && (a == low <==> aligned) && (!aligned ==> a >= low + u))
             && (!down ==> a >= low + u)
    ensures a >= b <==> !(0 < r' && (2 * r' < u || (2 * r' == u && q % 2 == 0)))
  {
  }

  /** The ceiling of a multiple of u that is not aligned is at least the next multiple of u. */
  lemma NextMultiple(u: nat, k: nat, q: nat)
    requires u > 0 && ALIGNMENT == k * u
    ensures u * q % ALIGNMENT != 0 ==> ALIGNMENT * CeilDiv(u * q, ALIGNMENT) >= u * q + u
  {
    var c := CeilDiv(u * q, ALIGNMENT);
    CeilBounds(u * q, ALIGNMENT);
    assert ALIGNMENT * c == u * (k * c);
    if u * q % ALIGNMENT != 0 {
      ScaleLess(q, k * c, u);
      assert u * (k * c) >= u * (q + 1) by {
        Grows(u, q + 1, k * c);
      }
    }
  }

  /** The float below b is aligned when b is less than one spacing above a multiple of the alignment. */
  lemma FloatBelow(b: nat, u: nat, k: nat, q: nat, r: nat)
    requires u > 0 && k > 0 && ALIGNMENT == k * u && b == u * q + r && r < u
    ensures u * q % ALIGNMENT == 0 <==> b % ALIGNMENT == r
    ensures b % ALIGNMENT < u ==> b % ALIGNMENT == r
  {
    var q', r' := Division(b, ALIGNMENT);
    NestedMod(b, u, k);
    DivUnique(b, u, q, r);
    var t, s := Division(r', u);
    BoundaryBelow(b, u, q, r, q', r', t);
  }

  lemma BoundaryBelow(b: nat, u: nat, q: nat, r: nat, q': nat, r': nat, t: nat)
    requires u > 0 && b == u * q + r == ALIGNMENT * q' + r' && r' == u * t + r && r < u && r' < ALIGNMENT
    ensures u * q % ALIGNMENT == 0 <==> r' == r
    ensures r' < u ==> r' == r
  {
    DivUnique(u * q, ALIGNMENT, q', u * t);
    assert t > 0 ==> u * t >= u;
  }

  lemma CoarseSpacing(b: nat, u: nat, k: nat)
    requires u == Ulp(b) && u > ALIGNMENT && u == k * ALIGNMENT
    ensures AlignedBytes(b) >= b <==> !LosesBytes(b)
  {
    var q, r := Division(b, u);
    var c := FloatMultiple(b);
    Regroup(c, k, ALIGNMENT);
    MultipleMod(c * k, ALIGNMENT);
    CeilBounds(ToFloat(b), ALIGNMENT);
  }

  /** Up to 2^24 bytes nothing is lost, and only an empty request needs no memory. */
  lemma SmallRequests(bytes: nat)
    ensures bytes <= 0x100_0000 ==> AlignedBytes(bytes) >= bytes
    ensures AlignedBytes(bytes) == 0 <==> bytes == 0
  {
    var q, r := Division(bytes, Ulp(bytes));
    if bytes > 0 {
      PositiveFloat(bytes, q);
      CeilBounds(ToFloat(bytes), ALIGNMENT);
    }
  }

  lemma {:induction false} PositiveFloat(b: nat, q: nat)
    requires b > 0 && q == Quo(b, Ulp(b))
    ensures q >= 1 && ToFloat(b) > 0
  {
    UlpFits(b);
    DivBound(b, Ulp(b), 1);
    Grows(Ulp(b), 1, q);
    Grows(Ulp(b), 1, q + 1);
  }

  lemma {:induction false} UlpFits(b: nat)
    requires b > 0
    ensures Ulp(b) <= b
  {
    if b >= 0x100_0000 {
      UlpFits(b / 2);
    }
  }

  /** Up to 2^24 bytes the size is the least multiple of the alignment that is large enough. */
  lemma SmallAreExact(bytes: nat)
    requires bytes <= 0x100_0000
    ensures bytes <= AlignedBytes(bytes) < bytes + 0x20_0000 && AlignedBytes(bytes) % 0x20_0000 == 0
  {
    assert ToFloat(bytes) == bytes;
    var q, r := bytes / ALIGNMENT, bytes % ALIGNMENT;
    assert bytes == ALIGNMENT * q + r;
  }

  /** One byte more than 16 MiB gets 16 MiB. */
  lemma OneByteIsLost()
    ensures AlignedBytes(0x100_0001) == 0x100_0000
  {
  }
}
