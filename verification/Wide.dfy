/** The 64-bit products and quotients that half.hpp computes in 32-bit arithmetic when the compiler
    offers nothing wider: `mulhi`, `multiply64` and `divide64`. */
module Wide {
  import opened Bits

  const LIMB: nat := 0x1_0000

  type Word = x: nat | x < WORD

  /** The four partial products put together; the carry c holds the middle limb. */
  function Combine(hh: nat, hl: nat, lh: nat, ll: nat): nat {
    var c := hl % LIMB + lh % LIMB + ll / LIMB;
    hh + hl / LIMB + lh / LIMB + c / LIMB + c / 0x8000 % 2
  }

  /** `mulhi<round_to_nearest>` */
  function MulHi(x: Word, y: Word): nat {
    var xh, xl, yh, yl := x / LIMB, x % LIMB, y / LIMB, y % LIMB;
    LimbProduct(xh, yh);
    LimbProduct(xh, yl);
    LimbProduct(xl, yh);
    LimbProduct(xl, yl);
    Combine(xh * yh, xh * yl, xl * yh, xl * yl)
  }

  lemma LimbProduct(x: nat, y: nat)
    requires x < LIMB && y < LIMB
    ensures 0 <= x * y <= 0xFFFE_0001
  {
    ProductBound(x, 0xFFFF, y, 0xFFFF);
  }

  /** The limbs' products add up to the whole product. */
  lemma LimbSum(x: nat, y: nat, xh: nat, xl: nat, yh: nat, yl: nat)
    requires x == xh * LIMB + xl && y == yh * LIMB + yl
    ensures x * y == xh * yh * WORD + (xh * yl + xl * yh) * LIMB + xl * yl
  {
    assert x * y == xh * LIMB * (yh * LIMB) + xh * LIMB * yl + xl * (yh * LIMB) + xl * yl;
  }

  lemma CarrySum(hh: nat, hl: nat, lh: nat, ll: nat)
    ensures Combine(hh, hl, lh, ll) == (hh * WORD + (hl + lh) * LIMB + ll + 0x8000_0000) / WORD
  {
  }

  /** `multiply64` gives the upper word of the product, rounded to nearest, without 64-bit products. */
  lemma MulHiIsProduct(x: Word, y: Word)
    ensures MulHi(x, y) == (x * y + 0x8000_0000) / WORD
    ensures MulHi(x, y) < WORD
  {
    var xh, xl, yh, yl := x / LIMB, x % LIMB, y / LIMB, y % LIMB;
    LimbProduct(xh, yh);
    LimbProduct(xh, yl);
    LimbProduct(xl, yh);
    LimbProduct(xl, yl);
    LimbSum(x, y, xh, xl, yh, yl);
    CarrySum(xh * yh, xh * yl, xl * yh, xl * yl);
    ProductBound(x, 0xFFFF_FFFF, y, 0xFFFF_FFFF);
  }

  lemma DivideBit(x: nat, i: nat, div: nat, y: nat, rem: nat)
    requires x * Pow2(i) == div * y + rem && rem < y && y % 2 == 0
    ensures rem >= y / 2 ==> x * Pow2(i + 1) == (2 * div + 1) * y + 2 * (rem - y / 2)
    ensures x * Pow2(i + 1) == 2 * div * y + 2 * rem
  {
    Regroup(x, 2, Pow2(i));
    assert (2 * div + 1) * y == 2 * div * y + y;
  }

  /** The 64-bit branch of `divide64`: quotient and sticky bit. */
  function Quotient64(x: Word, y: Word): (nat, bool)
    requires y > 0
  {
    (x * WORD / y, x * WORD % y != 0)
  }

  /** What the 32-bit branch makes of it.  Its first step halves the divisor, so that an odd divisor counts as
      the even number below it; where the quotient by that number does not fit, all its bits are ones. */
  function Quotient32(x: Word, y: Word): (nat, bool)
    requires x < y
  {
    var even: nat := y - y % 2;
    if x < even then (Quo(x * WORD, even), x * WORD % even != 0) else (WORD - 1, y > 1)
  }

  /** The restoring division of `divide64`. */
  method Divide64(x: Word, y: Word) returns (div: nat, s: bool)
    requires x < y
    ensures (div, s) == Quotient32(x, y)
  {
    var half: nat := y / 2;
    assert 2 * half == y - y % 2;
    if x < 2 * half {
      div, s := RestoringDivision(x, half);
    } else {
      div, s := SaturatedDivision(half);
    }
  }

  method RestoringDivision(x: nat, half: nat) returns (div: nat, s: bool)
    requires x < 2 * half
    ensures div == x * WORD / (2 * half)
    ensures s <==> x * WORD % (2 * half) != 0
  {
    var rem: nat := x;
    div := 0;
    assert Pow2(0) == 1;
    for i := 0 to 32
      invariant x * Pow2(i) == div * (2 * half) + rem && rem < 2 * half
      invariant i > 0 ==> rem % 2 == 0
    {
      DivideBit(x, i, div, 2 * half, rem);
      div := 2 * div;
      if rem >= half {
        rem := rem - half;
        div := div + 1;
      }
      rem := 2 * rem;
    }
    s := rem > 1;
    WordPower();
    DivUnique(x * WORD, 2 * half, div, rem);
  }

  /** The same loop on a dividend that equals the doubled divisor: every bit is a one. */
  method SaturatedDivision(half: nat) returns (div: nat, s: bool)
    ensures div == WORD - 1 && s == (2 * half > 1)
  {
    var rem := 2 * half;
    div := 0;
    for i := 0 to 32
      invariant rem == 2 * half && div == Pow2(i) - 1
    {
      div := 2 * div;
      if rem >= half {
        rem := rem - half;
        div := div + 1;
      }
      rem := 2 * rem;
    }
    s := rem > 1;
    WordPower();
  }

  /** Dividing by y - 1 instead of y: with quotient q and remainder r by y, q * (y - 1) + (q + r) is left. */
  lemma DividedByLess(n: nat, y: nat)
    requires y > 1
    ensures n / (y - 1) == n / y <==> n / y + n % y < y - 1
    ensures n / y + n % y < y - 1 ==> n % (y - 1) == n / y + n % y
  {
    var q, r := n / y, n % y;
    assert n == y * q + r;
    LessDivisor(n, y, q, r);
    if q + r < y - 1 {
      DivUnique(n, y - 1, q, q + r);
    } else {
      DivBound(n, y - 1, q + 1);
      assert (q + 1) * (y - 1) <= n;
    }
  }

  lemma LessDivisor(n: nat, y: nat, q: nat, r: nat)
    requires n == y * q + r && y > 1
    ensures n == (y - 1) * q + (q + r)
    ensures (q + 1) * (y - 1) == (y - 1) * q + (y - 1)
  {
  }

  /** The quotient of words leaves room for one more: it is never all ones. */
  lemma NeverAllOnes(x: Word, y: Word)
    requires x < y
    ensures x * WORD / y < WORD - 1
  {
    assert x * WORD <= (y - 1) * WORD by {
      Grows(WORD, x, y - 1);
    }
    assert (y - 1) * WORD == y * WORD - WORD;
    assert y * WORD - WORD < y * (WORD - 1);
    DivBound(x * WORD, y, WORD - 1);
  }

  /** The two branches agree on every even divisor, and on an odd one exactly when the quotient and the
      remainder together stay below the even number before it and the division is not exact with a quotient
      above zero. */
  lemma BranchesAgree(x: Word, y: Word)
    requires x < y
    ensures Quotient32(x, y) == Quotient64(x, y)
       <==> y % 2 == 0
            || (x < y - 1 && x * WORD / y + x * WORD % y < y - 1 && (x * WORD % y != 0 || x * WORD / y == 0))
    ensures Quotient32(x, y).0 == Quotient64(x, y).0
       <==> y % 2 == 0 || (x < y - 1 && x * WORD / y + x * WORD % y < y - 1)
  {
    if y % 2 == 1 && x < y - 1 {
      DividedByLess(x * WORD, y);
    }
    if x == y - 1 {
      NeverAllOnes(x, y);
    }
  }

  /** One third, with the divisor taken for two. */
  lemma ThirdBecomesHalf()
    ensures Quotient32(1, 3) == (0x8000_0000, false) && Quotient64(1, 3) == (0x5555_5555, true)
  {
  }
}
