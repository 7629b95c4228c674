/** Powers of two and the few facts about them that the other modules use. */
module Bits {

  function Pow2(k: nat): (p: nat)
    ensures p >= 1
  {
    if k == 0 then 1 else 2 * Pow2(k - 1)
  }

  function Quo(m: nat, d: nat): nat
    requires d > 0
  {
    m / d
  }

  lemma {:induction false} Pow2Sum(j: nat, k: nat)
    ensures Pow2(j + k) == Pow2(j) * Pow2(k)
  {
    if j == 0 {
    } else {
      Pow2Sum(j - 1, k);
      assert Pow2(j + k) == 2 * Pow2((j - 1) + k);
      Regroup(2, Pow2(j - 1), Pow2(k));
    }
  }

  lemma Pow2Values()
    ensures Pow2(10) == 0x400 && Pow2(11) == 0x800
    ensures Pow2(20) == 0x100000 && Pow2(21) == 0x200000
    ensures Pow2(23) == 0x800000 && Pow2(24) == 0x1000000
    ensures Pow2(30) == 0x40000000
  {
    assert Pow2(3) == 8;
    assert Pow2(10) == 0x400;
    Pow2Sum(10, 10);
    Pow2Sum(20, 3);
    Pow2Sum(20, 10);
    assert Pow2(21) == 2 * Pow2(20) && Pow2(24) == 2 * Pow2(23);
  }

  const WORD: nat := 0x1_0000_0000

  lemma WordPower()
    ensures Pow2(32) == WORD
  {
    assert Pow2(8) == 0x100;
    Pow2Sum(8, 8);
    Pow2Sum(16, 16);
  }

  lemma DoubledProduct(a: int, p: int)
    ensures a * (2 * p) == 2 * (a * p)
  {
  }

  lemma Regroup(x: int, y: int, z: int)
    ensures x * (y * z) == (x * y) * z
  {
  }

  lemma {:induction false} Pow2Grows(j: nat, k: nat)
    requires j <= k
    ensures Pow2(j) <= Pow2(k)
    ensures j < k ==> 2 * Pow2(j) <= Pow2(k)
  {
    if j < k {
      Pow2Grows(j, k - 1);
    }
  }

  lemma ScaleLess(x: int, y: int, c: int)
    requires c > 0
    ensures x < y <==> x * c < y * c
    ensures x <= y <==> x * c <= y * c
    ensures x == y <==> x * c == y * c
  {
    if x < y {
      assert (y - x) * c > 0;
    } else if x > y {
      assert (x - y) * c > 0;
    }
  }

  lemma Grows(x: int, y: int, z: int)
    requires x >= 0 && y <= z
    ensures x * y <= x * z
  {
  }

  lemma ProductBound(x: nat, a: nat, y: nat, b: nat)
    requires x <= a && y <= b
    ensures 0 <= x * y <= a * b
  {
    Grows(x, y, b);
    Grows(b, x, a);
  }

  lemma SmallMultiple(d: nat, k: int)
    requires 0 - d < d * k < d
    ensures k == 0
  {
  }

  lemma DivUnique(m: nat, d: nat, q: nat, r: nat)
    requires d > 0 && m == d * q + r && r < d
    ensures m / d == q && m % d == r
  {
    var q', r' := m / d, m % d;
    assert m == d * q' + r';
    assert d * (q' - q) == r - r';
    SmallMultiple(d, q' - q);
  }

  lemma DivBound(m: nat, d: nat, k: nat)
    requires d > 0
    ensures m < k * d <==> m / d < k
  {
    var q := m / d;
    assert m == d * q + m % d;
    if q < k {
      assert d * (q + 1) <= d * k;
    } else {
      assert d * k <= d * q;
    }
  }
}
