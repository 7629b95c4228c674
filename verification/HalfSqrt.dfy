/** `detail::sqrt` and `sqrt` of half.hpp: restoring square root, two bits of the radicand a step. */
module HalfSqrt {
  import opened Bits
  import opened HalfFormat
  import opened HalfRounding
  import opened HalfProduct

  /** a is the root found so far, a multiple of p; the loop's m is a * p, and r what a * a leaves. */
  predicate RootSoFar(total: int, a: int, p: int, m: int, r: int) {
    m == a * p && total == a * a + r && 0 <= a && 0 <= r < 2 * (a * p) + p * p
  }

  lemma RootStep(total: int, a: int, h: int, m: int, r: int)
    requires RootSoFar(total, a, 2 * h, m, r) && h > 0
    ensures m % 2 == 0
    ensures r < m + h * h ==> RootSoFar(total, a, h, m / 2, r)
    ensures r >= m + h * h ==> RootSoFar(total, a + h, h, m / 2 + h * h, r - (m + h * h))
  {
    assert a * (2 * h) == 2 * (a * h);
    assert 2 * h * (2 * h) == 4 * (h * h);
    assert (a + h) * h == a * h + h * h;
    assert (a + h) * (a + h) == a * a + 2 * (a * h) + h * h;
  }

  /** For an even number f of fractional bits: the integer root of the radicand, shifted by the parity
      of the exponent, and the remainder. */
  method FixedSqrt(f: nat, r0: nat, exp0: int) returns (m: nat, r: nat, exp: int)
    requires f % 2 == 0 && r0 < 2 * Pow2(f)
    ensures m * m + r == r0 * Pow2(exp0 % 2) && r <= 2 * m
    ensures exp0 == 2 * exp + exp0 % 2
  {
    var i := exp0 % 2;
    r := r0 * Pow2(i);
    DoubledRadicand(r0, i, Pow2(f));
    m, r := RootBits(f, r);
    exp := (exp0 - i) / 2;
  }

  lemma DoubledRadicand(r0: nat, i: nat, p: nat)
    requires r0 < 2 * p && i < 2
    ensures r0 * Pow2(i) < 4 * p
  {
    assert Pow2(0) == 1 && Pow2(1) == 2;
  }

  /** The loop over the bits of the root. */
  method RootBits(f: nat, r0: nat) returns (m: nat, r: nat)
    requires f % 2 == 0 && r0 < 4 * Pow2(f)
    ensures m * m + r == r0 && r <= 2 * m
  {
    m, r := 0, r0;
    var bit := Pow2(f);
    ghost var a, h: nat := 0, Pow2(f / 2);
    RootStart(f, r0);
    while bit != 0
      invariant Rooting(r0, a, h, bit, m, r)
      decreases bit
    {
      RootKeeps(r0, a, h, bit, m, r);
      if r < m + bit {
        m := m / 2;
      } else {
        r := r - (m + bit);
        m := m / 2 + bit;
        a := a + h;
      }
      bit := bit / 4;
      h := h / 2;
    }
    RootDone(r0, a, h, m, r);
  }

  /** Twice the weight of the bit to come; one when all bits are done. */
  function Scale(h: nat): nat {
    if h == 0 then 1 else 2 * h
  }

  ghost predicate Rooting(total: int, a: int, h: nat, bit: nat, m: int, r: int) {
    RootSoFar(total, a, Scale(h), m, r) && bit == h * h && (h != 0 ==> exists k: nat :: h == Pow2(k))
  }

  lemma RootKeeps(total: int, a: int, h: nat, bit: nat, m: int, r: int)
    requires Rooting(total, a, h, bit, m, r) && bit != 0
    ensures m % 2 == 0 && bit / 4 < bit
    ensures r < m + bit ==> Rooting(total, a, h / 2, bit / 4, m / 2, r)
    ensures r >= m + bit ==> Rooting(total, a + h, h / 2, bit / 4, m / 2 + bit, r - (m + bit))
  {
    RootStep(total, a, h, m, r);
    BitStep(h);
  }

  lemma RootDone(total: int, a: int, h: nat, m: int, r: int)
    requires Rooting(total, a, h, 0, m, r)
    ensures m * m + r == total && r <= 2 * m
  {
    if h > 0 {
      ScaleLess(0, h, h);
    }
    assert 2 * (a * 1) + 1 * 1 == 2 * a + 1;
  }

  lemma RootStart(f: nat, r0: nat)
    requires f % 2 == 0 && r0 < 4 * Pow2(f)
    ensures Rooting(r0, 0, Pow2(f / 2), Pow2(f), 0, r0)
  {
    Pow2Sum(f / 2, f / 2);
    var h := Pow2(f / 2);
    assert 2 * h * (2 * h) == 4 * (h * h);
  }

  lemma BitStep(h: nat)
    requires exists k: nat :: h == Pow2(k)
    ensures h > 0 && h / 2 * (h / 2) == h * h / 4
    ensures h == 1 || h == 2 * (h / 2)
    ensures h / 2 != 0 ==> exists k: nat :: h / 2 == Pow2(k)
  {
    var k: nat :| h == Pow2(k);
    if k > 0 {
      assert h / 2 == Pow2(k - 1);
      var c := h / 2;
      assert h * h == 4 * (c * c);
    }
  }

  lemma RootPlace(n: int, total: int, u: nat, c: nat)
    requires u > 0 && n == total * (u * u)
    ensures Root(n, 1).Below(c * u) <==> 4 * total < c * c
    ensures Root(n, 1).Meets(c * u) <==> 4 * total == c * c
  {
    var w := u * u;
    assert w > 0;
    assert c * u * (c * u) == c * c * w;
    assert 4 * n == 4 * total * w;
    ScaleLess(4 * total, c * c, w);
  }

  lemma Squares(m: int)
    ensures (2 * m) * (2 * m) == 4 * (m * m)
    ensures (2 * m + 1) * (2 * m + 1) == 4 * (m * m) + 4 * m + 1
    ensures (2 * m + 2) * (2 * m + 2) == 4 * (m * m) + 8 * m + 4
  {
  }

  /** The exact root in units of 2^-24 lies between m * u and (m + 1) * u, and r tells where. */
  lemma RootBrackets(n: int, total: int, m: nat, r: nat, u: nat, a: nat)
    requires u > 0 && total == m * m + r && r <= 2 * m && n == total * (u * u)
    requires a <= LARGEST && Mag(a) == m * u && Mag(a + 1) == (m + 1) * u
    ensures Brackets(Root(n, 1), a, r > m, r != 0)
  {
    EvenMultiples(m, u);
    Squares(m);
    RootPlace(n, total, u, 2 * m);
    RootPlace(n, total, u, 2 * m + 1);
    RootPlace(n, total, u, 2 * m + 2);
  }

  /** The radicand of the integer root against the exact one. */
  lemma RootScale(x: nat, mx: nat, e: int, exp: int, i: nat)
    requires Normalised(x, mx, e) && 15 + e == 2 * exp + i && i < 2
    ensures 3 <= exp <= 22
    ensures Mag(x) * UNITS == mx * 0x400 * Pow2(i) * (Pow2(exp - 1) * Pow2(exp - 1))
  {
    Pow2Values();
    Pow2Sum(exp - 1, exp - 1);
    Pow2Sum(e + 9, 14);
    Pow2Sum(10, e + 13);
    Pow2Sum(i, 2 * exp - 2);
    assert Pow2(14) == 8 * Pow2(11);
    RadicandAlgebra(Mag(x), mx, Pow2(e + 9), Pow2(e + 13), Pow2(i), Pow2(2 * exp - 2));
  }

  lemma RadicandAlgebra(x: int, m: int, p: int, q: int, b: int, w: int)
    requires x * 0x400 == m * p && p * 0x4000 == 0x400 * q && q == b * w
    ensures x * 0x1000000 == m * 0x400 * b * w
  {
    assert x * 0x1000000 == m * p * 0x4000;
    assert m * p * 0x4000 == m * (p * 0x4000);
    assert m * (0x400 * (b * w)) == m * 0x400 * b * w;
  }

  lemma RootRange(total: nat, m: nat, r: nat)
    requires total == m * m + r && r <= 2 * m && 0x100000 <= total < 0x400000
    ensures 0x400 <= m < 0x800
  {
    assert (m + 1) * (m + 1) == m * m + 2 * m + 1;
    SquareOrder(m + 1, 0x400);
    SquareOrder(0x800, m);
  }

  lemma SquareOrder(x: nat, y: nat)
    ensures x <= y ==> x * x <= y * y
  {
  }

  lemma RootDelivers(mode: Mode, x: nat, mx: nat, e: int, m: nat, r: nat, exp: int, i: nat)
    requires Normalised(x, mx, e) && 15 + e == 2 * exp + i && i < 2
    requires m * m + r == mx * 0x400 * Pow2(i) && r <= 2 * m
    ensures 3 <= exp <= 22 && 0x400 <= m < 0x800
    ensures Rounded(mode, exp * 0x400 + m % 0x400, r > m, r != 0) < 0x10000
    ensures Delivers(mode, false, Root(Mag(x) * UNITS, 1), Rounded(mode, exp * 0x400 + m % 0x400, r > m, r != 0))
  {
    RootScale(x, mx, e, exp, i);
    assert Pow2(0) == 1 && Pow2(1) == 2;
    RootRange(mx * 0x400 * Pow2(i), m, r);
    RootRounds(mode, Mag(x) * UNITS, mx * 0x400 * Pow2(i), m, r, exp);
  }

  lemma RootRounds(mode: Mode, n: int, total: int, m: nat, r: nat, exp: nat)
    requires 3 <= exp <= 22 && 0x400 <= m < 0x800
    requires total == m * m + r && r <= 2 * m && n == total * (Pow2(exp - 1) * Pow2(exp - 1))
    ensures Rounded(mode, exp * 0x400 + m % 0x400, r > m, r != 0) < 0x10000
    ensures Delivers(mode, false, Root(n, 1), Rounded(mode, exp * 0x400 + m % 0x400, r > m, r != 0))
  {
    var a, u := exp * 0x400 + m % 0x400, Pow2(exp - 1);
    assert a == (exp - 1) * 0x400 + m;
    MagField(exp - 1, m);
    MagField(exp - 1, m + 1);
    RootBrackets(n, total, m, r, u, a);
    RoundedDelivers(mode, false, Root(n, 1), a, r > m, r != 0);
  }

  /** `sqrt`: the square root in units of 2^-24 is the root of Mag(x) * 2^24. */
  method Sqrt(mode: Mode, x: Half) returns (z: Half)
    ensures IsNaN(x) ==> IsNaN(z) && IsQuieted(x, z)
    ensures !IsNaN(x) && Negative(x) && Abs(x) != 0 ==> z == 0x7FFF && IsNaN(z)
    ensures Abs(x) == 0 || x == INFINITY ==> z == x
    ensures Finite(x) && Abs(x) != 0 && !Negative(x) ==>
              Delivers(mode, false, Root(Mag(Abs(x)) * UNITS, 1), z)
  {
    var abs := Abs(x);
    if abs == 0 || x >= INFINITY {
      NotRooted(x);
      return if abs > INFINITY then Quiet(x) else if x > 0x8000 then INVALID else x;
    }
    assert abs == x;
    z := FiniteSqrt(mode, abs);
  }

  lemma NotRooted(x: Half)
    requires Abs(x) == 0 || x >= INFINITY
    ensures !(Finite(x) && Abs(x) != 0 && !Negative(x))
    ensures Negative(x) && Abs(x) != 0 <==> x > 0x8000
  {
  }

  method FiniteSqrt(mode: Mode, abs: nat) returns (z: Half)
    requires 0 < abs < INFINITY
    ensures Delivers(mode, false, Root(Mag(abs) * UNITS, 1), z)
  {
    var mx, e := Normalise(abs);
    var m, r, exp := RootOf(mx, 15 + e);
    RootDelivers(mode, abs, mx, e, m, r, exp, (15 + e) % 2);
    z := Rounded(mode, exp * 0x400 + m % 0x400, r > m, r != 0);
  }

  /** `detail::sqrt<20>` on a significand with ten more fractional bits. */
  method RootOf(mx: nat, e: int) returns (m: nat, r: nat, exp: int)
    requires mx < 0x800
    ensures m * m + r == mx * 0x400 * Pow2(e % 2) && r <= 2 * m
    ensures e == 2 * exp + e % 2
  {
    Pow2Values();
    m, r, exp := FixedSqrt(20, mx * 0x400, e);
  }
}
