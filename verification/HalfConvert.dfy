/** Conversions to half: `float2half_impl(double)` and `int2half` of half.hpp. */
module HalfConvert {
  import opened Bits
  import opened HalfFormat
  import opened HalfRounding
  import opened HalfProduct
  import opened HalfSum

  // ----- doubles -----

  /** The 64 bits of a double. */
  type Double = d: nat | d < 0x1_0000_0000_0000_0000

  predicate DoubleNegative(d: Double) { d >= 0x8000_0000_0000_0000 }

  function DoubleExponent(d: Double): nat { d / 0x10_0000_0000_0000 % 0x800 }

  function DoubleFraction(d: Double): nat { d % 0x10_0000_0000_0000 }

  predicate DoubleFinite(d: Double) { DoubleExponent(d) < 0x7FF }

  /** Magnitude of a finite double in units of 2^-1074, the least positive double. */
  function DoubleMag(d: Double): nat {
    var e, f := DoubleExponent(d), DoubleFraction(d);
    if e == 0 then f else (0x10_0000_0000_0000 + f) * Pow2(e - 1)
  }

  /** 2^-24 counts this many doublings of 2^-1074. */
  const DOUBLE_SCALE: nat := 1050

  /** The magnitude in units of 2^-24. */
  function DoubleExact(d: Double): Exact {
    Ratio(DoubleMag(d), Pow2(DOUBLE_SCALE))
  }

  /** `hi` without its sign bit and `lo` are the upper and lower 32 bits of the double. */
  function Double2Half(mode: Mode, d: Double): nat {
    Words2Half(mode, DoubleNegative(d), d / 0x1_0000_0000 % 0x8000_0000, d % 0x1_0000_0000)
  }

  function Words2Half(mode: Mode, neg: bool, hi: nat, lo: nat): nat
    requires hi < 0x8000_0000
  {
    var sign := SignBit(neg);
    if hi >= 0x7FF0_0000 then
      sign + 0x7C00 + (if hi % 0x10_0000 != 0 || lo != 0 then SetQuietBit(hi / 0x400 % 0x400) else 0)
    else if hi >= 0x40F0_0000 then
      Overflow(mode, neg)
    else if hi >= 0x3F10_0000 then
      Rounded(mode, sign + (hi / 0x10_0000 - 1008) * 0x400 + hi / 0x400 % 0x400,
              hi / 0x200 % 2 == 1, hi % 0x200 != 0 || lo != 0)
    else if hi >= 0x3E60_0000 then
      var i := 1018 - hi / 0x10_0000;
      var m: nat := hi % 0x10_0000 + 0x10_0000;
      SubnormalField(m, i);
      Rounded(mode, sign + Quo(m, Pow2(i + 1)), Quo(m, Pow2(i)) % 2 == 1, m % Pow2(i) != 0 || lo != 0)
    else if hi != 0 || lo != 0 then
      Underflow(mode, neg)
    else
      sign
  }

  function SetQuietBit(f: nat): (q: nat)
    requires f < 0x400
    ensures 0x200 <= q < 0x400
  {
    if f >= 0x200 then f else f + 0x200
  }

  lemma SubnormalField(m: nat, i: nat)
    requires m < 0x20_0000 && 10 <= i
    ensures Quo(m, Pow2(i + 1)) < 0x400
  {
    Pow2Grows(11, i + 1);
    Pow2Values();
    DivBound(m, Pow2(i + 1), 0x400);
  }

  /** Fields of the double in terms of hi and lo. */
  lemma DoubleFields(d: Double, hi: nat, lo: nat)
    requires hi == d / 0x1_0000_0000 % 0x8000_0000 && lo == d % 0x1_0000_0000
    ensures DoubleExponent(d) == hi / 0x10_0000
    ensures DoubleFraction(d) == hi % 0x10_0000 * 0x1_0000_0000 + lo
  {
  }

  /** For a normal finite double the conversion is `fixed2half` of the upper 21 significand bits. */
  lemma WordsArePacked(mode: Mode, neg: bool, hi: nat, lo: nat)
    requires 0x10_0000 <= hi < 0x7FF0_0000
    ensures var m := 0x10_0000 + hi % 0x10_0000;
            Pow2(20) <= m < 2 * Pow2(20) &&
            Words2Half(mode, neg, hi, lo) == Pack(mode, 20, m, hi / 0x10_0000 - 1009, neg, lo != 0)
  {
    var e, m: nat := hi / 0x10_0000, 0x10_0000 + hi % 0x10_0000;
    Twenty(20);
    assert hi == 0x10_0000 * e + hi % 0x10_0000;
    if hi >= 0x3F10_0000 {
      UpperWords(mode, neg, hi, lo, m, e);
    } else {
      LowerWords(mode, neg, hi, lo, m, e);
    }
  }

  lemma UpperWords(mode: Mode, neg: bool, hi: nat, lo: nat, m: nat, e: nat)
    requires 0x3F10_0000 <= hi < 0x7FF0_0000 && e == hi / 0x10_0000 && m == 0x10_0000 + hi % 0x10_0000
    requires hi == 0x10_0000 * e + hi % 0x10_0000 && m < 2 * Pow2(20)
    ensures Words2Half(mode, neg, hi, lo) == Pack(mode, 20, m, e - 1009, neg, lo != 0)
  {
    if hi < 0x40F0_0000 {
      NormalDouble(mode, hi, m, e, lo, neg);
    }
  }

  lemma LowerWords(mode: Mode, neg: bool, hi: nat, lo: nat, m: nat, e: nat)
    requires 0x10_0000 <= hi < 0x3F10_0000 && e == hi / 0x10_0000 && m == 0x10_0000 + hi % 0x10_0000
    requires hi == 0x10_0000 * e + hi % 0x10_0000 && m < 2 * Pow2(20)
    ensures Words2Half(mode, neg, hi, lo) == Pack(mode, 20, m, e - 1009, neg, lo != 0)
  {
    if hi >= 0x3E60_0000 {
      SubnormalWords(mode, neg, hi, lo, m, 1018 - e);
      SubnormalDouble(mode, m, 1018 - e, lo, neg);
    } else {
      TooLowWords(mode, neg, hi, lo, m, e);
    }
  }

  lemma SubnormalWords(mode: Mode, neg: bool, hi: nat, lo: nat, m: nat, i: int)
    requires 0x3E60_0000 <= hi < 0x3F10_0000 && i == 1018 - hi / 0x10_0000 && m == 0x10_0000 + hi % 0x10_0000
    ensures 10 <= i <= 20 && Quo(m, Pow2(i + 1)) < 0x400
    ensures Words2Half(mode, neg, hi, lo)
         == Rounded(mode, SignBit(neg) + Quo(m, Pow2(i + 1)), Quo(m, Pow2(i)) % 2 == 1, m % Pow2(i) != 0 || lo != 0)
  {
    SubnormalField(m, i);
  }

  lemma TooLowWords(mode: Mode, neg: bool, hi: nat, lo: nat, m: nat, e: nat)
    requires 0x10_0000 <= hi < 0x3E60_0000 && e == hi / 0x10_0000 && m < 2 * Pow2(20)
    ensures Words2Half(mode, neg, hi, lo) == Pack(mode, 20, m, e - 1009, neg, lo != 0)
  {
    assert e < 998;
  }

  lemma Twenty(f: nat)
    requires f == 20
    ensures Pow2(f) == 0x10_0000
  {
    Pow2Values();
  }

  lemma NormalDouble(mode: Mode, hi: nat, m: nat, e: nat, lo: nat, neg: bool)
    requires 1009 <= e < 1039 && m == 0x10_0000 + hi % 0x10_0000 && e == hi / 0x10_0000 && m < 2 * Pow2(20)
    ensures Rounded(mode, SignBit(neg) + (e - 1008) * 0x400 + hi / 0x400 % 0x400,
                    hi / 0x200 % 2 == 1, hi % 0x200 != 0 || lo != 0)
            == Fixed2Half(mode, 20, m, e - 1009, neg, lo != 0)
  {
    assert Pow2(9) == 0x200;
    UpperBits(hi, e, hi % 0x10_0000);
  }

  /** The ten bits of the fraction, the next one, and the rest. */
  lemma UpperBits(hi: nat, e: nat, r: nat)
    requires hi == 0x10_0000 * e + r && r < 0x10_0000
    ensures (0x10_0000 + r) / 0x400 == 0x400 + hi / 0x400 % 0x400
    ensures (0x10_0000 + r) / 0x200 % 2 == hi / 0x200 % 2
    ensures (0x10_0000 + r) % 0x200 == hi % 0x200
  {
    var b, c := r / 0x200, r % 0x200;
    var a, g := b / 2, b % 2;
    DivUnique(hi, 0x400, 0x400 * e + a, 0x200 * g + c);
    DivUnique(hi / 0x400, 0x400, e, a);
    DivUnique(0x10_0000 + r, 0x400, 0x400 + a, 0x200 * g + c);
    DivUnique(hi, 0x200, 0x800 * e + b, c);
    DivUnique(0x10_0000 + r, 0x200, 0x800 + b, c);
    DivUnique(0x800 * e + b, 2, 0x400 * e + a, g);
    DivUnique(0x800 + b, 2, 0x400 + a, g);
  }

  lemma SubnormalDouble(mode: Mode, m: nat, i: nat, lo: nat, neg: bool)
    requires 10 <= i <= 20 && m < 2 * Pow2(20) && m < 0x20_0000
    ensures Quo(m, Pow2(i + 1)) < 0x400
    ensures Rounded(mode, SignBit(neg) + Quo(m, Pow2(i + 1)), Quo(m, Pow2(i)) % 2 == 1, m % Pow2(i) != 0 || lo != 0)
            == Fixed2Half(mode, 20, m, 9 - i, neg, lo != 0)
  {
    SubnormalField(m, i);
    assert Pow2(i + 1) == 2 * Pow2(i);
  }

  /** The lower word is what truncating the significand to its upper 21 bits leaves.  The double counts
      in units of 2^-24 / 2^w. */
  lemma WordsRepresent(e: nat, m: nat, lo: nat, w: nat, k: nat)
    requires e >= 1 && lo < 0x1_0000_0000 && k >= w
    ensures Truncated(m, lo != 0, (m * 0x1_0000_0000 + lo) * Pow2(e - 1) * Pow2(21 + k), Pow2(w) * Pow2(e + 52 - w + k))
  {
    Pow2Sum(e - 1, 21 + k);
    Regroup(m * 0x1_0000_0000 + lo, Pow2(e - 1), Pow2(21 + k));
    Pow2Sum(w, e + 52 - w + k);
    WordPower();
    Pow2Sum(32, e + 20 + k);
    assert e - 1 + (21 + k) == e + 20 + k && w + (e + 52 - w + k) == 32 + (e + 20 + k);
    LowWord(m, lo, Pow2(e + 20 + k));
  }

  lemma LowWord(m: nat, lo: nat, c: nat)
    requires c > 0 && lo < 0x1_0000_0000
    ensures Truncated(m, lo != 0, (m * 0x1_0000_0000 + lo) * c, 0x1_0000_0000 * c)
  {
    assert (m * 0x1_0000_0000 + lo) * c == m * (0x1_0000_0000 * c) + lo * c;
    assert (m + 1) * (0x1_0000_0000 * c) == m * (0x1_0000_0000 * c) + 0x1_0000_0000 * c;
    ScaleLess(lo, 0x1_0000_0000, c);
    ScaleLess(0, lo, c);
  }

  /** The words of a finite double, and its magnitude in terms of them. */
  lemma Words(d: Double) returns (hi: nat, lo: nat, n: nat)
    requires DoubleFinite(d)
    ensures hi == d / 0x1_0000_0000 % 0x8000_0000 && lo == d % 0x1_0000_0000
    ensures hi < 0x7FF0_0000 && lo < 0x1_0000_0000 && n == DoubleMag(d)
    ensures hi < 0x10_0000 ==> n == hi * 0x1_0000_0000 + lo
    ensures hi >= 0x10_0000 ==>
              n == ((0x10_0000 + hi % 0x10_0000) * 0x1_0000_0000 + lo) * Pow2(hi / 0x10_0000 - 1)
  {
    hi, lo, n := d / 0x1_0000_0000 % 0x8000_0000, d % 0x1_0000_0000, DoubleMag(d);
    DoubleFields(d, hi, lo);
  }

  lemma WordsRounded(mode: Mode, neg: bool, hi: nat, lo: nat, n: nat, w: nat)
    requires hi < 0x7FF0_0000 && lo < 0x1_0000_0000 && w == 1050
    requires hi < 0x10_0000 ==> n == hi * 0x1_0000_0000 + lo
    requires hi >= 0x10_0000 ==>
               n == ((0x10_0000 + hi % 0x10_0000) * 0x1_0000_0000 + lo) * Pow2(hi / 0x10_0000 - 1)
    ensures Words2Half(mode, neg, hi, lo) < 0x10000
    ensures Delivers(mode, neg, Ratio(n, Pow2(w)), Words2Half(mode, neg, hi, lo))
  {
    if hi < 0x10_0000 {
      TinyWords(mode, neg, hi, lo, n, w);
    } else {
      NormalWords(mode, neg, hi, lo, 0x10_0000 + hi % 0x10_0000, hi / 0x10_0000, w);
    }
  }

  lemma TinyWords(mode: Mode, neg: bool, hi: nat, lo: nat, n: nat, w: nat)
    requires hi < 0x10_0000 && lo < 0x1_0000_0000 && n == hi * 0x1_0000_0000 + lo && w > 53
    ensures Words2Half(mode, neg, hi, lo) < 0x10000
    ensures Delivers(mode, neg, Ratio(n, Pow2(w)), Words2Half(mode, neg, hi, lo))
  {
    TinyDelivers(mode, neg, n, w);
    assert Words2Half(mode, neg, hi, lo) == if n == 0 then SignBit(neg) else Underflow(mode, neg);
  }

  lemma NormalWords(mode: Mode, neg: bool, hi: nat, lo: nat, m: nat, e: nat, w: nat)
    requires 0x10_0000 <= hi < 0x7FF0_0000 && lo < 0x1_0000_0000 && w == 1050
    requires m == 0x10_0000 + hi % 0x10_0000 && e == hi / 0x10_0000
    ensures Words2Half(mode, neg, hi, lo) < 0x10000
    ensures Delivers(mode, neg, Ratio((m * 0x1_0000_0000 + lo) * Pow2(e - 1), Pow2(w)), Words2Half(mode, neg, hi, lo))
  {
    WordsArePacked(mode, neg, hi, lo);
    WordsDeliver(mode, neg, m, lo, e, w);
  }

  /** Every finite double is rounded correctly. */
  lemma Double2HalfDelivers(mode: Mode, d: Double)
    requires DoubleFinite(d)
    ensures Double2Half(mode, d) < 0x10000
    ensures Delivers(mode, DoubleNegative(d), DoubleExact(d), Double2Half(mode, d))
  {
    var hi, lo, n := Words(d);
    WordsRounded(mode, DoubleNegative(d), hi, lo, n, DOUBLE_SCALE);
  }

  /** An infinite double becomes the infinity of its sign, a NaN becomes the quiet NaN of its sign with the upper
      ten bits of its payload. */
  lemma Double2HalfSpecial(mode: Mode, d: Double)
    requires !DoubleFinite(d)
    ensures Double2Half(mode, d) < 0x10000
    ensures DoubleFraction(d) == 0 ==> Double2Half(mode, d) == SignBit(DoubleNegative(d)) + INFINITY
    ensures DoubleFraction(d) != 0 ==>
              && IsNaN(Double2Half(mode, d)) && Double2Half(mode, d) / 0x200 % 2 == 1
              && Double2Half(mode, d) % 0x200 == DoubleFraction(d) / 0x400_0000_0000 % 0x200
              && Double2Half(mode, d)
                 == SignBit(DoubleNegative(d)) + INFINITY + SetQuietBit(DoubleFraction(d) / 0x400_0000_0000)
  {
    var hi, lo := d / 0x1_0000_0000 % 0x8000_0000, d % 0x1_0000_0000;
    DoubleFields(d, hi, lo);
    UpperPayload(hi, lo, hi / 0x10_0000, hi % 0x10_0000);
  }

  /** The ten upper bits of the 52. */
  lemma UpperPayload(hi: nat, lo: nat, e: nat, r: nat)
    requires hi == 0x10_0000 * e + r && r < 0x10_0000 && lo < 0x1_0000_0000
    ensures (r * 0x1_0000_0000 + lo) / 0x400_0000_0000 == hi / 0x400 % 0x400
  {
    var b, c := r / 0x400, r % 0x400;
    DivUnique(r * 0x1_0000_0000 + lo, 0x400_0000_0000, b, c * 0x1_0000_0000 + lo);
    DivUnique(hi, 0x400, 0x400 * e + b, c);
    DivUnique(hi / 0x400, 0x400, e, b);
  }

  lemma WordsDeliver(mode: Mode, neg: bool, m: nat, lo: nat, e: nat, w: nat)
    requires e >= 1 && lo < 0x1_0000_0000 && Pow2(20) <= m < 2 * Pow2(20) && w >= 41
    ensures Pack(mode, 20, m, e + 41 - w, neg, lo != 0) < 0x10000
    ensures Delivers(mode, neg, Ratio((m * 0x1_0000_0000 + lo) * Pow2(e - 1), Pow2(w)),
                     Pack(mode, 20, m, e + 41 - w, neg, lo != 0))
  {
    WordsRepresent(e, m, lo, w, w);
    PackDelivers(mode, 20, m, e + 41 - w, neg, lo != 0, (m * 0x1_0000_0000 + lo) * Pow2(e - 1), Pow2(w), w);
  }

  lemma TinyDelivers(mode: Mode, neg: bool, f: nat, w: nat)
    requires f < 0x10_0000_0000_0000 && w > 53
    ensures Delivers(mode, neg, Ratio(f, Pow2(w)), if f == 0 then SignBit(neg) else Underflow(mode, neg))
  {
    if f == 0 {
      ZeroDelivers(mode, neg, Pow2(w));
    } else {
      WordPower();
      Pow2Values();
      Pow2Sum(32, 20);
      Pow2Grows(52, w - 1);
      UnderflowDelivers(mode, neg, Ratio(f, Pow2(w)));
    }
  }

  // ----- integers -----

  /** `int2half` for an integer type wide enough to hold both `value` and -value. */
  method Int2Half(mode: Mode, value: int) returns (z: Half)
    ensures value == 0 ==> z == 0
    ensures value != 0 ==> Delivers(mode, value < 0, Ratio(Magnitude(value) * UNITS, 1), z)
  {
    if value == 0 {
      return 0;
    }
    z := NonzeroInteger(mode, value < 0, Magnitude(value));
  }

  method NonzeroInteger(mode: Mode, neg: bool, v: nat) returns (z: Half)
    requires v > 0
    ensures Delivers(mode, neg, Ratio(v * UNITS, 1), z)
  {
    if v > 0xFFFF {
      LargeInteger(v);
      OverflowDelivers(mode, neg, Ratio(v * UNITS, 1));
      z := Overflow(mode, neg);
    } else {
      z := SmallInteger(mode, neg, v);
    }
  }

  method SmallInteger(mode: Mode, neg: bool, v: nat) returns (z: Half)
    requires 0 < v <= 0xFFFF
    ensures Delivers(mode, neg, Ratio(v * UNITS, 1), z)
  {
    var m, exp := ScaleInteger(v);
    if exp > 24 {
      z := RoundInteger(mode, neg, v, exp, m);
    } else {
      ghost var exact := ExactInteger(mode, neg, v, 24 - exp, m);
      z := SignBit(neg) + exp * 0x400 + m;
    }
  }

  method RoundInteger(mode: Mode, neg: bool, v: nat, exp: nat, m: nat) returns (z: Half)
    requires 25 <= exp <= 29 && 0x400 <= m < 0x800 && m == Quo(v, Pow2(exp - 24))
    ensures Delivers(mode, neg, Ratio(v * UNITS, 1), z)
  {
    ghost var rounded := RoundedInteger(mode, neg, v, exp - 24, m);
    z := Rounded(mode, SignBit(neg) + exp * 0x400 + m, Quo(v, Pow2(exp - 25)) % 2 == 1, v % Pow2(exp - 25) != 0);
  }

  /** The two loops that bring the integer to eleven bits. */
  method ScaleInteger(v: nat) returns (m: nat, exp: nat)
    requires 0 < v <= 0xFFFF
    ensures 0x400 <= m < 0x800 && 14 <= exp <= 29
    ensures exp <= 24 ==> m == v * Pow2(24 - exp)
    ensures exp > 24 ==> m == Quo(v, Pow2(exp - 24))
  {
    m, exp := v, 24;
    assert Pow2(0) == 1;
    while m < 0x400
      invariant 14 <= exp <= 24 && m == v * Pow2(24 - exp) && (exp < 24 ==> m < 0x800)
      decreases exp
    {
      LeftShifted(v, m, 24 - exp);
      m, exp := 2 * m, exp - 1;
    }
    if exp == 24 {
      while m > 0x7FF
        invariant 0x400 <= m && exp >= 24 && m == Quo(v, Pow2(exp - 24))
        decreases m
      {
        RightShifted(v, exp - 24);
        m, exp := m / 2, exp + 1;
      }
      ShiftCount(v, exp - 24);
    }
  }

  lemma ShiftCount(v: nat, i: nat)
    requires v <= 0xFFFF && Quo(v, Pow2(i)) >= 0x400
    ensures i <= 5
  {
    if i > 5 {
      Pow2Grows(6, i);
      assert Pow2(6) == 64;
      DivBound(v, Pow2(i), 0x400);
      ScaleLess(64, Pow2(i), 0x400);
    }
  }

  lemma ExactInteger(mode: Mode, neg: bool, v: nat, j: nat, m: nat) returns (z: Half)
    requires 0x400 <= m < 0x800 && j <= 10 && m == v * Pow2(j)
    ensures z == SignBit(neg) + (24 - j) * 0x400 + m && Delivers(mode, neg, Ratio(v * UNITS, 1), z)
  {
    var a := ExactPlace(v, j, m);
    z := Assembled(neg, a);
    ExactDelivers(mode, z);
  }

  lemma Assembled(neg: bool, a: nat) returns (z: Half)
    requires a < 0x8000
    ensures z == SignBit(neg) + a && Abs(z) == a && Negative(z) == neg
  {
    z := SignBit(neg) + a;
    DivUnique(z, 0x8000, if neg then 1 else 0, a);
  }

  lemma ExactPlace(v: nat, j: nat, m: nat) returns (a: nat)
    requires 0x400 <= m < 0x800 && j <= 10 && m == v * Pow2(j)
    ensures a == (24 - j) * 0x400 + m && a < INFINITY && Mag(a) == v * UNITS
  {
    a := (24 - j) * 0x400 + m;
    Pow2Values();
    Pow2Sum(j, 24 - j);
    Regroup(v, Pow2(j), Pow2(24 - j));
    MagField(24 - j, m);
  }

  lemma RoundedInteger(mode: Mode, neg: bool, v: nat, i: nat, m: nat) returns (z: Half)
    requires 1 <= i <= 5 && 0x400 <= m < 0x800 && m == Quo(v, Pow2(i))
    ensures z == Rounded(mode, SignBit(neg) + (24 + i) * 0x400 + m, Quo(v, Pow2(i - 1)) % 2 == 1, v % Pow2(i - 1) != 0)
    ensures Delivers(mode, neg, Ratio(v * UNITS, 1), z)
  {
    var field, half, u, n := IntegerParts(v, i, m);
    DiscardDelivers(mode, neg, field, m, v, half, false, u, n, 1);
    z := Discard(mode, SignBit(neg) + field, v, half, false);
  }

  lemma IntegerParts(v: nat, i: nat, m: nat) returns (field: nat, half: nat, u: nat, n: int)
    requires 1 <= i <= 5 && 0x400 <= m < 0x800 && m == Quo(v, Pow2(i))
    ensures field == (24 + i) * 0x400 && half == Pow2(i - 1) && u > 0 && n == v * UNITS
    ensures m == Quo(v, 2 * half) && Represents(v, false, n * (2 * half), 1 * u, half)
    ensures Mag(field + m) == m * u && Mag(field + m + 1) == (m + 1) * u
  {
    field, half, u, n := (24 + i) * 0x400, Pow2(i - 1), Pow2(24 + i), v * UNITS;
    Pow2Values();
    Pow2Sum(24, i);
    Regroup(v, UNITS, Pow2(i));
    assert n * (2 * half) == v * u;
    ScaleLess(v, v + 1, u);
    MagField(24 + i, m);
    MagField(24 + i, m + 1);
  }

  lemma LargeInteger(v: nat)
    requires v > 0xFFFF
    ensures !Ratio(v * UNITS, 1).Below(2 * Mag(INFINITY))
  {
    Pow2Values();
    InfinityMag();
    Pow2Sum(10, 30);
  }

  lemma LeftShifted(v: nat, m: nat, j: nat)
    requires 0 < v && m == v * Pow2(j) && m < 0x400 && j <= 10
    ensures j < 10 && 2 * m == v * Pow2(j + 1)
  {
    assert Pow2(10) == 0x400;
    Grows(Pow2(j), 1, v);
    DoubledProduct(v, Pow2(j));
  }

  lemma RightShifted(v: nat, i: nat)
    ensures Quo(v, Pow2(i)) / 2 == Quo(v, Pow2(i + 1))
  {
    var p := Pow2(i);
    var q, r := Quo(v, p), v % p;
    assert v == p * q + r;
    var h, b := q / 2, q % 2;
    assert p * q == 2 * p * h + p * b;
    assert p * b == if b == 1 then p else 0;
    DivUnique(v, 2 * p, h, p * b + r);
  }

  /** An integer converted directly and by way of a double that holds it gives one and the same half. */
  lemma IntegerAndDoubleAgree(mode: Mode, value: int, d: Double, z: Half)
    requires value != 0 && DoubleFinite(d)
    requires DoubleNegative(d) == (value < 0) && DoubleMag(d) == Magnitude(value) * UNITS * Pow2(DOUBLE_SCALE)
    requires Delivers(mode, value < 0, Ratio(Magnitude(value) * UNITS, 1), z)
    ensures Double2Half(mode, d) == z
  {
    Double2HalfDelivers(mode, d);
    SameExact(mode, value < 0, Magnitude(value) * UNITS, DOUBLE_SCALE, z);
    DeliveryIsUnique(mode, value < 0, DoubleExact(d), z, Double2Half(mode, d));
  }

  lemma SameExact(mode: Mode, neg: bool, n: int, w: nat, z: Half)
    requires Delivers(mode, neg, Ratio(n, 1), z)
    ensures Delivers(mode, neg, Ratio(n * Pow2(w), Pow2(w)), z)
  {
    RatioScales(mode, neg, n, 1, Pow2(w), Abs(z));
  }
}
