/** The physical address layout: `addr_gen` of the kernels and `addressMapping` of the trace analyser. */
module AddressMap {
  import opened Bits

  // ----- bitwise operations on unbounded words -----

  function BitOr(a: nat, b: nat): nat {
    if a == 0 then b
    else if b == 0 then a
    else 2 * BitOr(a / 2, b / 2) + if a % 2 == 1 || b % 2 == 1 then 1 else 0
  }

  function BitXor(a: nat, b: nat): nat {
    if a == 0 then b
    else if b == 0 then a
    else 2 * BitXor(a / 2, b / 2) + if a % 2 != b % 2 then 1 else 0
  }

  lemma {:induction false} OrBelow(a: nat, w: nat, v: nat)
    requires v < Pow2(w)
    ensures BitOr(a * Pow2(w), v) == a * Pow2(w) + v
  {
    if w > 0 {
      var x := ShiftedHalf(a, Pow2(w - 1), v);
      OrBelow(a, w - 1, v / 2);
      OrStep(x, v);
    }
  }

  lemma ShiftedHalf(a: nat, p: nat, v: nat) returns (x: nat)
    requires v < 2 * p
    ensures x == a * p && a * (2 * p) == 2 * x && v / 2 < p
  {
    DoubledProduct(a, p);
    ProductBound(0, a, 0, p);
    x := a * p;
  }

  lemma OrZero(a: nat)
    ensures BitOr(a, 0) == a
  {
  }

  lemma OrStep(x: nat, v: nat)
    requires BitOr(x, v / 2) == x + v / 2
    ensures BitOr(2 * x, v) == 2 * x + v
  {
  }

  lemma {:induction false} XorSame(a: nat)
    ensures BitXor(a, a) == 0
  {
    if a > 0 {
      XorSame(a / 2);
    }
  }

  /** a ^ ((a >> w) << w): the low w bits of a. */
  lemma {:induction false} XorLow(a: nat, w: nat)
    ensures BitXor(a, Quo(a, Pow2(w)) * Pow2(w)) == a % Pow2(w)
  {
    if w == 0 {
      XorSame(a);
    } else {
      XorLow(a / 2, w - 1);
      HalvedQuotient(a, Pow2(w - 1));
      XorStep(a, Quo(a / 2, Pow2(w - 1)) * Pow2(w - 1), a / 2 % Pow2(w - 1));
    }
  }

  lemma HalvedQuotient(a: nat, p: nat)
    requires p > 0
    ensures Quo(a, 2 * p) * (2 * p) == 2 * (Quo(a / 2, p) * p)
    ensures a % (2 * p) == 2 * (a / 2 % p) + a % 2
  {
    var q, r := Quo(a / 2, p), a / 2 % p;
    assert a / 2 == p * q + r;
    assert a == 2 * p * q + (2 * r + a % 2);
    DivUnique(a, 2 * p, q, 2 * r + a % 2);
  }

  lemma XorStep(a: nat, b: nat, r: nat)
    requires BitXor(a / 2, b) == r
    ensures BitXor(a, 2 * b) == 2 * r + a % 2
  {
  }

  // ----- packing fields of given widths -----

  datatype Field = Field(width: nat, value: nat)

  predicate InRange(fs: seq<Field>) {
    forall i :: 0 <= i < |fs| ==> fs[i].value < Pow2(fs[i].width)
  }

  /** addr <<= w */
  function Shl(addr: nat, w: nat): nat {
    addr * Pow2(w)
  }

  /** addr >>= w */
  function Shr(addr: nat, w: nat): nat {
    Quo(addr, Pow2(w))
  }

  /** addr <<= width; addr |= value */
  function ShiftIn(addr: nat, f: Field): nat {
    BitOr(Shl(addr, f.width), f.value)
  }

  function Pack(top: nat, fs: seq<Field>): nat {
    if fs == [] then top else ShiftIn(Pack(top, fs[..|fs| - 1]), fs[|fs| - 1])
  }

  /** Splits the fields off again, the last one first. */
  function Unpack(addr: nat, widths: seq<nat>): (nat, seq<nat>) {
    if widths == [] then (addr, [])
    else
      var w := Pow2(widths[|widths| - 1]);
      var (top, values) := Unpack(Quo(addr, w), widths[..|widths| - 1]);
      (top, values + [addr % w])
  }

  function Widths(fs: seq<Field>): (r: seq<nat>)
    ensures |r| == |fs| && forall i :: 0 <= i < |fs| ==> r[i] == fs[i].width
  {
    seq(|fs|, i requires 0 <= i < |fs| => fs[i].width)
  }

  function Values(fs: seq<Field>): (r: seq<nat>)
    ensures |r| == |fs| && forall i :: 0 <= i < |fs| ==> r[i] == fs[i].value
  {
    seq(|fs|, i requires 0 <= i < |fs| => fs[i].value)
  }

  lemma PackNext(top: nat, fs: seq<Field>, k: nat)
    requires k < |fs|
    ensures Pack(top, fs[..0]) == top
    ensures Pack(top, fs[..k + 1]) == ShiftIn(Pack(top, fs[..k]), fs[k])
  {
    assert fs[..k + 1][..k] == fs[..k];
  }

  /** Unpacking undoes packing, whatever the widths, as long as every value fits its field. */
  lemma {:induction false} UnpackPacked(top: nat, fs: seq<Field>)
    requires InRange(fs)
    ensures Unpack(Pack(top, fs), Widths(fs)) == (top, Values(fs))
  {
    if fs != [] {
      var init, last := fs[..|fs| - 1], fs[|fs| - 1];
      UnpackPacked(top, init);
      assert Widths(fs)[..|fs| - 1] == Widths(init);
      assert Values(fs) == Values(init) + [last.value];
      OrBelow(Pack(top, init), last.width, last.value);
      LastField(Pack(top, fs), Pack(top, init), Pow2(last.width), last.value);
    }
  }

  lemma LastField(packed: nat, addr: nat, p: nat, v: nat)
    requires v < p && packed == addr * p + v
    ensures Quo(packed, p) == addr && packed % p == v
  {
    assert packed == p * addr + v;
    DivUnique(packed, p, addr, v);
  }

  // ----- addr_gen -----

  /** (value >> end) & ((1 << (start - end + 1)) - 1) */
  function MaskByBit(value: nat, start: nat, end: nat): nat
    requires end <= start + 1
  {
    Quo(value, Pow2(end)) % Pow2(start + 1 - end)
  }

  datatype Location = Location(ch: nat, rank: nat, bg: nat, ba: nat, row: nat, col: nat)

  /** The fields below the rank, from the row down to the burst offset, for `chan` channel bits. */
  function Layout(chan: nat, l: Location): seq<Field>
    requires chan >= 1
  {
    [Field(14, l.row),
     Field(3, MaskByBit(l.col, 4, 2)),
     Field(1, MaskByBit(l.ba, 1, 1)),
     Field(2, l.bg),
     Field(1, MaskByBit(l.ba, 0, 0)),
     Field(chan - 1, MaskByBit(l.ch, chan - 1, 1)),
     Field(1, MaskByBit(l.col, 1, 1)),
     Field(1, MaskByBit(l.ch, 0, 0)),
     Field(1, MaskByBit(l.col, 0, 0)),
     Field(5, 0)]
  }

  function AddrOf(chan: nat, l: Location): nat
    requires chan >= 1
  {
    Pack(l.rank, Layout(chan, l))
  }

  /** The values that the fields of the address have room for. */
  predicate Addressable(chan: nat, l: Location) {
    l.ch < Pow2(chan) && l.bg < 4 && l.ba < 4 && l.row < 0x4000 && l.col < 32
  }

  lemma LayoutInRange(chan: nat, l: Location)
    requires chan >= 1 && Addressable(chan, l)
    ensures InRange(Layout(chan, l))
  {
    assert Pow2(1) == 2 && Pow2(2) == 4 && Pow2(3) == 8 && Pow2(5) == 32;
    Pow2Values();
    assert Pow2(14) == 8 * Pow2(11);
  }


  /** Repeated shift and or, one field at a time; `chan` is the source's num_chan_bit_, 6 in the kernels. */
  method AddrGen(chan: nat, ch: nat, rank: nat, bg: nat, ba: nat, row: nat, col: nat) returns (addr: nat)
    requires chan >= 1
    ensures addr == AddrOf(chan, Location(ch, rank, bg, ba, row, col))
  {
    ghost var l := Location(ch, rank, bg, ba, row, col);
    addr := BankBits(chan, l, rank, bg, ba, row, col);
    addr := LowBits(chan, l, addr, ch, col);
  }

  /** The first half of the source's function: rank, row, upper column bits and bank. */
  method BankBits(ghost chan: nat, ghost l: Location, rank: nat, bg: nat, ba: nat, row: nat, col: nat)
      returns (addr: nat)
    requires chan >= 1 && l.rank == rank && l.bg == bg && l.ba == ba && l.row == row && l.col == col
    ensures addr == Pack(l.rank, Layout(chan, l)[..5])
  {
    ghost var fs := Layout(chan, l);
    addr := rank;
    addr := Shl(addr, 14);
    addr := BitOr(addr, row);
    PackNext(rank, fs, 0);
    addr := Shl(addr, 3);
    addr := BitOr(addr, MaskByBit(col, 4, 2));
    PackNext(rank, fs, 1);
    addr := Shl(addr, 1);
    addr := BitOr(addr, MaskByBit(ba, 1, 1));
    PackNext(rank, fs, 2);
    addr := Shl(addr, 2);
    addr := BitOr(addr, bg);
    PackNext(rank, fs, 3);
    addr := Shl(addr, 1);
    addr := BitOr(addr, MaskByBit(ba, 0, 0));
    PackNext(rank, fs, 4);
  }

  /** The second half: the channel with the lower column bits between its own, and the burst offset. */
  method LowBits(chan: nat, ghost l: Location, bank: nat, ch: nat, col: nat) returns (addr: nat)
    requires chan >= 1 && l.ch == ch && l.col == col && bank == Pack(l.rank, Layout(chan, l)[..5])
    ensures addr == AddrOf(chan, l)
  {
    ghost var fs := Layout(chan, l);
    addr := Shl(bank, chan - 1);
    addr := BitOr(addr, MaskByBit(ch, chan - 1, 1));
    PackNext(l.rank, fs, 5);
    addr := Shl(addr, 1);
    addr := BitOr(addr, MaskByBit(col, 1, 1));
    PackNext(l.rank, fs, 6);
    addr := Shl(addr, 1);
    addr := BitOr(addr, MaskByBit(ch, 0, 0));
    PackNext(l.rank, fs, 7);
    addr := Shl(addr, 1);
    addr := BitOr(addr, MaskByBit(col, 0, 0));
    PackNext(l.rank, fs, 8);
    addr := Shl(addr, 5);
    PackNext(l.rank, fs, 9);
    OrZero(addr);
    assert fs[..10] == fs;
  }


  // ----- distinct locations have distinct addresses -----

  lemma SplitBit(v: nat, w: nat)
    requires v < Pow2(w + 1)
    ensures v == 2 * MaskByBit(v, w, 1) + MaskByBit(v, 0, 0)
  {
    HalfBelow(v, Pow2(w));
    assert Pow2(0) == 1 && Pow2(1) == 2;
  }

  lemma HalfBelow(v: nat, p: nat)
    requires v < 2 * p
    ensures v / 2 % p == v / 2
  {
    DivUnique(v / 2, p, 0, v / 2);
  }

  lemma SplitColumn(col: nat)
    requires col < 32
    ensures col == 4 * MaskByBit(col, 4, 2) + 2 * MaskByBit(col, 1, 1) + MaskByBit(col, 0, 0)
  {
    assert Pow2(0) == 1 && Pow2(1) == 2 && Pow2(2) == 4 && Pow2(3) == 8;
  }

  /** The location spelled by the values of the fields. */
  function Spelled(rank: nat, values: seq<nat>): Location
    requires |values| == 10
  {
    Location(2 * values[5] + values[7], rank, values[3], 2 * values[2] + values[4], values[0],
             4 * values[1] + 2 * values[6] + values[8])
  }

  lemma LayoutSpells(chan: nat, l: Location)
    requires chan >= 1 && Addressable(chan, l)
    ensures Spelled(l.rank, Values(Layout(chan, l))) == l
  {
    SplitBit(l.ch, chan - 1);
    assert Pow2(2) == 4;
    SplitBit(l.ba, 1);
    SplitColumn(l.col);
  }

  /** No two locations share an address, whatever the number of channel bits. */
  lemma AddrInjective(chan: nat, l: Location, m: Location)
    requires chan >= 1 && Addressable(chan, l) && Addressable(chan, m)
    ensures AddrOf(chan, l) == AddrOf(chan, m) <==> l == m
  {
    LayoutInRange(chan, l);
    LayoutInRange(chan, m);
    UnpackPacked(l.rank, Layout(chan, l));
    UnpackPacked(m.rank, Layout(chan, m));
    assert Widths(Layout(chan, l)) == Widths(Layout(chan, m));
    LayoutSpells(chan, l);
    LayoutSpells(chan, m);
  }

  // ----- addressMapping -----

  datatype Transaction = Transaction(rank: nat, row: nat, bank: nat, column: nat, chan: nat)

  /** The widths of the layout with one channel bit. */
  const ANALYSED: seq<nat> := [14, 3, 1, 2, 1, 0, 1, 1, 1, 5]

  function Decode(address: nat): Transaction {
    var (top, v) := Unpack(address, ANALYSED);
    UnpackLength(address, ANALYSED);
    Transaction(top % 2, v[0], 4 * v[3] + (2 * v[2] + v[4]), 4 * v[1] + 2 * v[6] + v[8], v[7])
  }

  lemma {:induction false} UnpackLength(address: nat, widths: seq<nat>)
    ensures |Unpack(address, widths).1| == |widths|
  {
    if widths != [] {
      UnpackLength(Quo(address, Pow2(widths[|widths| - 1])), widths[..|widths| - 1]);
    }
  }


  /** x |= y << w for x below 2^w, at the two widths used. */
  lemma OrAbove(x: nat, y: nat, w: nat)
    requires (w == 1 && x < 2) || (w == 2 && x < 4)
    ensures BitOr(x, Shl(y, w)) == (if w == 1 then 2 * y else 4 * y) + x
  {
    assert Pow2(1) == 2 && Pow2(2) == 4;
    OrBelow(y, w, x);
    OrCommutes(x, y * Pow2(w));
  }

  lemma {:induction false} OrCommutes(a: nat, b: nat)
    ensures BitOr(a, b) == BitOr(b, a)
  {
    if a > 0 && b > 0 {
      OrCommutes(a / 2, b / 2);
    }
  }

  /** Bit 1 or-ed into a bank number that has only bit 0 and the group bits. */
  lemma OrMiddle(low: nat, group: nat, high: nat)
    requires low < 2 && high < 2
    ensures BitOr(4 * group + low, Shl(high, 1)) == 4 * group + (2 * high + low)
  {
    assert Pow2(1) == 2;
    OrBelow(group, 1, high);
    assert 2 * group == group * 2;
    OrLift(2 * group, high, low);
  }

  lemma OrLift(a: nat, b: nat, low: nat)
    requires low < 2
    ensures BitOr(2 * a + low, 2 * b) == 2 * BitOr(a, b) + low
  {
    assert (2 * a + low) / 2 == a && 2 * b / 2 == b;
  }

  /** tempA = p; p = p >> w; tempB = p << w; the field is tempA ^ tempB */
  method TakeField(p: nat, w: nat) returns (rest: nat, field: nat)
    ensures rest == Quo(p, Pow2(w)) && field == p % Pow2(w) && field < Pow2(w)
    ensures w == 1 ==> field < 2
  {
    var tempA := p;
    rest := Shr(p, w);
    var tempB := Shl(rest, w);
    field := BitXor(tempA, tempB);
    XorLow(p, w);
    ModBelow(p, Pow2(w));
  }

  lemma ModBelow(x: nat, p: nat)
    requires p > 0
    ensures x % p < p
  {
  }

  /** p is what is left of the address after the last fields, with the values vs, were split off. */
  ghost predicate Peeled(address: nat, k: nat, p: nat, vs: seq<nat>) {
    k <= 10 &&
    Unpack(address, ANALYSED) == (Unpack(p, ANALYSED[..k]).0, Unpack(p, ANALYSED[..k]).1 + vs)
  }

  lemma PeelField(address: nat, k: nat, p: nat, vs: seq<nat>, w: nat)
    requires Peeled(address, k, p, vs) && k > 0 && ANALYSED[k - 1] == w
    ensures Peeled(address, k - 1, Quo(p, Pow2(w)), [p % Pow2(w)] + vs)
  {
    assert ANALYSED[..k][..k - 1] == ANALYSED[..k - 1];
    var init := Unpack(Quo(p, Pow2(w)), ANALYSED[..k - 1]).1;
    assert init + [p % Pow2(w)] + vs == init + ([p % Pow2(w)] + vs);
  }

  /** The byte offset goes in two shifts. */
  lemma ShiftTwice(address: nat)
    ensures Shr(Shr(address, 3), 2) == Quo(address, Pow2(5))
  {
    assert Pow2(2) == 4 && Pow2(3) == 8 && Pow2(5) == 32;
    assert address / 8 / 4 == address / 32;
  }

  lemma PeelOffset(address: nat)
    ensures Peeled(address, 9, Quo(address, Pow2(5)), [address % Pow2(5)])
  {
    assert ANALYSED[..10] == ANALYSED;
    assert Unpack(address, ANALYSED).1 + [] == Unpack(address, ANALYSED).1;
    assert Peeled(address, 10, address, []);
    PeelField(address, 10, address, [], 5);
    assert [address % Pow2(5)] + [] == [address % Pow2(5)];
  }

  /** One channel bit leaves an empty field for the upper ones. */
  lemma PeelEmpty(address: nat, p: nat, vs: seq<nat>)
    requires Peeled(address, 6, p, vs)
    ensures Peeled(address, 5, p, [0] + vs)
  {
    PeelField(address, 6, p, vs, 0);
    assert Pow2(0) == 1;
  }

  /** What is left after each field, and the transaction the fields spell. */
  lemma DecodeStages(address: nat) returns (p: seq<nat>, t: Transaction)
    ensures |p| == 9 && p[0] == Quo(address, Pow2(5))
    ensures p[1] == Quo(p[0], Pow2(1)) && p[2] == Quo(p[1], Pow2(1)) && p[3] == Quo(p[2], Pow2(1))
    ensures p[4] == Quo(p[3], Pow2(1)) && p[5] == Quo(p[4], Pow2(2)) && p[6] == Quo(p[5], Pow2(1))
    ensures p[7] == Quo(p[6], Pow2(3)) && p[8] == Quo(p[7], Pow2(14))
    ensures t.chan == p[1] % Pow2(1) && t.row == p[7] % Pow2(14) && t.rank == p[8] % Pow2(1)
    ensures t.column == 4 * (p[6] % Pow2(3)) + 2 * (p[2] % Pow2(1)) + p[0] % Pow2(1)
    ensures t.bank == 4 * (p[4] % Pow2(2)) + (2 * (p[5] % Pow2(1)) + p[3] % Pow2(1))
    ensures t == Decode(address)
  {
    PeelOffset(address);
    var p0, v0 := Quo(address, Pow2(5)), [address % Pow2(5)];
    var p1, v1 := Peel(address, 9, p0, v0, 1);
    var p2, v2 := Peel(address, 8, p1, v1, 1);
    var p3, v3 := Peel(address, 7, p2, v2, 1);
    PeelEmpty(address, p3, v3);
    var p4, v4 := Peel(address, 5, p3, [0] + v3, 1);
    var p5, v5 := Peel(address, 4, p4, v4, 2);
    var p6, v6 := Peel(address, 3, p5, v5, 1);
    var p7, v7 := Peel(address, 2, p6, v6, 3);
    var p8, v8 := Peel(address, 1, p7, v7, 14);
    p := [p0, p1, p2, p3, p4, p5, p6, p7, p8];
    t := Reassembled(address, p8, v8);
  }

  method AddressMapping(address: nat) returns (t: Transaction)
    ensures t == Decode(address)
  {
    ghost var stages, decoded := DecodeStages(address);
    var p, field := address, 0;
    p := Shr(p, 3);
    p := Shr(p, 2);
    ShiftTwice(address);
    var column, chan, bank, row, rank;
    p, column := TakeField(p, 1);
    p, chan := TakeField(p, 1);
    p, field := TakeField(p, 1);
    OrAbove(column, field, 1);
    column := BitOr(column, Shl(field, 1));
    p, bank := TakeBank(p);
    p, field := TakeField(p, 3);
    OrAbove(column, field, 2);
    column := BitOr(column, Shl(field, 2));
    p, row := TakeField(p, 14);
    p, rank := TakeField(p, 1);
    t := Transaction(rank, row, bank, column, chan);
    assert t == decoded;
  }

  /** The low bank bit, the bank group above it, and the high bank bit put between them. */
  method TakeBank(p: nat) returns (rest: nat, bank: nat)
    ensures rest == Quo(Quo(Quo(p, Pow2(1)), Pow2(2)), Pow2(1))
    ensures bank == 4 * (Quo(p, Pow2(1)) % Pow2(2)) + (2 * (Quo(Quo(p, Pow2(1)), Pow2(2)) % Pow2(1)) + p % Pow2(1))
  {
    var field;
    rest, bank := TakeField(p, 1);
    ghost var low := bank;
    rest, field := TakeField(rest, 2);
    OrAbove(bank, field, 2);
    bank := BitOr(bank, Shl(field, 2));
    ghost var group := field;
    rest, field := TakeField(rest, 1);
    OrMiddle(low, group, field);
    bank := BitOr(bank, Shl(field, 1));
  }

  lemma Peel(address: nat, k: nat, p: nat, vs: seq<nat>, w: nat) returns (rest: nat, us: seq<nat>)
    requires Peeled(address, k, p, vs) && k > 0 && ANALYSED[k - 1] == w
    ensures rest == Quo(p, Pow2(w)) && us == [p % Pow2(w)] + vs
    ensures Peeled(address, k - 1, rest, us)
  {
    PeelField(address, k, p, vs, w);
    rest, us := Quo(p, Pow2(w)), [p % Pow2(w)] + vs;
  }

  lemma Reassembled(address: nat, top: nat, v: seq<nat>) returns (t: Transaction)
    requires |v| == 10 && Peeled(address, 0, top, v)
    ensures t == Transaction(top % Pow2(1), v[0], 4 * v[3] + (2 * v[2] + v[4]), 4 * v[1] + 2 * v[6] + v[8], v[7])
    ensures t == Decode(address)
  {
    assert [] + v == v && Pow2(1) == 2;
    t := Decode(address);
  }


  // ----- the analyser inverts the address generator -----

  /** Exactly on the one rank bit it reads, the analyser recovers every field of a generated address. */
  lemma DecodeInverts(l: Location)
    requires Addressable(1, l)
    ensures Decode(AddrOf(1, l)) == Transaction(l.rank % 2, l.row, 4 * l.bg + l.ba, l.col, l.ch)
    ensures Decode(AddrOf(1, l)).rank == l.rank <==> l.rank < 2
  {
    LayoutInRange(1, l);
    UnpackPacked(l.rank, Layout(1, l));
    assert Widths(Layout(1, l)) == ANALYSED;
    LayoutSpells(1, l);
    assert Pow2(1) == 2;
    assert Values(Layout(1, l))[7] == l.ch;
  }

  function Refield(widths: seq<nat>, values: seq<nat>): (fs: seq<Field>)
    requires |widths| == |values|
    ensures |fs| == |widths| && forall i :: 0 <= i < |fs| ==> fs[i] == Field(widths[i], values[i])
  {
    seq(|widths|, i requires 0 <= i < |widths| => Field(widths[i], values[i]))
  }

  /** Packing undoes unpacking, for every address and all widths; the unpacked values fit their fields. */
  lemma {:induction false} PackUnpacked(address: nat, widths: seq<nat>)
    ensures |Unpack(address, widths).1| == |widths|
    ensures Pack(Unpack(address, widths).0, Refield(widths, Unpack(address, widths).1)) == address
    ensures InRange(Refield(widths, Unpack(address, widths).1))
  {
    if widths != [] {
      var init, w := widths[..|widths| - 1], widths[|widths| - 1];
      PackUnpacked(Quo(address, Pow2(w)), init);
      var (top, vs) := Unpack(Quo(address, Pow2(w)), init);
      Rejoin(address, Pow2(w));
      PackLast(top, init, vs, w, address % Pow2(w));
      assert init + [w] == widths;
      assert Unpack(address, widths) == (top, vs + [address % Pow2(w)]);
    }
  }

  lemma Rejoin(x: nat, p: nat)
    requires p > 0
    ensures x == Quo(x, p) * p + x % p && x % p < p
  {
  }

  lemma PackLast(top: nat, widths: seq<nat>, values: seq<nat>, w: nat, v: nat)
    requires |widths| == |values| && v < Pow2(w)
    requires InRange(Refield(widths, values))
    ensures Pack(top, Refield(widths + [w], values + [v])) == Pack(top, Refield(widths, values)) * Pow2(w) + v
    ensures InRange(Refield(widths + [w], values + [v]))
  {
    var fs := Refield(widths + [w], values + [v]);
    assert fs[..|widths|] == Refield(widths, values);
    OrBelow(Pack(top, Refield(widths, values)), w, v);
  }

  function TotalWidth(fs: seq<Field>): nat {
    if fs == [] then 0 else TotalWidth(fs[..|fs| - 1]) + fs[|fs| - 1].width
  }

  /** Fields in range never spill into one another or into the top. */
  lemma {:induction false} PackBounds(top: nat, fs: seq<Field>)
    requires InRange(fs)
    ensures top * Pow2(TotalWidth(fs)) <= Pack(top, fs) < (top + 1) * Pow2(TotalWidth(fs))
  {
    if fs != [] {
      var init, last := fs[..|fs| - 1], fs[|fs| - 1];
      PackBounds(top, init);
      OrBelow(Pack(top, init), last.width, last.value);
      Pow2Sum(TotalWidth(init), last.width);
      BoundStep(top, Pack(top, init), Pow2(TotalWidth(init)), Pow2(last.width), last.value);
    }
  }

  lemma BoundStep(top: nat, x: nat, p: nat, q: nat, v: nat)
    requires top * p <= x < (top + 1) * p && v < q
    ensures top * (p * q) <= x * q + v < (top + 1) * (p * q)
  {
    ScaleLess(top * p, x, q);
    ScaleLess(x + 1, (top + 1) * p, q);
    Regroup(top, p, q);
    Regroup(top + 1, p, q);
  }


  lemma LayoutWidth(chan: nat, l: Location)
    requires chan >= 1
    ensures TotalWidth(Layout(chan, l)) == 28 + chan
  {
    var fs := Layout(chan, l);
    TotalNext(fs, 0); TotalNext(fs, 1); TotalNext(fs, 2); TotalNext(fs, 3); TotalNext(fs, 4);
    TotalNext(fs, 5); TotalNext(fs, 6); TotalNext(fs, 7); TotalNext(fs, 8); TotalNext(fs, 9);
    assert fs[..10] == fs;
  }

  lemma TotalNext(fs: seq<Field>, k: nat)
    requires k < |fs|
    ensures TotalWidth(fs[..0]) == 0
    ensures TotalWidth(fs[..k + 1]) == TotalWidth(fs[..k]) + fs[k].width
  {
    assert fs[..k + 1][..k] == fs[..k];
  }

  /** The rank sits on top: each rank owns its own block of 2^(28 + chan) bytes. */
  lemma AddrInRank(chan: nat, l: Location)
    requires chan >= 1 && Addressable(chan, l)
    ensures l.rank * Pow2(28 + chan) <= AddrOf(chan, l) < (l.rank + 1) * Pow2(28 + chan)
    ensures AddrOf(chan, l) % 32 == 0
  {
    LayoutInRange(chan, l);
    LayoutWidth(chan, l);
    PackBounds(l.rank, Layout(chan, l));
    EndsInOffset(l.rank, Layout(chan, l));
  }

  lemma EndsInOffset(top: nat, fs: seq<Field>)
    requires |fs| == 10 && fs[9] == Field(5, 0)
    ensures Pack(top, fs) % 32 == 0
  {
    WithOffset(top, fs, 0);
    DivUnique(Pack(top, fs), 32, Pack(top, fs[..9]), 0);
  }

  function LocationOf(t: Transaction): Location {
    Location(t.chan, t.rank, t.bank / 4, t.bank % 4, t.row, t.column)
  }

  /** Every address below the two ranks is the address of what the analyser prints, plus its byte offset. */
  lemma EncodeInverts(address: nat)
    requires address < Pow2(30)
    ensures AddrOf(1, LocationOf(Decode(address))) + address % 32 == address
    ensures Addressable(1, LocationOf(Decode(address)))
  {
    PackUnpacked(address, ANALYSED);
    var (top, v) := Unpack(address, ANALYSED);
    FieldsBounded(v);
    TopBounded(address, top, v);
    var l := LocationOf(Decode(address));
    assert l == Location(v[7], top, v[3], 2 * v[2] + v[4], v[0], 4 * v[1] + 2 * v[6] + v[8]);
    LayoutRefields(l, v);
    OnlyOffset(top, v, Layout(1, l));
  }

  lemma FieldsBounded(v: seq<nat>)
    requires |v| == 10 && InRange(Refield(ANALYSED, v))
    ensures v[0] < 0x4000 && v[1] < 8 && v[2] < 2 && v[3] < 4 && v[4] < 2
    ensures v[5] == 0 && v[6] < 2 && v[7] < 2 && v[8] < 2 && v[9] < 32
  {
    var fs := Refield(ANALYSED, v);
    assert fs[0].value < Pow2(14) && fs[1].value < Pow2(3) && fs[2].value < Pow2(1) && fs[3].value < Pow2(2);
    assert fs[4].value < Pow2(1) && fs[5].value < Pow2(0) && fs[6].value < Pow2(1) && fs[7].value < Pow2(1);
    assert fs[8].value < Pow2(1) && fs[9].value < Pow2(5);
    assert Pow2(1) == 2 && Pow2(2) == 4 && Pow2(3) == 8 && Pow2(5) == 32;
    Pow2Values();
    assert Pow2(14) == 8 * Pow2(11);
  }

  lemma TopBounded(address: nat, top: nat, v: seq<nat>)
    requires |v| == 10 && InRange(Refield(ANALYSED, v)) && Pack(top, Refield(ANALYSED, v)) == address
    requires address < Pow2(30)
    ensures top < 2
  {
    var fs := Refield(ANALYSED, v);
    PackBounds(top, fs);
    AnalysedWidth(fs);
    assert Pow2(30) == 2 * Pow2(29);
    ScaleLess(top, 2, Pow2(29));
  }

  lemma AnalysedWidth(fs: seq<Field>)
    requires |fs| == 10 && forall i :: 0 <= i < 10 ==> fs[i].width == ANALYSED[i]
    ensures TotalWidth(fs) == 29
  {
    TotalNext(fs, 0); TotalNext(fs, 1); TotalNext(fs, 2); TotalNext(fs, 3); TotalNext(fs, 4);
    TotalNext(fs, 5); TotalNext(fs, 6); TotalNext(fs, 7); TotalNext(fs, 8); TotalNext(fs, 9);
    assert fs[..10] == fs;
  }

  lemma LayoutRefields(l: Location, v: seq<nat>)
    requires |v| == 10 && v[2] < 2 && v[4] < 2 && v[1] < 8 && v[6] < 2 && v[8] < 2 && v[7] < 2 && v[5] == 0
    requires l.ch == v[7] && l.bg == v[3] && l.ba == 2 * v[2] + v[4] && l.row == v[0]
    requires l.col == 4 * v[1] + 2 * v[6] + v[8]
    ensures Layout(1, l) == Refield(ANALYSED, v)[9 := Field(5, 0)]
  {
    assert Pow2(0) == 1 && Pow2(1) == 2 && Pow2(2) == 4 && Pow2(3) == 8;
  }

  lemma OnlyOffset(top: nat, v: seq<nat>, fs: seq<Field>)
    requires |v| == 10 && fs == Refield(ANALYSED, v)[9 := Field(5, 0)] && v[9] < 32
    ensures Pack(top, fs) + v[9] == Pack(top, Refield(ANALYSED, v))
    ensures Pack(top, Refield(ANALYSED, v)) % 32 == v[9]
  {
    var gs := Refield(ANALYSED, v);
    assert fs[..9] == gs[..9];
    WithOffset(top, fs, 0);
    WithOffset(top, gs, v[9]);
    DivUnique(Pack(top, gs), 32, Pack(top, gs[..9]), v[9]);
  }

  lemma WithOffset(top: nat, fs: seq<Field>, v: nat)
    requires |fs| == 10 && fs[9] == Field(5, v) && v < 32
    ensures Pack(top, fs) == 32 * Pack(top, fs[..9]) + v
  {
    assert Pow2(5) == 32;
    OrBelow(Pack(top, fs[..9]), 5, v);
  }


  // ----- rank 0, where a row too large for its field runs on into the rank bits -----

  lemma {:induction false} PackTop(top: nat, f: Field, rest: seq<Field>)
    ensures Pack(top, [f] + rest) == Pack(ShiftIn(top, f), rest)
  {
    var fs := [f] + rest;
    if rest == [] {
      assert fs[..0] == [];
    } else {
      PackTop(top, f, rest[..|rest| - 1]);
      assert fs[..|fs| - 1] == [f] + rest[..|rest| - 1];
    }
  }

  predicate Placeable(chan: nat, l: Location) {
    l.rank == 0 && l.ch < Pow2(chan) && l.bg < 4 && l.ba < 4 && l.col < 32
  }

  /** The fields below the row. */
  function BelowRow(chan: nat, l: Location): seq<Field>
    requires chan >= 1
  {
    Layout(chan, l)[1..]
  }

  lemma RowOnTop(chan: nat, l: Location)
    requires chan >= 1 && Placeable(chan, l)
    ensures AddrOf(chan, l) == Pack(l.row, BelowRow(chan, l))
    ensures InRange(BelowRow(chan, l))
  {
    var fs := Layout(chan, l);
    assert [fs[0]] + BelowRow(chan, l) == fs;
    PackTop(0, fs[0], BelowRow(chan, l));
    var within := l.(row := 0);
    LayoutInRange(chan, within);
    assert BelowRow(chan, l) == Layout(chan, within)[1..];
  }

  /** In rank 0 even rows that overrun the row field keep addresses apart. */
  lemma RowsInjective(chan: nat, l: Location, m: Location)
    requires chan >= 1 && Placeable(chan, l) && Placeable(chan, m)
    ensures AddrOf(chan, l) == AddrOf(chan, m) <==> l == m
  {
    RowUnpacks(chan, l);
    RowUnpacks(chan, m);
    assert Widths(BelowRow(chan, l)) == Widths(BelowRow(chan, m));
    SameSpelling(chan, l, m);
  }

  lemma RowUnpacks(chan: nat, l: Location)
    requires chan >= 1 && Placeable(chan, l)
    ensures Unpack(AddrOf(chan, l), Widths(BelowRow(chan, l))) == (l.row, Values(BelowRow(chan, l)))
  {
    RowOnTop(chan, l);
    UnpackPacked(l.row, BelowRow(chan, l));
  }

  lemma SameSpelling(chan: nat, l: Location, m: Location)
    requires chan >= 1 && Placeable(chan, l) && Placeable(chan, m)
    ensures Values(BelowRow(chan, l)) == Values(BelowRow(chan, m)) && l.row == m.row ==> l == m
  {
    var k, n := l.(row := 0), m.(row := 0);
    LayoutSpells(chan, k);
    LayoutSpells(chan, n);
    if Values(BelowRow(chan, l)) == Values(BelowRow(chan, m)) {
      assert forall i :: 1 <= i < 10 ==> Values(Layout(chan, k))[i] == Values(BelowRow(chan, l))[i - 1];
      assert forall i :: 1 <= i < 10 ==> Values(Layout(chan, n))[i] == Values(BelowRow(chan, m))[i - 1];
      assert Values(Layout(chan, k)) == Values(Layout(chan, n));
    }
  }

  /** An address of rank 0 stays below the next rank exactly when the row fits its field. */
  lemma RowFits(chan: nat, l: Location)
    requires chan >= 1 && Placeable(chan, l)
    ensures AddrOf(chan, l) < Pow2(28 + chan) <==> l.row < 0x4000
    ensures AddrOf(chan, l) % 32 == 0
  {
    EndsInOffset(0, Layout(chan, l));
    RowOnTop(chan, l);
    var fs := BelowRow(chan, l);
    PackBounds(l.row, fs);
    LowerWidth(chan, l);
    Pow2Sum(14, 14 + chan);
    Pow2Values();
    assert Pow2(14) == 8 * Pow2(11);
    ScaleLess(l.row, 0x4000, Pow2(14 + chan));
    ScaleLess(l.row + 1, 0x4000, Pow2(14 + chan));
  }

  lemma LowerWidth(chan: nat, l: Location)
    requires chan >= 1
    ensures TotalWidth(BelowRow(chan, l)) == 14 + chan
  {
    var fs := BelowRow(chan, l);
    TotalNext(fs, 0); TotalNext(fs, 1); TotalNext(fs, 2); TotalNext(fs, 3); TotalNext(fs, 4);
    TotalNext(fs, 5); TotalNext(fs, 6); TotalNext(fs, 7); TotalNext(fs, 8);
    assert fs[..9] == fs;
  }

  // ----- neighbouring banks -----

  lemma {:induction false} PackSplit(top: nat, fs: seq<Field>, gs: seq<Field>)
    requires InRange(gs)
    ensures Pack(top, fs + gs) == Pack(top, fs) * Pow2(TotalWidth(gs)) + Pack(0, gs)
  {
    if gs == [] {
      assert fs + gs == fs;
    } else {
      PackSplit(top, fs, gs[..|gs| - 1]);
      SplitLast(top, fs, gs);
    }
  }

  lemma SplitLast(top: nat, fs: seq<Field>, gs: seq<Field>)
    requires |gs| > 0 && gs[|gs| - 1].value < Pow2(gs[|gs| - 1].width)
    requires var init := gs[..|gs| - 1]; Pack(top, fs + init) == Pack(top, fs) * Pow2(TotalWidth(init)) + Pack(0, init)
    ensures Pack(top, fs + gs) == Pack(top, fs) * Pow2(TotalWidth(gs)) + Pack(0, gs)
  {
    var init, last := gs[..|gs| - 1], gs[|gs| - 1];
    var scale := Pow2(last.width);
    assert gs == init + [last] && fs + gs == fs + init + [last];
    PackAppended(top, fs + init, last);
    var whole := Pack(top, fs + gs);
    assert whole == Pack(top, fs + init) * scale + last.value;
    PackAppended(0, init, last);
    Pow2Sum(TotalWidth(init), last.width);
    SplitStep(Pack(top, fs), Pow2(TotalWidth(init)), Pack(0, init), scale, last.value,
              Pack(top, fs + init), whole, Pack(0, gs), Pow2(TotalWidth(gs)));
  }

  lemma PackAppended(top: nat, fs: seq<Field>, f: Field)
    requires f.value < Pow2(f.width)
    ensures Pack(top, fs + [f]) == Pack(top, fs) * Pow2(f.width) + f.value
    ensures TotalWidth(fs + [f]) == TotalWidth(fs) + f.width
  {
    assert (fs + [f])[..|fs|] == fs;
    OrBelow(Pack(top, fs), f.width, f.value);
  }

  lemma SplitStep(x: int, p: int, y: int, q: int, v: int, upper: int, whole: int, lower: int, scale: int)
    requires upper == x * p + y && whole == upper * q + v && lower == y * q + v && scale == p * q
    ensures whole == x * scale + lower
  {
    Regroup(x, p, q);
    assert upper * q == x * p * q + y * q;
  }

  lemma FlipBit(top: nat, upper: seq<Field>, lower: seq<Field>)
    requires InRange(lower)
    ensures Pack(top, upper + [Field(1, 1)] + lower)
         == Pack(top, upper + [Field(1, 0)] + lower) + Pow2(TotalWidth(lower))
  {
    PackSplit(top, upper + [Field(1, 0)], lower);
    PackSplit(top, upper + [Field(1, 1)], lower);
    LowBit(top, upper, 0);
    LowBit(top, upper, 1);
    OneMore(Pack(top, upper + [Field(1, 0)]), Pow2(TotalWidth(lower)));
  }

  lemma OneMore(x: nat, p: nat)
    ensures (x + 1) * p == x * p + p
  {
  }

  lemma LowBit(top: nat, upper: seq<Field>, bit: nat)
    requires bit < 2
    ensures Pack(top, upper + [Field(1, bit)]) == 2 * Pack(top, upper) + bit
  {
    assert (upper + [Field(1, bit)])[..|upper|] == upper;
    assert Pow2(1) == 2;
    OrBelow(Pack(top, upper), 1, bit);
  }

  /** Raising an even bank to its odd neighbour adds 2^(7 + chan), 0x2000 with six channel bits, to the address. */
  lemma OddTwin(chan: nat, l: Location)
    requires chan >= 1 && Placeable(chan, l) && l.ba % 2 == 0
    ensures AddrOf(chan, l.(ba := l.ba + 1)) == AddrOf(chan, l) + Pow2(7 + chan)
  {
    var upper, lower := Layout(chan, l)[..4], Layout(chan, l)[5..];
    RowOnTop(chan, l);
    TailWidth(Layout(chan, l), chan);
    FlipBit(0, upper, lower);
    BankBit(l.ba);
    assert Layout(chan, l) == upper + [Field(1, 0)] + lower;
    assert Layout(chan, l.(ba := l.ba + 1)) == upper + [Field(1, 1)] + lower;
    assert BelowRow(chan, l)[4..] == lower;
  }

  lemma BankBit(ba: nat)
    requires ba % 2 == 0 && ba < 4
    ensures MaskByBit(ba, 0, 0) == 0 && MaskByBit(ba + 1, 0, 0) == 1
    ensures MaskByBit(ba, 1, 1) == MaskByBit(ba + 1, 1, 1)
  {
    assert Pow2(0) == 1 && Pow2(1) == 2;
  }

  lemma TailWidth(fs: seq<Field>, chan: nat)
    requires |fs| == 10 && chan >= 1 && fs[5].width == chan - 1 && fs[9].width == 5
    requires fs[6].width == 1 && fs[7].width == 1 && fs[8].width == 1
    ensures TotalWidth(fs[5..]) == 7 + chan
  {
    var gs := fs[5..];
    TotalNext(gs, 0); TotalNext(gs, 1); TotalNext(gs, 2); TotalNext(gs, 3); TotalNext(gs, 4);
    assert gs[..5] == gs;
  }

  // ----- the kernels' 64 channels -----

  const CHANNELS: nat := 64

  /** The threads of a channel that issue accesses. */
  const THREADS: nat := 16

  /** The bursts of a row. */
  const COLUMNS: nat := 32

  predicate InGrid(ch: nat, tid: nat) {
    ch < CHANNELS && tid < THREADS
  }

  lemma SixBits()
    ensures Pow2(6) == CHANNELS && Pow2(13) == 0x2000
  {
    assert Pow2(6) == 64;
    Pow2Values();
    assert Pow2(13) == 4 * Pow2(11);
  }

  /** The address of one 16-byte half of a burst in bank group 0, as a thread pair splits it. */
  function Half(ch: nat, half: nat, ba: nat, row: nat, col: nat): nat {
    AddrOf(6, Location(ch, 0, 0, ba, row, col)) + half * 0x10
  }

  lemma SameByte(a: nat, h: nat, b: nat, k: nat)
    requires a % 32 == 0 && b % 32 == 0 && h < 32 && k < 32
    ensures a + h == b + k <==> a == b && h == k
  {
    assert a == 32 * (a / 32) && b == 32 * (b / 32);
  }

  lemma SameBurst(loc: nat, loc': nat)
    ensures loc / COLUMNS == loc' / COLUMNS && loc % COLUMNS == loc' % COLUMNS <==> loc == loc'
  {
  }

  lemma HalfInjective(ch: nat, half: nat, ba: nat, row: nat, col: nat,
                      ch': nat, half': nat, ba': nat, row': nat, col': nat)
    requires ch < CHANNELS && half < 2 && ba < 4 && col < 32
    requires ch' < CHANNELS && half' < 2 && ba' < 4 && col' < 32
    ensures Half(ch, half, ba, row, col) == Half(ch', half', ba', row', col')
       <==> ch == ch' && half == half' && ba == ba' && row == row' && col == col'
  {
    var l, m := Location(ch, 0, 0, ba, row, col), Location(ch', 0, 0, ba', row', col');
    SixBits();
    RowFits(6, l);
    RowFits(6, m);
    RowsInjective(6, l, m);
    SameByte(AddrOf(6, l), half * 0x10, AddrOf(6, m), half' * 0x10);
  }

  // ----- the layout in numbers -----

  /** The address as a sum of its fields, each at its place. */
  lemma AddrIsSum(chan: nat, l: Location)
    requires chan >= 1 && Addressable(chan, l)
    ensures AddrOf(chan, l)
         == (l.rank * 0x4000 + l.row) * Pow2(14 + chan)
            + ((l.col / 4) * 16 + (l.ba / 2) * 8 + l.bg * 2 + l.ba % 2) * Pow2(7 + chan)
            + (l.ch / 2) * 0x100 + (l.col / 2 % 2) * 0x80 + (l.ch % 2) * 0x40 + (l.col % 2) * 0x20
  {
    var upper, middle, lower := AddrParts(chan, l);
  }

  lemma AddrParts(chan: nat, l: Location) returns (upper: nat, middle: nat, lower: nat)
    requires chan >= 1 && Addressable(chan, l)
    ensures upper == l.rank * 0x4000 + l.row
    ensures middle == (l.col / 4) * 16 + (l.ba / 2) * 8 + l.bg * 2 + l.ba % 2
    ensures lower == (l.ch / 2) * 0x100 + (l.col / 2 % 2) * 0x80 + (l.ch % 2) * 0x40 + (l.col % 2) * 0x20
    ensures AddrOf(chan, l) == upper * Pow2(14 + chan) + (middle * Pow2(7 + chan) + lower)
  {
    var fs := Layout(chan, l);
    var row, bank, rest := fs[..1], fs[1..5], fs[5..];
    LayoutInRange(chan, l);
    FieldValues(chan, l);
    PackUpper(l.rank, row, l.row);
    PackMiddle(bank);
    PackLower(rest, chan);
    upper, middle, lower := Pack(l.rank, row), Pack(0, bank), Pack(0, rest);
    LowerWidth(chan, l);
    TailWidth(fs, chan);
    assert bank + rest == fs[1..] && row + fs[1..] == fs;
    ThreeParts(l.rank, row, bank, rest);
  }

  lemma ThreeParts(rank: nat, upper: seq<Field>, middle: seq<Field>, lower: seq<Field>)
    requires InRange(middle + lower) && InRange(lower)
    ensures Pack(rank, upper + (middle + lower))
         == Pack(rank, upper) * Pow2(TotalWidth(middle + lower))
            + (Pack(0, middle) * Pow2(TotalWidth(lower)) + Pack(0, lower))
  {
    PackSplit(rank, upper, middle + lower);
    PackSplit(0, middle, lower);
  }

  lemma FieldValues(chan: nat, l: Location)
    requires chan >= 1 && Addressable(chan, l)
    ensures var fs := Layout(chan, l);
      && fs[0] == Field(14, l.row) && fs[1] == Field(3, l.col / 4) && fs[2] == Field(1, l.ba / 2)
      && fs[3] == Field(2, l.bg) && fs[4] == Field(1, l.ba % 2) && fs[5] == Field(chan - 1, l.ch / 2)
      && fs[6] == Field(1, l.col / 2 % 2) && fs[7] == Field(1, l.ch % 2) && fs[8] == Field(1, l.col % 2)
  {
    assert Pow2(0) == 1 && Pow2(1) == 2 && Pow2(2) == 4 && Pow2(3) == 8;
    assert Pow2(chan) == 2 * Pow2(chan - 1);
    HalfBelow(l.ch, Pow2(chan - 1));
  }

  lemma PackUpper(rank: nat, fs: seq<Field>, row: nat)
    requires fs == [Field(14, row)] && row < 0x4000
    ensures Pack(rank, fs) == rank * 0x4000 + row
  {
    Pow2Values();
    assert Pow2(14) == 8 * Pow2(11);
    assert fs == [] + [Field(14, row)];
    PackAppended(rank, [], Field(14, row));
  }

  lemma PackMiddle(fs: seq<Field>)
    requires |fs| == 4 && fs[0].width == 3 && fs[1].width == 1 && fs[2].width == 2 && fs[3].width == 1
    requires fs[0].value < 8 && fs[1].value < 2 && fs[2].value < 4 && fs[3].value < 2
    ensures Pack(0, fs) == fs[0].value * 16 + fs[1].value * 8 + fs[2].value * 2 + fs[3].value
  {
    assert Pow2(1) == 2 && Pow2(2) == 4 && Pow2(3) == 8;
    PackAppended(0, [], fs[0]);
    PackAppended(0, [fs[0]], fs[1]);
    PackAppended(0, [fs[0], fs[1]], fs[2]);
    PackAppended(0, [fs[0], fs[1], fs[2]], fs[3]);
    assert [] + [fs[0]] == [fs[0]] && [fs[0]] + [fs[1]] == [fs[0], fs[1]];
    assert [fs[0], fs[1]] + [fs[2]] == [fs[0], fs[1], fs[2]] && [fs[0], fs[1], fs[2]] + [fs[3]] == fs;
  }

  lemma PackLower(fs: seq<Field>, chan: nat)
    requires |fs| == 5 && chan >= 1 && fs[0].width == chan - 1 && fs[0].value < Pow2(chan - 1)
    requires fs[1].width == 1 && fs[2].width == 1 && fs[3].width == 1 && fs[4] == Field(5, 0)
    requires fs[1].value < 2 && fs[2].value < 2 && fs[3].value < 2
    ensures Pack(0, fs) == fs[0].value * 0x100 + fs[1].value * 0x80 + fs[2].value * 0x40 + fs[3].value * 0x20
  {
    assert [] + [fs[0]] == [fs[0]] && [fs[0]] + [fs[1]] == [fs[0], fs[1]];
    assert [fs[0], fs[1]] + [fs[2]] == [fs[0], fs[1], fs[2]];
    assert [fs[0], fs[1], fs[2]] + [fs[3]] == [fs[0], fs[1], fs[2], fs[3]];
    assert [fs[0], fs[1], fs[2], fs[3]] + [fs[4]] == fs;
    PackAppended(0, [], fs[0]);
    LowBit(0, [fs[0]], fs[1].value);
    LowBit(0, [fs[0], fs[1]], fs[2].value);
    LowBit(0, [fs[0], fs[1], fs[2]], fs[3].value);
    OffsetBits(0, [fs[0], fs[1], fs[2], fs[3]]);
  }

  lemma OffsetBits(top: nat, fs: seq<Field>)
    ensures Pack(top, fs + [Field(5, 0)]) == 32 * Pack(top, fs)
  {
    assert Pow2(5) == 32;
    PackAppended(top, fs, Field(5, 0));
  }
}
