/** The compute loops and the reduction of the matrix-vector kernel, as the accesses their threads issue. */
module Gemv {
  import opened Bits
  import opened AddressMap

  const GRF: nat := 8

  /** One 16-byte half of one burst in bank group 0: the unit a thread touches. */
  datatype Target = Target(ch: nat, half: nat, ba: nat, row: nat, col: nat)

  predicate Exists(t: Target) {
    t.ch < CHANNELS && t.half < 2 && t.ba < 2 && t.col < COLUMNS
  }

  /** Mode changes, operands into the registers, weight reads and partial sums; `source` is the operand's place. */
  datatype Kind = Enter | Operand | Weight | Partial | Leave

  datatype Access = Access(kind: Kind, target: Target, source: nat)

  predicate AllExist(plan: seq<Access>) {
    forall i :: 0 <= i < |plan| ==> Exists(plan[i].target)
  }

  // ----- what the loops are to access -----

  /** What a loop over 0 .. n - 1 issues when iteration i issues part(i). */
  function Flat<T>(part: nat -> seq<T>, n: nat): seq<T> {
    if n == 0 then [] else Flat(part, n - 1) + part(n - 1)
  }

  function WeightAt(ch: nat, tid: nat, ba: nat, row: nat, col: nat): Access {
    Access(Weight, Target(ch, tid % 2, ba, row, col), 0)
  }

  function RowReads(ch: nat, tid: nat, ba: nat, row: nat): seq<Access> {
    var gidx := tid / 2;
    [WeightAt(ch, tid, ba, row, gidx), WeightAt(ch, tid, ba, row, gidx + 8),
     WeightAt(ch, tid, ba, row, gidx + 16), WeightAt(ch, tid, ba, row, gidx + 24)]
  }

  function InputRow(nIn: nat, o: nat, i: nat): nat {
    (i / 2 + o * nIn / 2) * 2
  }

  function OperandSource(tid: nat, nIn: nat, b: nat, i: nat): nat {
    (b * nIn * 8 + tid / 2 + i * 8) * 32 + tid % 2 * 0x10
  }

  function OperandWrite(ch: nat, tid: nat, nIn: nat, b: nat, i: nat): Access {
    Access(Operand, Target(ch, tid % 2, 1, 0x3fff, 8 + tid / 2), OperandSource(tid, nIn, b, i))
  }

  /** Input tile i of output tile o: the operand into the registers, then two rows of weights from its bank. */
  function InputTile(ch: nat, tid: nat, nIn: nat, b: nat, o: nat, i: nat): seq<Access> {
    var row := InputRow(nIn, o, i);
    [OperandWrite(ch, tid, nIn, b, i)] + RowReads(ch, tid, i % 2, row) + RowReads(ch, tid, i % 2, row + 1)
  }

  /** The input tiles of one parity, which is also their bank. */
  function InputTileOf(ch: nat, tid: nat, nIn: nat, b: nat, o: nat, ba: nat): nat -> seq<Access> {
    (i: nat) => if i % 2 == ba then InputTile(ch, tid, nIn, b, o, i) else []
  }

  function Pass(ch: nat, tid: nat, nIn: nat, b: nat, o: nat, ba: nat): seq<Access> {
    Flat(InputTileOf(ch, tid, nIn, b, o, ba), nIn)
  }

  function Entered(ch: nat, tid: nat): seq<Access> {
    [Access(Enter, Target(ch, tid % 2, 0, 0x3fff, 0), tid % 2 * 0x10)]
  }

  function PartialCell(nOut: nat, tid: nat, b: nat, o: nat): nat {
    b * nOut * GRF + o * GRF + tid / 2
  }

  function PartialAt(ch: nat, half: nat, loc: nat): Access {
    Access(Partial, Target(ch, half, 1, loc / COLUMNS, loc % COLUMNS), 0)
  }

  /** The partial sums go out and the mode is left again. */
  function Drained(ch: nat, tid: nat, loc: nat): seq<Access> {
    [PartialAt(ch, tid % 2, loc), Access(Leave, Target(ch, tid % 2, 0, 0x3fff, 0), tid % 2 * 0x10)]
  }

  function OutputTile(ch: nat, tid: nat, nIn: nat, nOut: nat, b: nat, o: nat): seq<Access> {
    Entered(ch, tid) + Pass(ch, tid, nIn, b, o, 0) + Pass(ch, tid, nIn, b, o, 1)
    + Drained(ch, tid, PartialCell(nOut, tid, b, o))
  }

  function OutputTileOf(ch: nat, tid: nat, nIn: nat, nOut: nat, b: nat): nat -> seq<Access> {
    (o: nat) => OutputTile(ch, tid, nIn, nOut, b, o)
  }

  function BatchOf(ch: nat, tid: nat, nIn: nat, nOut: nat): nat -> seq<Access> {
    (b: nat) => Flat(OutputTileOf(ch, tid, nIn, nOut, b), nOut)
  }

  /** The whole run of one thread. */
  function Plan(ch: nat, tid: nat, batches: nat, nIn: nat, nOut: nat): seq<Access> {
    Flat(BatchOf(ch, tid, nIn, nOut), batches)
  }

  // ----- the addresses the loops issue -----

  datatype Command = Command(kind: Kind, address: nat, source: nat)

  function Issue(a: Access): Command {
    Command(a.kind, Half(a.target.ch, a.target.half, a.target.ba, a.target.row, a.target.col), a.source)
  }

  function Issues(plan: seq<Access>): (log: seq<Command>)
    ensures |log| == |plan| && forall i :: 0 <= i < |plan| ==> log[i] == Issue(plan[i])
  {
    seq(|plan|, i requires 0 <= i < |plan| => Issue(plan[i]))
  }

  lemma IssuesSum(a: seq<Access>, b: seq<Access>)
    ensures Issues(a + b) == Issues(a) + Issues(b)
  {
  }

  lemma IssuesNext(part: nat -> seq<Access>, n: nat)
    ensures Issues(Flat(part, n + 1)) == Issues(Flat(part, n)) + Issues(part(n))
  {
    IssuesSum(Flat(part, n), part(n));
  }

  method ReadRow(ch: nat, tid: nat, ba: nat, row: nat) returns (log: seq<Command>)
    ensures log == Issues(RowReads(ch, tid, ba, row))
  {
    var col, offset := tid / 2, tid % 2 * 0x10;
    var addr := AddrGen(6, ch, 0, 0, ba, row, col);
    log := [Command(Weight, addr + offset, 0)];
    addr := AddrGen(6, ch, 0, 0, ba, row, col + 8);
    log := log + [Command(Weight, addr + offset, 0)];
    addr := AddrGen(6, ch, 0, 0, ba, row, col + 16);
    log := log + [Command(Weight, addr + offset, 0)];
    addr := AddrGen(6, ch, 0, 0, ba, row, col + 24);
    log := log + [Command(Weight, addr + offset, 0)];
  }

  method WriteOperand(ch: nat, tid: nat, nIn: nat, b: nat, i: nat) returns (log: seq<Command>)
    ensures log == Issues([OperandWrite(ch, tid, nIn, b, i)])
  {
    var gidx, offset := tid / 2, tid % 2 * 0x10;
    var iOffset: int := b * nIn * 8 + gidx;
    var iAddr: int := (iOffset + i * 8) * 32;
    var addr := AddrGen(6, ch, 0, 0, 1, 0x3fff, 0x8 + gidx);
    log := [Command(Operand, addr + offset, iAddr + offset)];
  }

  /** The body of both loops over the input tiles. */
  method ReadTile(ch: nat, tid: nat, nIn: nat, b: nat, o: nat, i: nat) returns (log: seq<Command>)
    ensures log == Issues(InputTile(ch, tid, nIn, b, o, i))
  {
    TileIssues(ch, tid, nIn, b, o, i);
    log := WriteOperand(ch, tid, nIn, b, i);
    var row := FirstRow(nIn, o, i);
    var weights := ReadRow(ch, tid, i % 2, row);
    log := log + weights;
    weights := ReadRow(ch, tid, i % 2, row + 1);
    log := log + weights;
  }

  lemma TileIssues(ch: nat, tid: nat, nIn: nat, b: nat, o: nat, i: nat)
    ensures var row := InputRow(nIn, o, i);
      Issues(InputTile(ch, tid, nIn, b, o, i)) == Issues([OperandWrite(ch, tid, nIn, b, i)])
        + Issues(RowReads(ch, tid, i % 2, row)) + Issues(RowReads(ch, tid, i % 2, row + 1))
  {
    var operand, row := [OperandWrite(ch, tid, nIn, b, i)], InputRow(nIn, o, i);
    IssuesSum(operand, RowReads(ch, tid, i % 2, row));
    IssuesSum(operand + RowReads(ch, tid, i % 2, row), RowReads(ch, tid, i % 2, row + 1));
  }

  method FirstRow(nIn: nat, o: nat, i: nat) returns (row: nat)
    ensures row == InputRow(nIn, o, i)
  {
    var rOffset: int := o * nIn / 2;
    row := (i / 2 + rOffset) * 2;
  }

  /** The loop over the input tiles of one bank: from `ba` in steps of two. */
  method InputTiles(ch: nat, tid: nat, nIn: nat, b: nat, o: nat, ba: nat) returns (log: seq<Command>)
    requires ba < 2
    ensures log == Issues(Pass(ch, tid, nIn, b, o, ba))
  {
    log := [];
    var i := ba;
    PassStart(ch, tid, nIn, b, o, ba);
    while i < nIn
      invariant i % 2 == ba && i <= nIn + 1
      invariant log == IssuedBelow(ch, tid, nIn, b, o, ba, i)
    {
      var tile := ReadTile(ch, tid, nIn, b, o, i);
      PassStep(ch, tid, nIn, b, o, ba, i);
      log := log + tile;
      i := i + 2;
    }
    PassEnd(ch, tid, nIn, b, o, ba, i);
  }

  ghost function IssuedBelow(ch: nat, tid: nat, nIn: nat, b: nat, o: nat, ba: nat, n: nat): seq<Command> {
    Issues(Flat(InputTileOf(ch, tid, nIn, b, o, ba), n))
  }

  lemma PassStart(ch: nat, tid: nat, nIn: nat, b: nat, o: nat, ba: nat)
    requires ba < 2
    ensures IssuedBelow(ch, tid, nIn, b, o, ba, ba) == []
  {
    SkipFirst(InputTileOf(ch, tid, nIn, b, o, ba), ba);
  }

  lemma PassStep(ch: nat, tid: nat, nIn: nat, b: nat, o: nat, ba: nat, i: nat)
    requires i % 2 == ba
    ensures IssuedBelow(ch, tid, nIn, b, o, ba, i + 2)
         == IssuedBelow(ch, tid, nIn, b, o, ba, i) + Issues(InputTile(ch, tid, nIn, b, o, i))
    ensures (i + 2) % 2 == ba
  {
    var part := InputTileOf(ch, tid, nIn, b, o, ba);
    StepTwo(part, i);
    IssuesSum(Flat(part, i), part(i));
  }

  lemma PassEnd(ch: nat, tid: nat, nIn: nat, b: nat, o: nat, ba: nat, i: nat)
    requires i % 2 == ba && nIn <= i <= nIn + 1
    ensures IssuedBelow(ch, tid, nIn, b, o, ba, i) == Issues(Pass(ch, tid, nIn, b, o, ba))
  {
    SkipLast(InputTileOf(ch, tid, nIn, b, o, ba), nIn, i);
  }

  lemma SkipFirst(part: nat -> seq<Access>, ba: nat)
    requires ba < 2 && (ba == 1 ==> part(0) == [])
    ensures Flat(part, ba) == []
  {
  }

  lemma StepTwo(part: nat -> seq<Access>, i: nat)
    requires part(i + 1) == []
    ensures Flat(part, i + 2) == Flat(part, i) + part(i)
  {
    assert Flat(part, i + 1) + [] == Flat(part, i + 1);
  }

  lemma SkipLast(part: nat -> seq<Access>, n: nat, i: nat)
    requires n <= i <= n + 1 && (i == n + 1 ==> part(n) == [])
    ensures Flat(part, i) == Flat(part, n)
  {
    var before := Flat(part, n);
    assert before + [] == before;
  }

  method EnterPim(ch: nat, tid: nat) returns (log: seq<Command>)
    ensures log == Issues(Entered(ch, tid))
  {
    var offset := tid % 2 * 0x10;
    var addr := AddrGen(6, ch, 0, 0, 0, 0x3fff, 0x0);
    log := [Command(Enter, addr + offset, offset)];
  }

  method Drain(ch: nat, tid: nat, loc: nat) returns (log: seq<Command>)
    ensures log == Issues(Drained(ch, tid, loc))
  {
    var offset := tid % 2 * 0x10;
    var row, col := loc / COLUMNS, loc % COLUMNS;
    var addr := AddrGen(6, ch, 0, 0, 1, row, col);
    log := [Command(Partial, addr + offset, 0)];
    addr := AddrGen(6, ch, 0, 0, 0, 0x3fff, 0x0);
    log := log + [Command(Leave, addr + offset, offset)];
  }

  /** The body of the loop over the output tiles. */
  method ComputeTile(ch: nat, tid: nat, nIn: nat, nOut: nat, b: nat, o: nat) returns (log: seq<Command>)
    ensures log == Issues(OutputTile(ch, tid, nIn, nOut, b, o))
  {
    ghost var even, odd := Pass(ch, tid, nIn, b, o, 0), Pass(ch, tid, nIn, b, o, 1);
    log := EnterPim(ch, tid);
    var tiles := InputTiles(ch, tid, nIn, b, o, 0);
    log := log + tiles;
    IssuesSum(Entered(ch, tid), even);
    tiles := InputTiles(ch, tid, nIn, b, o, 1);
    log := log + tiles;
    IssuesSum(Entered(ch, tid) + even, odd);
    var loc := PartialCell(nOut, tid, b, o);
    var drain := Drain(ch, tid, loc);
    log := log + drain;
    IssuesSum(Entered(ch, tid) + even + odd, Drained(ch, tid, loc));
  }

  method ComputeBatches(ch: nat, tid: nat, batches: nat, nIn: nat, nOut: nat) returns (log: seq<Command>)
    ensures log == Issues(Plan(ch, tid, batches, nIn, nOut))
  {
    log := [];
    var b := 0;
    while b < batches
      invariant b <= batches
      invariant log == Issues(Flat(BatchOf(ch, tid, nIn, nOut), b))
    {
      var tiles := ComputeBatch(ch, tid, nIn, nOut, b);
      log := log + tiles;
      IssuesNext(BatchOf(ch, tid, nIn, nOut), b);
      b := b + 1;
    }
  }

  /** The loop over the output tiles of one batch. */
  method ComputeBatch(ch: nat, tid: nat, nIn: nat, nOut: nat, b: nat) returns (log: seq<Command>)
    ensures log == Issues(BatchOf(ch, tid, nIn, nOut)(b))
  {
    log := [];
    var o := 0;
    while o < nOut
      invariant o <= nOut
      invariant log == Issues(Flat(OutputTileOf(ch, tid, nIn, nOut, b), o))
    {
      var tile := ComputeTile(ch, tid, nIn, nOut, b, o);
      log := log + tile;
      IssuesNext(OutputTileOf(ch, tid, nIn, nOut, b), o);
      o := o + 1;
    }
  }

  // ----- the order of the commands -----

  /** Iteration i of a loop whose iterations issue `each` commands is found at i * each. */
  lemma {:induction false} FlatAt<T>(part: nat -> seq<T>, n: nat, each: nat, i: nat)
    requires forall k :: 0 <= k < n ==> |part(k)| == each
    requires i < n
    ensures |Flat(part, n)| == n * each && 0 <= i * each <= i * each + each <= n * each
    ensures Flat(part, n)[i * each..i * each + each] == part(i)
  {
    var before := Flat(part, n - 1);
    FlatLength(part, n - 1, each);
    OneMore(n - 1, each);
    if i < n - 1 {
      FlatAt(part, n - 1, each, i);
      assert Flat(part, n)[i * each..i * each + each] == before[i * each..i * each + each];
    }
  }

  lemma {:induction false} FlatLength<T>(part: nat -> seq<T>, n: nat, each: nat)
    requires forall k :: 0 <= k < n ==> |part(k)| == each
    ensures |Flat(part, n)| == n * each
  {
    if n > 0 {
      FlatLength(part, n - 1, each);
      OneMore(n - 1, each);
    }
  }

  /** In the loop over one parity, tile i is found after the i / 2 tiles before it. */
  lemma {:induction false} PassAt(part: nat -> seq<Access>, ba: nat, n: nat, i: nat)
    requires ba < 2 && forall k :: 0 <= k < n ==> |part(k)| == if k % 2 == ba then 9 else 0
    ensures |Flat(part, n)| == 9 * ((n + 1 - ba) / 2)
    ensures i < n && i % 2 == ba ==>
              9 * (i / 2) + 9 <= |Flat(part, n)| && Flat(part, n)[9 * (i / 2)..9 * (i / 2) + 9] == part(i)
  {
    if n > 0 {
      PassAt(part, ba, n - 1, i);
      AlikeNext(ba, n - 1);
      var before, last := Flat(part, n - 1), part(n - 1);
      if i < n - 1 && i % 2 == ba {
        assert (before + last)[9 * (i / 2)..9 * (i / 2) + 9] == before[9 * (i / 2)..9 * (i / 2) + 9];
      }
    }
  }

  lemma AlikeNext(ba: nat, n: nat)
    requires ba < 2
    ensures (n + 2 - ba) / 2 == (n + 1 - ba) / 2 + if n % 2 == ba then 1 else 0
    ensures n % 2 == ba ==> n / 2 == (n + 1 - ba) / 2
  {
  }

  lemma PassesAt(ch: nat, tid: nat, nIn: nat, b: nat, o: nat, ba: nat, i: nat)
    requires ba < 2
    ensures |Pass(ch, tid, nIn, b, o, ba)| == 9 * ((nIn + 1 - ba) / 2)
    ensures i < nIn && i % 2 == ba ==>
              && 9 * (i / 2) + 9 <= |Pass(ch, tid, nIn, b, o, ba)|
              && Pass(ch, tid, nIn, b, o, ba)[9 * (i / 2)..9 * (i / 2) + 9] == InputTile(ch, tid, nIn, b, o, i)
  {
    var part := InputTileOf(ch, tid, nIn, b, o, ba);
    forall k | 0 <= k < nIn ensures |part(k)| == if k % 2 == ba then 9 else 0 {
      TileLength(ch, tid, nIn, b, o, k);
    }
    PassAt(part, ba, nIn, i);
  }

  lemma TileLength(ch: nat, tid: nat, nIn: nat, b: nat, o: nat, i: nat)
    ensures |InputTile(ch, tid, nIn, b, o, i)| == 9
  {
  }

  /** Where tile i starts after the command that enters the mode. */
  function TileStart(nIn: nat, i: nat): nat {
    9 * (i / 2) + if i % 2 == 1 then 9 * ((nIn + 1) / 2) else 0
  }

  lemma OutputTileAt(ch: nat, tid: nat, nIn: nat, nOut: nat, b: nat, o: nat)
    ensures var tile, loc := OutputTile(ch, tid, nIn, nOut, b, o), PartialCell(nOut, tid, b, o);
      && |tile| == 9 * nIn + 3 && tile[0] == Entered(ch, tid)[0]
      && tile[9 * nIn + 1] == Drained(ch, tid, loc)[0] && tile[9 * nIn + 2] == Drained(ch, tid, loc)[1]
  {
    PassesAt(ch, tid, nIn, b, o, 0, 0);
    PassesAt(ch, tid, nIn, b, o, 1, 0);
    Halves(nIn);
  }

  lemma Halves(n: nat)
    ensures 9 * ((n + 1) / 2) + 9 * (n / 2) == 9 * n
  {
  }

  lemma InputTileAt(ch: nat, tid: nat, nIn: nat, nOut: nat, b: nat, o: nat, i: nat)
    requires i < nIn
    ensures var tile, a := OutputTile(ch, tid, nIn, nOut, b, o), 1 + TileStart(nIn, i);
            a + 9 <= |tile| && tile[a..a + 9] == InputTile(ch, tid, nIn, b, o, i)
  {
    var even, odd, drained, part := TileParts(ch, tid, nIn, nOut, b, o, i);
    Within(Entered(ch, tid), even, odd, drained, i % 2, 9 * (i / 2), 9);
  }

  lemma TileParts(ch: nat, tid: nat, nIn: nat, nOut: nat, b: nat, o: nat, i: nat)
      returns (even: seq<Access>, odd: seq<Access>, drained: seq<Access>, part: seq<Access>)
    requires i < nIn
    ensures OutputTile(ch, tid, nIn, nOut, b, o) == Entered(ch, tid) + even + odd + drained
    ensures |even| == 9 * ((nIn + 1) / 2) && part == if i % 2 == 0 then even else odd
    ensures 9 * (i / 2) + 9 <= |part| && part[9 * (i / 2)..9 * (i / 2) + 9] == InputTile(ch, tid, nIn, b, o, i)
  {
    even, odd := Pass(ch, tid, nIn, b, o, 0), Pass(ch, tid, nIn, b, o, 1);
    drained := Drained(ch, tid, PartialCell(nOut, tid, b, o));
    part := if i % 2 == 0 then even else odd;
    PassesAt(ch, tid, nIn, b, o, 0, i);
    PassesAt(ch, tid, nIn, b, o, 1, i);
  }

  lemma Within(entered: seq<Access>, even: seq<Access>, odd: seq<Access>, drained: seq<Access>, ba: nat, at: nat, n: nat)
    requires ba < 2 && |entered| == 1 && at + n <= if ba == 0 then |even| else |odd|
    ensures var a, all := 1 + at + (if ba == 1 then |even| else 0), entered + even + odd + drained;
            a + n <= |all| && all[a..a + n] == (if ba == 0 then even else odd)[at..at + n]
  {
  }

  /** Output tile o of batch b within the whole run. */
  lemma PlanAt(ch: nat, tid: nat, batches: nat, nIn: nat, nOut: nat, b: nat, o: nat) returns (s: nat)
    requires b < batches && o < nOut
    ensures s == (b * nOut + o) * (9 * nIn + 3)
    ensures s + (9 * nIn + 3) <= |Plan(ch, tid, batches, nIn, nOut)|
    ensures Plan(ch, tid, batches, nIn, nOut)[s..s + (9 * nIn + 3)] == OutputTile(ch, tid, nIn, nOut, b, o)
  {
    var each := 9 * nIn + 3;
    BatchLengths(ch, tid, batches, nIn, nOut);
    FlatAt(BatchOf(ch, tid, nIn, nOut), batches, nOut * each, b);
    TileLengths(ch, tid, nIn, nOut, b);
    FlatAt(OutputTileOf(ch, tid, nIn, nOut, b), nOut, each, o);
    s := Nested(Plan(ch, tid, batches, nIn, nOut), BatchOf(ch, tid, nIn, nOut)(b), b, o, nOut, each);
  }

  lemma Nested(all: seq<Access>, batch: seq<Access>, b: nat, o: nat, n: nat, each: nat) returns (s: nat)
    requires 0 <= b * (n * each) <= b * (n * each) + n * each <= |all|
    requires all[b * (n * each)..b * (n * each) + n * each] == batch
    requires 0 <= o * each <= o * each + each <= n * each
    ensures s == (b * n + o) * each && s + each <= |all| && all[s..s + each] == batch[o * each..o * each + each]
  {
    s := b * (n * each) + o * each;
    NestedPlace(b, o, n, each);
    SliceOfSlice(all, b * (n * each), batch, o * each, batch[o * each..o * each + each]);
  }

  lemma NestedPlace(b: int, o: int, n: int, each: int)
    ensures (b * n + o) * each == b * (n * each) + o * each
  {
    Regroup(b, n, each);
  }

  lemma TileLengths(ch: nat, tid: nat, nIn: nat, nOut: nat, b: nat)
    ensures forall o :: 0 <= o < nOut ==> |OutputTileOf(ch, tid, nIn, nOut, b)(o)| == 9 * nIn + 3
  {
    forall o | 0 <= o < nOut ensures |OutputTileOf(ch, tid, nIn, nOut, b)(o)| == 9 * nIn + 3 {
      OutputTileAt(ch, tid, nIn, nOut, b, o);
    }
  }

  lemma BatchLengths(ch: nat, tid: nat, batches: nat, nIn: nat, nOut: nat)
    ensures forall b :: 0 <= b < batches ==> |BatchOf(ch, tid, nIn, nOut)(b)| == nOut * (9 * nIn + 3)
  {
    forall b | 0 <= b < batches ensures |BatchOf(ch, tid, nIn, nOut)(b)| == nOut * (9 * nIn + 3) {
      TileLengths(ch, tid, nIn, nOut, b);
      FlatLength(OutputTileOf(ch, tid, nIn, nOut, b), nOut, 9 * nIn + 3);
    }
  }

  /** From a on: the operand from `source` into the register of the thread pair, then weights of the bank, four
      columns of a row and four of the next. */
  predicate TileIssued(log: seq<Command>, a: int, ch: nat, tid: nat, ba: int, row: int, source: int) {
    && 0 <= a && a + 9 <= |log| && 0 <= ba && 0 <= row && 0 <= source
    && log[a] == Command(Operand, AddrOf(6, Location(ch, 0, 0, 1, 0x3fff, 8 + tid / 2)) + tid % 2 * 0x10, source)
    && forall k :: 0 <= k < 8 ==>
         log[a + 1 + k]
         == Command(Weight, AddrOf(6, Location(ch, 0, 0, ba, row + k / 4, tid / 2 + k % 4 * 8)) + tid % 2 * 0x10, 0)
  }

  /** Tile i of an output tile that starts at s: behind the tiles of its parity that come before it, and if its
      index is odd behind all those of even index. */
  predicate TileInPlace(log: seq<Command>, s: int, ch: nat, tid: nat, nIn: nat, b: nat, o: nat, i: int) {
    TileIssued(log, s + 1 + 9 * (i / 2) + (if i % 2 == 1 then 9 * ((nIn + 1) / 2) else 0), ch, tid,
               i % 2, 2 * (i / 2 + o * nIn / 2), ((b * nIn + i) * 8 + tid / 2) * 32 + tid % 2 * 0x10)
  }

  /** From s on: the mode is entered, all tiles are fed, those of even index before those of odd index, the partial
      sums are written to cell loc, and the mode is left. */
  predicate OutputIssued(log: seq<Command>, s: int, loc: int, ch: nat, tid: nat, nIn: nat, b: nat, o: nat) {
    && 0 <= s && 0 <= loc && s + 9 * nIn + 3 <= |log|
    && log[s] == Command(Enter, AddrOf(6, Location(ch, 0, 0, 0, 0x3fff, 0)) + tid % 2 * 0x10, tid % 2 * 0x10)
    && (forall i :: 0 <= i < nIn ==> TileInPlace(log, s, ch, tid, nIn, b, o, i))
    && log[s + 9 * nIn + 1]
       == Command(Partial, AddrOf(6, Location(ch, 0, 0, 1, loc / 32, loc % 32)) + tid % 2 * 0x10, 0)
    && log[s + 9 * nIn + 2]
       == Command(Leave, AddrOf(6, Location(ch, 0, 0, 0, 0x3fff, 0)) + tid % 2 * 0x10, tid % 2 * 0x10)
  }

  lemma RowCommand(ch: nat, tid: nat, ba: nat, row: nat, k: nat)
    requires k < 4
    ensures Issues(RowReads(ch, tid, ba, row))[k]
         == Command(Weight, AddrOf(6, Location(ch, 0, 0, ba, row, tid / 2 + k * 8)) + tid % 2 * 0x10, 0)
  {
  }

  lemma WeightCommands(ch: nat, tid: nat, ba: nat, row: nat) returns (weights: seq<Command>)
    ensures weights == Issues(RowReads(ch, tid, ba, row)) + Issues(RowReads(ch, tid, ba, row + 1)) && |weights| == 8
    ensures forall k :: 0 <= k < 8 ==>
              weights[k]
              == Command(Weight, AddrOf(6, Location(ch, 0, 0, ba, row + k / 4, tid / 2 + k % 4 * 8)) + tid % 2 * 0x10, 0)
  {
    weights := Issues(RowReads(ch, tid, ba, row)) + Issues(RowReads(ch, tid, ba, row + 1));
    forall k | 0 <= k < 8
      ensures weights[k]
           == Command(Weight, AddrOf(6, Location(ch, 0, 0, ba, row + k / 4, tid / 2 + k % 4 * 8)) + tid % 2 * 0x10, 0)
    {
      RowCommand(ch, tid, ba, row + k / 4, k % 4);
    }
  }

  lemma OperandCommand(ch: nat, tid: nat, nIn: nat, b: nat, i: nat) returns (operand: Command, source: int)
    ensures source == ((b * nIn + i) * 8 + tid / 2) * 32 + tid % 2 * 0x10 && source >= 0
    ensures operand == Issue(OperandWrite(ch, tid, nIn, b, i))
         == Command(Operand, AddrOf(6, Location(ch, 0, 0, 1, 0x3fff, 8 + tid / 2)) + tid % 2 * 0x10, source)
  {
    operand, source := Issue(OperandWrite(ch, tid, nIn, b, i)), OperandSource(tid, nIn, b, i);
  }

  lemma TileCommands(ch: nat, tid: nat, nIn: nat, b: nat, o: nat, i: nat) returns (row: int, source: int)
    ensures row == 2 * (i / 2 + o * nIn / 2) && source == ((b * nIn + i) * 8 + tid / 2) * 32 + tid % 2 * 0x10
    ensures TileIssued(Issues(InputTile(ch, tid, nIn, b, o, i)), 0, ch, tid, i % 2, row, source)
  {
    var operand;
    row := InputRow(nIn, o, i);
    operand, source := OperandCommand(ch, tid, nIn, b, i);
    var weights := WeightCommands(ch, tid, i % 2, row);
    TileIssues(ch, tid, nIn, b, o, i);
    JoinTile(operand, weights, ch, tid, i % 2, row, source, Issues(InputTile(ch, tid, nIn, b, o, i)));
  }

  lemma JoinTile(operand: Command, weights: seq<Command>, ch: nat, tid: nat, ba: nat, row: nat, source: nat,
                 log: seq<Command>)
    requires |weights| == 8 && log == [operand] + weights
    requires operand == Command(Operand, AddrOf(6, Location(ch, 0, 0, 1, 0x3fff, 8 + tid / 2)) + tid % 2 * 0x10, source)
    requires forall k :: 0 <= k < 8 ==>
      weights[k]
      == Command(Weight, AddrOf(6, Location(ch, 0, 0, ba, row + k / 4, tid / 2 + k % 4 * 8)) + tid % 2 * 0x10, 0)
    ensures TileIssued(log, 0, ch, tid, ba, row, source)
  {
    assert forall k :: 0 <= k < 8 ==> log[0 + 1 + k] == weights[k];
  }

  /** A tile is issued where its commands are found. */
  lemma TileMoved(part: seq<Command>, log: seq<Command>, a: int, ch: nat, tid: nat, ba: int, row: int, source: int)
    requires TileIssued(part, 0, ch, tid, ba, row, source) && 0 <= a && a + 9 <= |log| && |part| == 9
    requires log[a..a + 9] == part
    ensures TileIssued(log, a, ch, tid, ba, row, source)
  {
    forall j {:trigger part[j]} | 0 <= j < 9 ensures part[j] == log[a + j] {
      assert log[a..a + 9][j] == log[a + j];
    }
  }

  lemma IssuesSlice(plan: seq<Access>, a: nat, n: nat)
    requires a + n <= |plan|
    ensures Issues(plan)[a..a + n] == Issues(plan[a..a + n])
  {
  }

  /** All of output tile o of batch b. */
  lemma OutputCommands(ch: nat, tid: nat, batches: nat, nIn: nat, nOut: nat, b: nat, o: nat)
      returns (s: nat, loc: nat)
    requires b < batches && o < nOut
    ensures s == (b * nOut + o) * (9 * nIn + 3) && loc == (b * nOut + o) * 8 + tid / 2
    ensures OutputIssued(Issues(Plan(ch, tid, batches, nIn, nOut)), s, loc, ch, tid, nIn, b, o)
  {
    s := PlanAt(ch, tid, batches, nIn, nOut, b, o);
    loc := CellOf(nOut, tid, b, o);
    OutputFound(ch, tid, nIn, nOut, b, o, Plan(ch, tid, batches, nIn, nOut), s, loc);
  }

  lemma CellOf(nOut: nat, tid: nat, b: nat, o: nat) returns (loc: nat)
    ensures loc == PartialCell(nOut, tid, b, o) == (b * nOut + o) * 8 + tid / 2
  {
    loc := PartialCell(nOut, tid, b, o);
  }

  lemma OutputFound(ch: nat, tid: nat, nIn: nat, nOut: nat, b: nat, o: nat, plan: seq<Access>, s: nat, loc: nat)
    requires s + (9 * nIn + 3) <= |plan| && loc == PartialCell(nOut, tid, b, o)
    requires plan[s..s + (9 * nIn + 3)] == OutputTile(ch, tid, nIn, nOut, b, o)
    ensures OutputIssued(Issues(plan), s, loc, ch, tid, nIn, b, o)
  {
    forall i | 0 <= i < nIn ensures TileInPlace(Issues(plan), s, ch, tid, nIn, b, o, i) {
      TileFound(ch, tid, nIn, nOut, b, o, i, plan, s);
    }
    OutputTileAt(ch, tid, nIn, nOut, b, o);
    EndsFound(ch, tid, nIn, loc, plan, s, OutputTile(ch, tid, nIn, nOut, b, o));
  }

  lemma EndsFound(ch: nat, tid: nat, nIn: nat, loc: nat, plan: seq<Access>, s: nat, tile: seq<Access>)
    requires s + (9 * nIn + 3) <= |plan| && plan[s..s + (9 * nIn + 3)] == tile && |tile| == 9 * nIn + 3
    requires tile[0] == Entered(ch, tid)[0]
    requires tile[9 * nIn + 1] == Drained(ch, tid, loc)[0] && tile[9 * nIn + 2] == Drained(ch, tid, loc)[1]
    ensures var log := Issues(plan);
      && log[s] == Command(Enter, AddrOf(6, Location(ch, 0, 0, 0, 0x3fff, 0)) + tid % 2 * 0x10, tid % 2 * 0x10)
      && log[s + 9 * nIn + 1]
         == Command(Partial, AddrOf(6, Location(ch, 0, 0, 1, loc / 32, loc % 32)) + tid % 2 * 0x10, 0)
      && log[s + 9 * nIn + 2]
         == Command(Leave, AddrOf(6, Location(ch, 0, 0, 0, 0x3fff, 0)) + tid % 2 * 0x10, tid % 2 * 0x10)
  {
    assert plan[s] == tile[0] && plan[s + 9 * nIn + 1] == tile[9 * nIn + 1] && plan[s + 9 * nIn + 2] == tile[9 * nIn + 2];
  }

  lemma TileFound(ch: nat, tid: nat, nIn: nat, nOut: nat, b: nat, o: nat, i: nat, plan: seq<Access>, s: nat)
    requires i < nIn && s + (9 * nIn + 3) <= |plan|
    requires plan[s..s + (9 * nIn + 3)] == OutputTile(ch, tid, nIn, nOut, b, o)
    ensures TileInPlace(Issues(plan), s, ch, tid, nIn, b, o, i)
  {
    var a := CommandsFound(ch, tid, nIn, nOut, b, o, i, plan, s);
    var row, source := TileCommands(ch, tid, nIn, b, o, i);
    TileMoved(Issues(InputTile(ch, tid, nIn, b, o, i)), Issues(plan), a, ch, tid, i % 2, row, source);
  }

  lemma CommandsFound(ch: nat, tid: nat, nIn: nat, nOut: nat, b: nat, o: nat, i: nat, plan: seq<Access>, s: nat)
      returns (a: nat)
    requires i < nIn && s + (9 * nIn + 3) <= |plan|
    requires plan[s..s + (9 * nIn + 3)] == OutputTile(ch, tid, nIn, nOut, b, o)
    ensures a == s + 1 + 9 * (i / 2) + (if i % 2 == 1 then 9 * ((nIn + 1) / 2) else 0) && a + 9 <= |plan|
    ensures |InputTile(ch, tid, nIn, b, o, i)| == 9 && Issues(plan)[a..a + 9] == Issues(InputTile(ch, tid, nIn, b, o, i))
  {
    var within: nat, tile, part := 1 + TileStart(nIn, i), OutputTile(ch, tid, nIn, nOut, b, o), InputTile(ch, tid, nIn, b, o, i);
    a := s + within;
    InputTileAt(ch, tid, nIn, nOut, b, o, i);
    TileLength(ch, tid, nIn, b, o, i);
    SliceOfSlice(plan, s, tile, within, part);
    IssuesSlice(plan, a, 9);
  }

  lemma SliceOfSlice<T>(all: seq<T>, s: nat, whole: seq<T>, a: nat, part: seq<T>)
    requires s + |whole| <= |all| && all[s..s + |whole|] == whole
    requires a + |part| <= |whole| && whole[a..a + |part|] == part
    ensures all[s + a..s + a + |part|] == part
  {
    forall j | 0 <= j < |part| ensures all[s + a..s + a + |part|][j] == part[j] {
      assert part[j] == whole[a + j] == all[s..s + |whole|][a + j];
    }
  }

  /** Output tile o of batch b is issued behind all those before it. */
  predicate OutputInPlace(log: seq<Command>, ch: nat, tid: nat, nIn: nat, nOut: nat, b: int, o: int)
    requires 0 <= b && 0 <= o
  {
    OutputIssued(log, (b * nOut + o) * (9 * nIn + 3), (b * nOut + o) * 8 + tid / 2, ch, tid, nIn, b, o)
  }

  lemma AllInPlace(ch: nat, tid: nat, batches: nat, nIn: nat, nOut: nat, log: seq<Command>)
    requires log == Issues(Plan(ch, tid, batches, nIn, nOut))
    ensures |log| == batches * (nOut * (9 * nIn + 3))
    ensures forall b, o :: 0 <= b < batches && 0 <= o < nOut ==> OutputInPlace(log, ch, tid, nIn, nOut, b, o)
  {
    PlanLength(ch, tid, batches, nIn, nOut);
    forall b, o | 0 <= b < batches && 0 <= o < nOut ensures OutputInPlace(log, ch, tid, nIn, nOut, b, o) {
      OneInPlace(ch, tid, batches, nIn, nOut, b, o, log);
    }
  }

  lemma PlanLength(ch: nat, tid: nat, batches: nat, nIn: nat, nOut: nat)
    ensures |Plan(ch, tid, batches, nIn, nOut)| == batches * (nOut * (9 * nIn + 3))
  {
    BatchLengths(ch, tid, batches, nIn, nOut);
    FlatLength(BatchOf(ch, tid, nIn, nOut), batches, nOut * (9 * nIn + 3));
  }

  lemma OneInPlace(ch: nat, tid: nat, batches: nat, nIn: nat, nOut: nat, b: nat, o: nat, log: seq<Command>)
    requires b < batches && o < nOut && log == Issues(Plan(ch, tid, batches, nIn, nOut))
    ensures OutputInPlace(log, ch, tid, nIn, nOut, b, o)
  {
    var s, loc := OutputCommands(ch, tid, batches, nIn, nOut, b, o);
    InPlace(log, s, loc, ch, tid, nIn, nOut, b, o);
  }

  lemma InPlace(log: seq<Command>, s: int, loc: int, ch: nat, tid: nat, nIn: nat, nOut: nat, b: nat, o: nat)
    requires s == (b * nOut + o) * (9 * nIn + 3) && loc == (b * nOut + o) * 8 + tid / 2
    requires OutputIssued(log, s, loc, ch, tid, nIn, b, o)
    ensures OutputInPlace(log, ch, tid, nIn, nOut, b, o)
  {
  }

  /** The compute loops, and the place of every command that they issue. */
  method Compute(ch: nat, tid: nat, batches: nat, nIn: nat, nOut: nat) returns (log: seq<Command>)
    ensures log == Issues(Plan(ch, tid, batches, nIn, nOut))
    ensures |log| == batches * (nOut * (9 * nIn + 3))
    ensures forall b, o :: 0 <= b < batches && 0 <= o < nOut ==> OutputInPlace(log, ch, tid, nIn, nOut, b, o)
  {
    log := ComputeBatches(ch, tid, batches, nIn, nOut);
    AllInPlace(ch, tid, batches, nIn, nOut, log);
  }

  // ----- counting -----

  function Once(yes: bool): nat {
    if yes then 1 else 0
  }

  function Count<T(==)>(log: seq<T>, x: T): nat {
    if log == [] then 0 else Count(log[..|log| - 1], x) + Once(log[|log| - 1] == x)
  }

  lemma {:induction false} CountSum<T>(a: seq<T>, b: seq<T>, x: T)
    ensures Count(a + b, x) == Count(a, x) + Count(b, x)
  {
    if b == [] {
      assert a + b == a;
    } else {
      assert (a + b)[..|a + b| - 1] == a + b[..|b| - 1];
      CountSum(a, b[..|b| - 1], x);
    }
  }

  function Sum(f: nat -> nat, n: nat): nat {
    if n == 0 then 0 else Sum(f, n - 1) + f(n - 1)
  }

  lemma {:induction false} CountFlat<T>(part: nat -> seq<T>, n: nat, x: T, each: nat -> nat)
    requires forall i :: 0 <= i < n ==> Count(part(i), x) == each(i)
    ensures Count(Flat(part, n), x) == Sum(each, n)
  {
    if n > 0 {
      CountFlat(part, n - 1, x, each);
      CountSum(Flat(part, n - 1), part(n - 1), x);
    }
  }

  lemma {:induction false} SumConstant(f: nat -> nat, n: nat, each: nat)
    requires forall i :: 0 <= i < n ==> f(i) == each
    ensures Sum(f, n) == n * each
  {
    if n > 0 {
      SumConstant(f, n - 1, each);
      OneMore(n - 1, each);
    }
  }

  lemma {:induction false} CountIsMultiplicity<T>(log: seq<T>, x: T)
    ensures Count(log, x) == multiset(log)[x]
  {
    if log != [] {
      CountIsMultiplicity(log[..|log| - 1], x);
      assert log == log[..|log| - 1] + [log[|log| - 1]];
    }
  }

  lemma CountOne<T>(a: T, x: T)
    ensures Count([a], x) == Once(a == x)
  {
    assert Count([], x) == 0;
    assert [a][..0] == [];
  }

  /** Counting the issued addresses is counting the accesses: no two of them share an address. */
  lemma {:induction false} CountIssues(plan: seq<Access>, x: Access)
    requires AllExist(plan) && Exists(x.target)
    ensures Count(Issues(plan), Issue(x)) == Count(plan, x)
  {
    if plan != [] {
      var init, last := plan[..|plan| - 1], plan[|plan| - 1];
      CountIssues(init, x);
      assert Issues(plan)[..|plan| - 1] == Issues(init);
      IssueInjective(last, x);
    }
  }

  lemma IssueInjective(a: Access, x: Access)
    requires Exists(a.target) && Exists(x.target)
    ensures Issue(a) == Issue(x) <==> a == x
  {
    var s, t := a.target, x.target;
    HalfInjective(s.ch, s.half, s.ba, s.row, s.col, t.ch, t.half, t.ba, t.row, t.col);
  }


  // ----- how often each half of a weight burst is read -----

  function ReadOf(t: Target): Access {
    Access(Weight, t, 0)
  }

  /** The thread that is responsible for the target. */
  predicate Mine(ch: nat, tid: nat, t: Target) {
    t.ch == ch && tid == 2 * (t.col % 8) + t.half
  }

  lemma SplitThread(tid: nat, k: nat, col: nat, half: nat)
    requires tid < THREADS && half < 2
    ensures tid % 2 == half && tid / 2 + 8 * k == col <==> tid == 2 * (col % 8) + half && k == col / 8
  {
  }

  lemma CountFour<T>(a: T, b: T, c: T, d: T, x: T)
    ensures Count([a, b, c, d], x) == Once(a == x) + Once(b == x) + Once(c == x) + Once(d == x)
  {
    CountOne(a, x);
    CountOne(b, x);
    CountOne(c, x);
    CountOne(d, x);
    CountSum([a], [b], x);
    CountSum([a] + [b], [c], x);
    CountSum([a] + [b] + [c], [d], x);
    assert [a, b, c, d] == [a] + [b] + [c] + [d];
  }

  lemma CountRow(ch: nat, tid: nat, ba: nat, row: nat, t: Target)
    requires InGrid(ch, tid) && Exists(t) && ba < 2
    ensures Count(RowReads(ch, tid, ba, row), ReadOf(t)) == Once(Mine(ch, tid, t) && ba == t.ba && row == t.row)
  {
    SplitThread(tid, 0, t.col, t.half);
    SplitThread(tid, 1, t.col, t.half);
    SplitThread(tid, 2, t.col, t.half);
    SplitThread(tid, 3, t.col, t.half);
    var log := RowReads(ch, tid, ba, row);
    CountFour(log[0], log[1], log[2], log[3], ReadOf(t));
  }

  lemma CountTile(ch: nat, tid: nat, nIn: nat, b: nat, o: nat, i: nat, t: Target)
    requires InGrid(ch, tid) && Exists(t)
    ensures Count(InputTile(ch, tid, nIn, b, o, i), ReadOf(t))
         == Once(Mine(ch, tid, t) && i % 2 == t.ba && i / 2 + o * nIn / 2 == t.row / 2)
  {
    var row := InputRow(nIn, o, i);
    CountRow(ch, tid, i % 2, row, t);
    CountRow(ch, tid, i % 2, row + 1, t);
    var first, second := RowReads(ch, tid, i % 2, row), RowReads(ch, tid, i % 2, row + 1);
    var operand := OperandWrite(ch, tid, nIn, b, i);
    CountSum([operand] + first, second, ReadOf(t));
    CountSum([operand], first, ReadOf(t));
    CountOne(operand, ReadOf(t));
  }

  /** With r row pairs before it, the tile reads row pair q of bank ba at iteration i. */
  function MeetsAt(yes: bool, r: nat, q: nat, ba: nat): nat -> nat {
    (i: nat) => Once(yes && i % 2 == ba && i / 2 + r == q)
  }

  /** That happens at one iteration at most. */
  lemma {:induction false} SumMeets(yes: bool, r: nat, q: nat, ba: nat, n: nat)
    requires ba < 2
    ensures Sum(MeetsAt(yes, r, q, ba), n) == Once(yes && 0 <= 2 * (q - r) + ba < n)
  {
    if n > 0 {
      SumMeets(yes, r, q, ba, n - 1);
    }
  }

  lemma CountPass(ch: nat, tid: nat, nIn: nat, b: nat, o: nat, ba: nat, t: Target)
    requires InGrid(ch, tid) && Exists(t) && ba < 2
    ensures Count(Pass(ch, tid, nIn, b, o, ba), ReadOf(t))
         == Once(Mine(ch, tid, t) && ba == t.ba && Hit(nIn, o, t.ba, t.row))
  {
    var part := InputTileOf(ch, tid, nIn, b, o, ba);
    var each := MeetsAt(Mine(ch, tid, t) && ba == t.ba, o * nIn / 2, t.row / 2, t.ba);
    forall i | 0 <= i < nIn ensures Count(part(i), ReadOf(t)) == each(i) {
      CountTile(ch, tid, nIn, b, o, i, t);
    }
    CountFlat(part, nIn, ReadOf(t), each);
    SumMeets(Mine(ch, tid, t) && ba == t.ba, o * nIn / 2, t.row / 2, t.ba, nIn);
  }

  /** Output tile o reads the row from the bank, by the one input tile that maps there. */
  predicate Hit(nIn: nat, o: nat, ba: nat, row: nat) {
    0 <= 2 * (row / 2 - o * nIn / 2) + ba < nIn
  }

  lemma CountOutputTile(ch: nat, tid: nat, nIn: nat, nOut: nat, b: nat, o: nat, t: Target)
    requires InGrid(ch, tid) && Exists(t)
    ensures Count(OutputTile(ch, tid, nIn, nOut, b, o), ReadOf(t)) == Once(Mine(ch, tid, t) && Hit(nIn, o, t.ba, t.row))
  {
    CountPass(ch, tid, nIn, b, o, 0, t);
    CountPass(ch, tid, nIn, b, o, 1, t);
    var even, odd := Pass(ch, tid, nIn, b, o, 0), Pass(ch, tid, nIn, b, o, 1);
    var loc := PartialCell(nOut, tid, b, o);
    CountSum(Entered(ch, tid), even, ReadOf(t));
    CountSum(Entered(ch, tid) + even, odd, ReadOf(t));
    CountSum(Entered(ch, tid) + even + odd, Drained(ch, tid, loc), ReadOf(t));
    CountEnds(ch, tid, loc, ReadOf(t));
  }

  lemma CountEnds(ch: nat, tid: nat, loc: nat, x: Access)
    requires x.kind == Weight || x.kind == Partial
    ensures Count(Entered(ch, tid), x) == 0
    ensures Count(Drained(ch, tid, loc), x) == Once(x == PartialAt(ch, tid % 2, loc))
  {
    var e, d := Entered(ch, tid), Drained(ch, tid, loc);
    CountOne(e[0], x);
    CountOne(d[0], x);
    CountOne(d[1], x);
    CountSum([d[0]], [d[1]], x);
    assert d == [d[0]] + [d[1]];
  }

  function HitAt(nIn: nat, ba: nat, row: nat): nat -> nat {
    (o: nat) => Once(Hit(nIn, o, ba, row))
  }

  /** How many of the first n output tiles read the row from the bank. */
  function Hits(nIn: nat, n: nat, ba: nat, row: nat): nat {
    Sum(HitAt(nIn, ba, row), n)
  }

  lemma CountBatch(ch: nat, tid: nat, nIn: nat, nOut: nat, b: nat, t: Target)
    requires InGrid(ch, tid) && Exists(t)
    ensures Count(BatchOf(ch, tid, nIn, nOut)(b), ReadOf(t))
         == if Mine(ch, tid, t) then Hits(nIn, nOut, t.ba, t.row) else 0
  {
    var part := OutputTileOf(ch, tid, nIn, nOut, b);
    var each := if Mine(ch, tid, t) then HitAt(nIn, t.ba, t.row) else (o: nat) => 0;
    forall o | 0 <= o < nOut ensures Count(part(o), ReadOf(t)) == each(o) {
      CountOutputTile(ch, tid, nIn, nOut, b, o, t);
    }
    CountFlat(part, nOut, ReadOf(t), each);
    if !Mine(ch, tid, t) {
      SumConstant(each, nOut, 0);
    }
  }

  lemma CountPlan(ch: nat, tid: nat, batches: nat, nIn: nat, nOut: nat, t: Target)
    requires InGrid(ch, tid) && Exists(t)
    ensures Count(Plan(ch, tid, batches, nIn, nOut), ReadOf(t))
         == if Mine(ch, tid, t) then batches * Hits(nIn, nOut, t.ba, t.row) else 0
  {
    var n := if Mine(ch, tid, t) then Hits(nIn, nOut, t.ba, t.row) else 0;
    var part, each := BatchOf(ch, tid, nIn, nOut), (b: nat) => n;
    forall b | 0 <= b < batches ensures Count(part(b), ReadOf(t)) == each(b) {
      CountBatch(ch, tid, nIn, nOut, b, t);
    }
    CountFlat(part, batches, ReadOf(t), each);
    SumConstant(each, batches, n);
  }


  // ----- every access lies in the layout -----

  lemma {:induction false} FlatExists(part: nat -> seq<Access>, n: nat)
    requires forall i :: 0 <= i < n ==> AllExist(part(i))
    ensures AllExist(Flat(part, n))
  {
    if n > 0 {
      FlatExists(part, n - 1);
    }
  }

  lemma PassExists(ch: nat, tid: nat, nIn: nat, b: nat, o: nat, ba: nat)
    requires InGrid(ch, tid)
    ensures AllExist(Pass(ch, tid, nIn, b, o, ba))
  {
    var part := InputTileOf(ch, tid, nIn, b, o, ba);
    forall i | 0 <= i < nIn ensures AllExist(part(i)) {
      TileExists(ch, tid, nIn, b, o, i);
    }
    FlatExists(part, nIn);
  }

  lemma TileExists(ch: nat, tid: nat, nIn: nat, b: nat, o: nat, i: nat)
    requires InGrid(ch, tid)
    ensures AllExist(InputTile(ch, tid, nIn, b, o, i))
  {
  }

  lemma OutputTileExists(ch: nat, tid: nat, nIn: nat, nOut: nat, b: nat, o: nat)
    requires InGrid(ch, tid)
    ensures AllExist(OutputTile(ch, tid, nIn, nOut, b, o))
  {
    PassExists(ch, tid, nIn, b, o, 0);
    PassExists(ch, tid, nIn, b, o, 1);
  }

  lemma PlanExists(ch: nat, tid: nat, batches: nat, nIn: nat, nOut: nat)
    requires InGrid(ch, tid)
    ensures AllExist(Plan(ch, tid, batches, nIn, nOut))
  {
    var batch := BatchOf(ch, tid, nIn, nOut);
    forall b | 0 <= b < batches ensures AllExist(batch(b)) {
      BatchExists(ch, tid, nIn, nOut, b);
    }
    FlatExists(batch, batches);
  }

  lemma BatchExists(ch: nat, tid: nat, nIn: nat, nOut: nat, b: nat)
    requires InGrid(ch, tid)
    ensures AllExist(BatchOf(ch, tid, nIn, nOut)(b))
  {
    var part := OutputTileOf(ch, tid, nIn, nOut, b);
    forall o | 0 <= o < nOut ensures AllExist(part(o)) {
      OutputTileExists(ch, tid, nIn, nOut, b, o);
    }
    FlatExists(part, nOut);
  }

  // ----- exact cover of the weights -----

  /** In the issued commands each half burst is read by its own thread alone, Hits times in every batch. */
  lemma WeightsRead(ch: nat, tid: nat, batches: nat, nIn: nat, nOut: nat, t: Target)
    requires InGrid(ch, tid) && Exists(t)
    ensures multiset(Issues(Plan(ch, tid, batches, nIn, nOut)))[Issue(ReadOf(t))]
         == if Mine(ch, tid, t) then batches * Hits(nIn, nOut, t.ba, t.row) else 0
  {
    PlanExists(ch, tid, batches, nIn, nOut);
    CountPlan(ch, tid, batches, nIn, nOut, t);
    CountIssues(Plan(ch, tid, batches, nIn, nOut), ReadOf(t));
    CountIsMultiplicity(Issues(Plan(ch, tid, batches, nIn, nOut)), Issue(ReadOf(t)));
  }

  lemma {:induction false} HitsOfEven(h: nat, n: nat, ba: nat, row: nat)
    requires ba < 2
    ensures Hits(2 * h, n, ba, row) == Once(row < 2 * h * n)
  {
    if n > 0 {
      HitsOfEven(h, n - 1, ba, row);
      HitOfEven(h, n - 1, ba, row);
      Grows(2 * h, n - 1, n);
      assert Hits(2 * h, n, ba, row) == Hits(2 * h, n - 1, ba, row) + Once(Hit(2 * h, n - 1, ba, row));
    }
  }

  lemma HitOfEven(h: nat, o: nat, ba: nat, row: nat)
    requires ba < 2
    ensures Hit(2 * h, o, ba, row) <==> 2 * h * o <= row < 2 * h * (o + 1)
  {
    var r := h * o;
    assert o * (2 * h) == 2 * r;
    assert 2 * h * (o + 1) == 2 * (r + h);
  }

  /** Both parities leave off at the same row pair only when the count is even. */
  lemma HitsOfOdd(h: nat, n: nat)
    ensures n == 1 ==> Hits(2 * h + 1, n, 1, 2 * h) == 0
    ensures n >= 2 ==> Hits(2 * h + 1, n, 0, 2 * h) >= 2
  {
    var f, g := HitAt(2 * h + 1, 0, 2 * h), HitAt(2 * h + 1, 1, 2 * h);
    assert f(0) == 1 && f(1) == 1 && g(0) == 0;
    assert Sum(g, 1) == 0 && Sum(f, 1) == 1 && Sum(f, 2) == 2;
    if n >= 2 {
      SumGrows(f, 2, n);
    }
  }

  lemma {:induction false} SumGrows(f: nat -> nat, m: nat, n: nat)
    requires m <= n
    ensures Sum(f, m) <= Sum(f, n)
  {
    if m < n {
      SumGrows(f, m, n - 1);
    }
  }

  /** Every burst of the weights exactly once per batch, and none outside them. */
  ghost predicate CoversExactly(nIn: nat, nOut: nat) {
    forall ba: nat, row: nat :: ba < 2 ==> Hits(nIn, nOut, ba, row) == Once(row < nIn * nOut)
  }

  /** The two loops cover the weights exactly when the number of input tiles is even. */
  lemma CoversWhenEven(nIn: nat, nOut: nat)
    ensures CoversExactly(nIn, nOut) <==> nIn % 2 == 0 || nOut == 0
  {
    var h := nIn / 2;
    if nIn % 2 == 0 {
      assert nIn == 2 * h;
      forall ba: nat, row: nat | ba < 2 ensures Hits(nIn, nOut, ba, row) == Once(row < nIn * nOut) {
        HitsOfEven(h, nOut, ba, row);
      }
    } else if nOut > 0 {
      assert nIn == 2 * h + 1;
      HitsOfOdd(h, nOut);
      Grows(nIn, 1, nOut);
      assert Hits(nIn, nOut, 1, 2 * h) == 0 || Hits(nIn, nOut, 0, 2 * h) >= 2;
    }
  }

  /** No burst is read twice in a batch exactly when the count is even or there is but one output tile. */
  lemma NoneTwiceWhenEven(nIn: nat, nOut: nat)
    ensures (forall ba: nat, row: nat :: ba < 2 ==> Hits(nIn, nOut, ba, row) <= 1) <==> nIn % 2 == 0 || nOut <= 1
  {
    var h := nIn / 2;
    if nIn % 2 == 0 {
      assert nIn == 2 * h;
      forall ba: nat, row: nat | ba < 2 ensures Hits(nIn, nOut, ba, row) <= 1 {
        HitsOfEven(h, nOut, ba, row);
      }
    } else if nOut > 1 {
      assert nIn == 2 * h + 1;
      HitsOfOdd(h, nOut);
      assert Hits(nIn, nOut, 0, 2 * h) >= 2;
    }
  }


  /** For an even number of input tiles: each half of each weight burst once per batch, by one thread. */
  lemma EachOncePerBatch(ch: nat, tid: nat, batches: nat, nIn: nat, nOut: nat, t: Target)
    requires InGrid(ch, tid) && Exists(t) && nIn % 2 == 0
    ensures multiset(Issues(Plan(ch, tid, batches, nIn, nOut)))[Issue(ReadOf(t))]
         == if Mine(ch, tid, t) && t.row < nIn * nOut then batches else 0
  {
    WeightsRead(ch, tid, batches, nIn, nOut, t);
    EvenHits(nIn, nOut, t.ba, t.row, batches);
  }

  lemma EvenHits(nIn: nat, nOut: nat, ba: nat, row: nat, batches: nat)
    requires nIn % 2 == 0 && ba < 2
    ensures batches * Hits(nIn, nOut, ba, row) == if row < nIn * nOut then batches else 0
  {
    assert nIn == 2 * (nIn / 2);
    HitsOfEven(nIn / 2, nOut, ba, row);
  }

  // ----- the partial sums -----

  lemma {:induction false} CountNone<T>(part: nat -> seq<T>, n: nat, x: T)
    requires forall i :: 0 <= i < n ==> Count(part(i), x) == 0
    ensures Count(Flat(part, n), x) == 0
  {
    if n > 0 {
      CountNone(part, n - 1, x);
      CountSum(Flat(part, n - 1), part(n - 1), x);
    }
  }

  lemma {:induction false} AbsentCount<T>(log: seq<T>, x: T)
    requires x !in log
    ensures Count(log, x) == 0
  {
    if log != [] {
      AbsentCount(log[..|log| - 1], x);
    }
  }

  lemma CountNoPartials(ch: nat, tid: nat, nIn: nat, b: nat, o: nat, ba: nat, x: Access)
    requires x.kind == Partial
    ensures Count(Pass(ch, tid, nIn, b, o, ba), x) == 0
  {
    var part := InputTileOf(ch, tid, nIn, b, o, ba);
    forall i | 0 <= i < nIn ensures Count(part(i), x) == 0 {
      AbsentCount(part(i), x);
    }
    CountNone(part, nIn, x);
  }

  lemma CountPartialTile(ch: nat, tid: nat, nIn: nat, nOut: nat, b: nat, o: nat, x: Access)
    requires x.kind == Partial
    ensures Count(OutputTile(ch, tid, nIn, nOut, b, o), x) == Once(x == PartialAt(ch, tid % 2, PartialCell(nOut, tid, b, o)))
  {
    var even, odd := Pass(ch, tid, nIn, b, o, 0), Pass(ch, tid, nIn, b, o, 1);
    var loc := PartialCell(nOut, tid, b, o);
    CountNoPartials(ch, tid, nIn, b, o, 0, x);
    CountNoPartials(ch, tid, nIn, b, o, 1, x);
    CountSum(Entered(ch, tid), even, x);
    CountSum(Entered(ch, tid) + even, odd, x);
    CountSum(Entered(ch, tid) + even + odd, Drained(ch, tid, loc), x);
    CountEnds(ch, tid, loc, x);
  }

  /** Cell loc belongs to the thread pair loc % 8 and to output tile loc / 8, counted over the batches. */
  lemma PartialOf(ch: nat, tid: nat, nOut: nat, b: nat, o: nat, ch': nat, half: nat, loc: nat)
    requires InGrid(ch, tid) && half < 2
    ensures PartialAt(ch', half, loc) == PartialAt(ch, tid % 2, PartialCell(nOut, tid, b, o))
       <==> ch' == ch && tid == 2 * (loc % GRF) + half && o == loc / GRF - b * nOut
  {
    CellSplit(b * nOut, o, tid, loc, half);
    SameBurst(loc, PartialCell(nOut, tid, b, o));
  }

  lemma CellSplit(r: int, o: int, tid: nat, loc: nat, half: nat)
    requires tid < THREADS && half < 2
    ensures loc == r * GRF + o * GRF + tid / 2 && half == tid % 2
       <==> tid == 2 * (loc % GRF) + half && o == loc / GRF - r
  {
  }

  /** One at the index k, if there is one. */
  function OneAt(k: int): nat -> nat {
    (i: nat) => Once(i == k)
  }

  lemma {:induction false} SumOneAt(k: int, n: nat)
    ensures Sum(OneAt(k), n) == Once(0 <= k < n)
  {
    if n > 0 {
      SumOneAt(k, n - 1);
      assert OneAt(k)(n - 1) == Once(n - 1 == k);
    }
  }

  predicate Writer(ch: nat, tid: nat, ch': nat, half: nat, loc: nat) {
    ch' == ch && tid == 2 * (loc % GRF) + half
  }

  lemma CountPartialBatch(ch: nat, tid: nat, nIn: nat, nOut: nat, b: nat, ch': nat, half: nat, loc: nat)
    requires InGrid(ch, tid) && half < 2
    ensures Count(BatchOf(ch, tid, nIn, nOut)(b), PartialAt(ch', half, loc))
         == Once(Writer(ch, tid, ch', half, loc) && 0 <= loc / GRF - b * nOut < nOut)
  {
    var part, x := OutputTileOf(ch, tid, nIn, nOut, b), PartialAt(ch', half, loc);
    var k := if Writer(ch, tid, ch', half, loc) then loc / GRF - b * nOut else -1;
    forall o | 0 <= o < nOut ensures Count(part(o), x) == OneAt(k)(o) {
      CountPartialTile(ch, tid, nIn, nOut, b, o, x);
      PartialOf(ch, tid, nOut, b, o, ch', half, loc);
    }
    CountFlat(part, nOut, x, OneAt(k));
    SumOneAt(k, nOut);
  }

  /** Each half of each cell is written once in the whole run, by one thread; no other cell is written. */
  lemma PartialsWritten(ch: nat, tid: nat, batches: nat, nIn: nat, nOut: nat, ch': nat, half: nat, loc: nat)
    requires InGrid(ch, tid) && ch' < CHANNELS && half < 2
    ensures multiset(Issues(Plan(ch, tid, batches, nIn, nOut)))[Issue(PartialAt(ch', half, loc))]
         == Once(Writer(ch, tid, ch', half, loc) && loc / GRF < batches * nOut)
  {
    var part, x := BatchOf(ch, tid, nIn, nOut), PartialAt(ch', half, loc);
    var k := if Writer(ch, tid, ch', half, loc) then BatchWith(loc / GRF, nOut) else -1;
    forall b | 0 <= b < batches ensures Count(part(b), x) == OneAt(k)(b) {
      CountPartialBatch(ch, tid, nIn, nOut, b, ch', half, loc);
      InBatch(loc / GRF, nOut, b);
    }
    CountFlat(part, batches, x, OneAt(k));
    SumOneAt(k, batches);
    BatchCount(loc / GRF, nOut, batches);
    PlanExists(ch, tid, batches, nIn, nOut);
    CountIssues(Plan(ch, tid, batches, nIn, nOut), x);
    CountIsMultiplicity(Issues(Plan(ch, tid, batches, nIn, nOut)), Issue(x));
  }

  /** The batch that output tile q falls in when each has n. */
  function BatchWith(q: nat, n: nat): int {
    if n == 0 then -1 else q / n
  }

  lemma InBatch(q: nat, n: nat, b: nat)
    ensures 0 <= q - b * n < n <==> b == BatchWith(q, n)
  {
    if n > 0 {
      if 0 <= q - b * n < n {
        DivUnique(q, n, b, q - b * n);
      }
      assert q == n * (q / n) + q % n;
    }
  }

  lemma BatchCount(q: nat, n: nat, batches: nat)
    ensures 0 <= BatchWith(q, n) < batches <==> q < batches * n
  {
    if n > 0 {
      DivBound(q, n, batches);
    }
  }

  // ----- the operands -----

  /** Half of burst g of the eight that input tile q, counted over the batches, brings into the registers. */
  function OperandFor(ch: nat, half: nat, g: nat, q: nat): Access {
    Access(Operand, Target(ch, half, 1, 0x3fff, 8 + g), (q * 8 + g) * 32 + half * 0x10)
  }

  predicate Feeder(ch: nat, tid: nat, ch': nat, half: nat, g: nat) {
    ch' == ch && tid == 2 * g + half
  }

  lemma OperandOf(ch: nat, tid: nat, nIn: nat, b: nat, i: nat, ch': nat, half: nat, g: nat, q: nat)
    requires InGrid(ch, tid) && half < 2 && g < GRF
    ensures OperandWrite(ch, tid, nIn, b, i) == OperandFor(ch', half, g, q)
       <==> Feeder(ch, tid, ch', half, g) && i == q - b * nIn
  {
    if tid / 2 == g && tid % 2 == half {
      SourceOf(b * nIn, tid, i, half, g, q);
    }
  }

  lemma SourceOf(r: int, tid: nat, i: int, half: nat, g: nat, q: int)
    requires half < 2 && g < GRF && tid / 2 == g && tid % 2 == half
    ensures (r * 8 + tid / 2 + i * 8) * 32 + tid % 2 * 0x10 == (q * 8 + g) * 32 + half * 0x10 <==> i == q - r
  {
  }

  lemma CountOperandTile(ch: nat, tid: nat, nIn: nat, b: nat, o: nat, i: nat, x: Access)
    requires x.kind == Operand
    ensures Count(InputTile(ch, tid, nIn, b, o, i), x) == Once(OperandWrite(ch, tid, nIn, b, i) == x)
  {
    var row := InputRow(nIn, o, i);
    var first, second := RowReads(ch, tid, i % 2, row), RowReads(ch, tid, i % 2, row + 1);
    var operand := OperandWrite(ch, tid, nIn, b, i);
    CountSum([operand] + first, second, x);
    CountSum([operand], first, x);
    CountOne(operand, x);
    AbsentCount(first, x);
    AbsentCount(second, x);
  }

  lemma CountOperandPass(ch: nat, tid: nat, nIn: nat, b: nat, o: nat, ba: nat, ch': nat, half: nat, g: nat, q: nat)
    requires InGrid(ch, tid) && half < 2 && g < GRF && ba < 2
    ensures Count(Pass(ch, tid, nIn, b, o, ba), OperandFor(ch', half, g, q))
         == Once(Feeder(ch, tid, ch', half, g) && 0 <= q - b * nIn < nIn && (q - b * nIn) % 2 == ba)
  {
    var part, x := InputTileOf(ch, tid, nIn, b, o, ba), OperandFor(ch', half, g, q);
    var k := if Feeder(ch, tid, ch', half, g) && (q - b * nIn) % 2 == ba then q - b * nIn else -1;
    forall i | 0 <= i < nIn ensures Count(part(i), x) == OneAt(k)(i) {
      CountOperandTile(ch, tid, nIn, b, o, i, x);
      OperandOf(ch, tid, nIn, b, i, ch', half, g, q);
    }
    CountFlat(part, nIn, x, OneAt(k));
    SumOneAt(k, nIn);
  }

  lemma CountOperandOutput(ch: nat, tid: nat, nIn: nat, nOut: nat, b: nat, o: nat, ch': nat, half: nat, g: nat, q: nat)
    requires InGrid(ch, tid) && half < 2 && g < GRF
    ensures Count(OutputTile(ch, tid, nIn, nOut, b, o), OperandFor(ch', half, g, q))
         == Once(Feeder(ch, tid, ch', half, g) && 0 <= q - b * nIn < nIn)
  {
    var x := OperandFor(ch', half, g, q);
    var even, odd := Pass(ch, tid, nIn, b, o, 0), Pass(ch, tid, nIn, b, o, 1);
    var drained := Drained(ch, tid, PartialCell(nOut, tid, b, o));
    CountOperandPass(ch, tid, nIn, b, o, 0, ch', half, g, q);
    CountOperandPass(ch, tid, nIn, b, o, 1, ch', half, g, q);
    CountSum(Entered(ch, tid), even, x);
    CountSum(Entered(ch, tid) + even, odd, x);
    CountSum(Entered(ch, tid) + even + odd, drained, x);
    AbsentCount(Entered(ch, tid), x);
    AbsentCount(drained, x);
  }

  lemma CountOperandBatch(ch: nat, tid: nat, nIn: nat, nOut: nat, b: nat, ch': nat, half: nat, g: nat, q: nat)
    requires InGrid(ch, tid) && half < 2 && g < GRF
    ensures Count(BatchOf(ch, tid, nIn, nOut)(b), OperandFor(ch', half, g, q))
         == if Feeder(ch, tid, ch', half, g) && b == BatchWith(q, nIn) then nOut else 0
  {
    var part, x := OutputTileOf(ch, tid, nIn, nOut, b), OperandFor(ch', half, g, q);
    var n := Once(Feeder(ch, tid, ch', half, g) && b == BatchWith(q, nIn));
    var each := (o: nat) => n;
    InBatch(q, nIn, b);
    forall o | 0 <= o < nOut ensures Count(part(o), x) == each(o) {
      CountOperandOutput(ch, tid, nIn, nOut, b, o, ch', half, g, q);
    }
    CountFlat(part, nOut, x, each);
    SumConstant(each, nOut, n);
  }

  function ManyAt(n: nat, k: int): nat -> nat {
    (i: nat) => if i == k then n else 0
  }

  lemma {:induction false} SumManyAt(n: nat, k: int, m: nat)
    ensures Sum(ManyAt(n, k), m) == if 0 <= k < m then n else 0
  {
    if m > 0 {
      SumManyAt(n, k, m - 1);
      assert ManyAt(n, k)(m - 1) == if m - 1 == k then n else 0;
    }
  }

  /** Each half of each input burst goes to its register once for every output tile, by one thread. */
  lemma OperandsFed(ch: nat, tid: nat, batches: nat, nIn: nat, nOut: nat, ch': nat, half: nat, g: nat, q: nat)
    requires InGrid(ch, tid) && ch' < CHANNELS && half < 2 && g < GRF
    ensures multiset(Issues(Plan(ch, tid, batches, nIn, nOut)))[Issue(OperandFor(ch', half, g, q))]
         == if Feeder(ch, tid, ch', half, g) && q < batches * nIn then nOut else 0
  {
    var part, x := BatchOf(ch, tid, nIn, nOut), OperandFor(ch', half, g, q);
    var k := if Feeder(ch, tid, ch', half, g) then BatchWith(q, nIn) else -1;
    forall b | 0 <= b < batches ensures Count(part(b), x) == ManyAt(nOut, k)(b) {
      CountOperandBatch(ch, tid, nIn, nOut, b, ch', half, g, q);
    }
    CountFlat(part, batches, x, ManyAt(nOut, k));
    SumManyAt(nOut, k, batches);
    BatchCount(q, nIn, batches);
    PlanExists(ch, tid, batches, nIn, nOut);
    CountIssues(Plan(ch, tid, batches, nIn, nOut), x);
    CountIsMultiplicity(Issues(Plan(ch, tid, batches, nIn, nOut)), Issue(x));
  }

  // ----- the reduction -----

  const REDUCERS: nat := 64

  /** The cell a reducing thread reads in step i, in the odd bank of its own bank group. */
  function ReducedCell(ch: nat, tid: nat, i: nat): nat {
    CellAddress(ch, tid / 16, tid / 8 % 2 * 2 + 1, GRF * i + tid % GRF)
  }

  function CellAddress(ch: nat, bg: nat, ba: nat, loc: nat): nat {
    AddrOf(6, Location(ch, 0, bg, ba, loc / COLUMNS, loc % COLUMNS))
  }

  /** A reducing thread reads the lower 16 of the 32 bytes of each of its cells. */
  predicate Reduced(bytes: seq<nat>, ch: nat, tid: nat, cells: nat) {
    |bytes| == 16 * cells && forall k :: 0 <= k < |bytes| ==> bytes[k] == ReducedCell(ch, tid, k / 16) + k % 16
  }

  method Reduce(ch: nat, tid: nat, batches: nat, nOut: nat, outputDim: nat) returns (bytes: seq<nat>)
    ensures Reduced(bytes, ch, tid, if ch * 64 + tid < outputDim then batches * nOut else 0)
    ensures forall k :: 0 <= k < |bytes| ==>
              bytes[k] == AddrOf(6, Location(ch, 0, tid / 16, tid / 8 % 2 * 2 + 1, k / 16 / 4, tid % 8 + k / 16 % 4 * 8))
                          + k % 16
  {
    var bg, ba := tid / 16, tid / 8 % 2 * 2 + 1;
    var outIdx := ch * 64 + tid;
    bytes := [];
    var i, cells := 0, batches * nOut;
    while i < cells
      invariant i <= cells
      invariant Reduced(bytes, ch, tid, if outIdx < outputDim then i else 0)
    {
      if outIdx < outputDim {
        var row, col := i / 4, tid % 8 + i % 4 * 8;
        var addr := AddrGen(6, ch, 0, bg, ba, row, col);
        CellNumber(tid, i);
        bytes := ReduceCell(bytes, ch, tid, i, addr);
      }
      i := i + 1;
    }
    forall k | 0 <= k < |bytes|
      ensures bytes[k]
           == AddrOf(6, Location(ch, 0, tid / 16, tid / 8 % 2 * 2 + 1, k / 16 / 4, tid % 8 + k / 16 % 4 * 8)) + k % 16
    {
      CellNumber(tid, k / 16);
    }
  }

  /** The loop over the bytes of one cell. */
  method ReduceCell(before: seq<nat>, ch: nat, tid: nat, i: nat, addr: nat) returns (bytes: seq<nat>)
    requires Reduced(before, ch, tid, i) && addr == ReducedCell(ch, tid, i)
    ensures Reduced(bytes, ch, tid, i + 1)
  {
    bytes := before;
    for j := 0 to 16
      invariant |bytes| == 16 * i + j
      invariant forall k :: 0 <= k < |bytes| ==> bytes[k] == ReducedCell(ch, tid, k / 16) + k % 16
    {
      DivUnique(16 * i + j, 16, i, j);
      bytes := bytes + [addr + j];
    }
  }

  lemma CellNumber(tid: nat, i: nat)
    ensures (GRF * i + tid % GRF) / COLUMNS == i / 4 && (GRF * i + tid % GRF) % COLUMNS == tid % 8 + i % 4 * 8
  {
  }

  /** Each written cell of each odd bank is read by one reducing thread in one step. */
  lemma ReducedOnce(ch: nat, tid: nat, i: nat, bg: nat, odd: nat, loc: nat)
    requires ch < CHANNELS && tid < REDUCERS && bg < 4 && odd < 2
    ensures ReducedCell(ch, tid, i) == CellAddress(ch, bg, 2 * odd + 1, loc)
       <==> tid == 16 * bg + 8 * odd + loc % GRF && i == loc / GRF
  {
    SixBits();
    var cell := GRF * i + tid % GRF;
    RowsInjective(6, Location(ch, 0, tid / 16, tid / 8 % 2 * 2 + 1, cell / COLUMNS, cell % COLUMNS),
                  Location(ch, 0, bg, 2 * odd + 1, loc / COLUMNS, loc % COLUMNS));
    SameBurst(cell, loc);
    ReducerSplit(tid, bg, odd, loc, i);
  }

  lemma ReducerSplit(tid: nat, bg: nat, odd: nat, loc: nat, i: nat)
    requires tid < REDUCERS && bg < 4 && odd < 2
    ensures tid / 16 == bg && tid / 8 % 2 * 2 + 1 == 2 * odd + 1 && GRF * i + tid % GRF == loc
       <==> tid == 16 * bg + 8 * odd + loc % GRF && i == loc / GRF
  {
    assert tid == 16 * (tid / 16) + 8 * (tid / 8 % 2) + tid % 8;
  }

  /** In bank 1 of bank group 0 a byte of a cell is read by a reducing thread exactly if it lies in the lower half
      and the compute thread of that half has written the cell; the upper halves are never read. */
  lemma ReducedAreWritten(ch: nat, tid: nat, batches: nat, nIn: nat, nOut: nat, outputDim: nat, bytes: seq<nat>,
                          loc: nat, j: nat)
    requires ch < CHANNELS && tid < GRF && j < 32
    requires Reduced(bytes, ch, tid, if ch * 64 + tid < outputDim then batches * nOut else 0)
    ensures Issue(PartialAt(ch, 0, loc)).address + j in bytes
       <==> j < 16 && ch * 64 + tid < outputDim
            && multiset(Issues(Plan(ch, 2 * tid, batches, nIn, nOut)))[Issue(PartialAt(ch, 0, loc))] == 1
  {
    PartialsWritten(ch, 2 * tid, batches, nIn, nOut, ch, 0, loc);
    BytesOfCells(ch, tid, if ch * 64 + tid < outputDim then batches * nOut else 0, bytes, loc, j);
    HalfCell(ch, loc);
  }

  lemma HalfCell(ch: nat, loc: nat)
    ensures Issue(PartialAt(ch, 0, loc)).address == CellAddress(ch, 0, 1, loc)
  {
  }

  lemma BytesOfCells(ch: nat, tid: nat, cells: nat, bytes: seq<nat>, loc: nat, j: nat)
    requires ch < CHANNELS && tid < GRF && j < 32 && Reduced(bytes, ch, tid, cells)
    ensures CellAddress(ch, 0, 1, loc) + j in bytes <==> j < 16 && loc % GRF == tid && loc / GRF < cells
  {
    var x := CellAddress(ch, 0, 1, loc) + j;
    if x in bytes {
      var k :| 0 <= k < |bytes| && bytes[k] == x;
      ByteBelongs(ch, tid, cells, bytes, k, loc, j);
    }
    if j < 16 && loc % GRF == tid && loc / GRF < cells {
      ByteIsRead(ch, tid, cells, bytes, loc, j);
    }
  }

  lemma ByteBelongs(ch: nat, tid: nat, cells: nat, bytes: seq<nat>, k: nat, loc: nat, j: nat)
    requires ch < CHANNELS && tid < GRF && j < 32 && Reduced(bytes, ch, tid, cells)
    requires k < |bytes| && bytes[k] == CellAddress(ch, 0, 1, loc) + j
    ensures j < 16 && loc % GRF == tid && loc / GRF < cells
  {
    ByteOfCell(ch, tid, k / 16, k % 16, loc, j);
    DivUnique(loc, GRF, k / 16, tid);
    DivBound(k, 16, cells);
  }

  lemma ByteIsRead(ch: nat, tid: nat, cells: nat, bytes: seq<nat>, loc: nat, j: nat)
    requires ch < CHANNELS && tid < GRF && j < 16 && Reduced(bytes, ch, tid, cells)
    requires loc % GRF == tid && loc / GRF < cells
    ensures CellAddress(ch, 0, 1, loc) + j in bytes
  {
    var k := 16 * (loc / GRF) + j;
    DivUnique(k, 16, loc / GRF, j);
    ByteOfCell(ch, tid, loc / GRF, j, loc, j);
    assert bytes[k] == CellAddress(ch, 0, 1, loc) + j;
  }

  lemma ByteOfCell(ch: nat, tid: nat, i: nat, b: nat, loc: nat, j: nat)
    requires ch < CHANNELS && tid < GRF && b < 16 && j < 32
    ensures ReducedCell(ch, tid, i) + b == CellAddress(ch, 0, 1, loc) + j <==> j == b && loc == GRF * i + tid
  {
    ReducedOnce(ch, tid, i, 0, 0, loc);
    SplitCell(tid, i, loc);
    CellAligned(ch, 1, GRF * i + tid % GRF);
    CellAligned(ch, 1, loc);
    SameByte(ReducedCell(ch, tid, i), b, CellAddress(ch, 0, 1, loc), j);
  }

  lemma SplitCell(tid: nat, i: nat, loc: nat)
    requires tid < GRF
    ensures tid == loc % GRF && i == loc / GRF <==> loc == GRF * i + tid
  {
    if loc == GRF * i + tid {
      DivUnique(loc, GRF, i, tid);
    }
    assert loc == GRF * (loc / GRF) + loc % GRF;
  }

  lemma CellAligned(ch: nat, ba: nat, loc: nat)
    requires ch < CHANNELS && ba < 4
    ensures CellAddress(ch, 0, ba, loc) % 32 == 0
  {
    SixBits();
    RowFits(6, Location(ch, 0, 0, ba, loc / COLUMNS, loc % COLUMNS));
  }

}
