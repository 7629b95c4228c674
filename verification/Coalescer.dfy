/** The trace coalescer: 16-byte accesses to 32-byte ones, and what the merged trace does to memory. */
module Coalescer {
  import opened Options

  datatype Kind = MemRead | MemWrite | Barrier

  /** A command as a value; `text` is the write data, a hexadecimal number with two digits per byte. */
  datatype Entry = Entry(kind: Kind, data: int, text: string)

  const TRANS_SIZE: int := 0x10
  const DIGITS: nat := 32
  const NUL: char := '\0'

  // ----- the write buffer -----

  /** The string that a NUL-terminated buffer holds. */
  function TextOf(buffer: seq<char>): string {
    if buffer == [] || buffer[0] == NUL then [] else [buffer[0]] + TextOf(buffer[1..])
  }

  lemma {:induction false} TextUpTo(buffer: seq<char>, n: nat)
    requires n < |buffer| && buffer[n] == NUL && NUL !in buffer[..n]
    ensures TextOf(buffer) == buffer[..n]
  {
    if n > 0 {
      assert buffer[..n][0] == buffer[0];
      assert buffer[1..][..n - 1] == buffer[..n][1..];
      TextUpTo(buffer[1..], n - 1);
    } else {
      assert buffer[..0] == [];
    }
  }

  lemma {:induction false} TextIsPrefix(buffer: seq<char>)
    ensures |TextOf(buffer)| <= |buffer| && buffer[..|TextOf(buffer)|] == TextOf(buffer)
    ensures NUL !in TextOf(buffer)
    ensures |TextOf(buffer)| < |buffer| ==> buffer[|TextOf(buffer)|] == NUL
  {
    if buffer != [] && buffer[0] != NUL {
      TextIsPrefix(buffer[1..]);
    }
  }

  function Least(a: nat, b: nat): nat {
    if a < b then a else b
  }

  /** The buffer after `w` was put in front of its first 32 characters. */
  function Shifted(buffer: seq<char>, w: string): (r: seq<char>)
    requires |buffer| == 65 && |w| <= 65
    ensures |r| == 65
  {
    var moved := Least(|TextOf(buffer)|, 32);
    seq(65, k requires 0 <= k < 65 =>
      if k < |w| then w[k]
      else if 32 <= k < 32 + moved then buffer[k - 32]
      else if k == 32 + moved then NUL
      else buffer[k])
  }

  class Cmd {
    var kind: Kind
    var data: int
    const writeData: array<char>

    ghost predicate Valid()
      reads this, writeData
    {
      writeData.Length == 65 && |TextOf(writeData[..])| < 65
    }

    ghost function Value(): Entry
      reads this, writeData
    {
      Entry(kind, data, TextOf(writeData[..]))
    }

    /** Without write data the buffer is left as it is allocated. */
    constructor (kind: Kind, data: int, writeData: Option<string>)
      requires writeData.Some? ==> |writeData.value| <= 64 && NUL !in writeData.value
      ensures fresh(this.writeData) && this.writeData.Length == 65 && this.kind == kind && this.data == data
      ensures writeData.Some? ==> Valid() && Value() == Entry(kind, data, writeData.value)
    {
      this.kind, this.data := kind, data;
      var buffer := new char[65];
      this.writeData := buffer;
      new;
      if writeData.Some? {
        var text := writeData.value;
        var i := 0;
        while i < |text|
          invariant i <= |text|
          invariant this.writeData[..i] == text[..i]
          modifies this.writeData
        {
          this.writeData[i] := text[i];
          i := i + 1;
        }
        this.writeData[i] := NUL;
        assert this.writeData[..][..i] == text;
        TextUpTo(this.writeData[..], i);
      }
    }

    /** The write data up to the terminator. */
    method Read() returns (text: string)
      requires Valid()
      ensures text == TextOf(writeData[..])
    {
      ghost var whole := TextOf(writeData[..]);
      TextIsPrefix(writeData[..]);
      assert forall k :: 0 <= k < |whole| ==> writeData[k] == whole[k];
      text := [];
      while writeData[|text|] != NUL
        invariant text <= whole
        decreases 65 - |text|
      {
        text := text + [writeData[|text|]];
      }
    }

    /** Moves the first 32 characters up by 32 and copies `w` in front of them. */
    method AppendData(w: string)
      requires Valid() && |w| <= 64 && NUL !in w
      modifies writeData
      ensures writeData[..] == Shifted(old(writeData[..]), w)
    {
      ghost var before := writeData[..];
      ghost var text := TextOf(before);
      TextIsPrefix(before);
      assert forall k :: 0 <= k < |text| ==> before[k] == text[k] && before[k] != NUL;
      var index := 0;
      while writeData[index] != NUL && index < 32
        invariant 0 <= index <= Least(|text|, 32)
        invariant forall k :: 0 <= k < 32 || 32 + index <= k < 65 ==> writeData[k] == before[k]
        invariant forall k :: 32 <= k < 32 + index ==> writeData[k] == before[k - 32]
        decreases 32 - index
      {
        assert index < |text|;
        writeData[index + 32] := writeData[index];
        index := index + 1;
      }
      assert index == Least(|text|, 32);
      writeData[index + 32] := NUL;
      ghost var moved := writeData[..];
      var i := 0;
      while i < |w|
        invariant i <= |w|
        invariant forall k :: i <= k < 65 ==> writeData[k] == moved[k]
        invariant forall k :: 0 <= k < i ==> writeData[k] == w[k]
      {
        writeData[i] := w[i];
        i := i + 1;
      }
    }
  }

  /** With 32 new digits, they end up in front of the first 32 old ones: the upper half of a little-endian number. */
  lemma ShiftedText(buffer: seq<char>, w: string)
    requires |buffer| == 65 && |w| == 32 && NUL !in w
    ensures TextOf(Shifted(buffer, w)) == w + TextOf(buffer)[..Least(|TextOf(buffer)|, 32)]
  {
    var r, n := Shifted(buffer, w), Least(|TextOf(buffer)|, 32);
    TextIsPrefix(buffer);
    assert r[..32 + n] == w + TextOf(buffer)[..n];
    TextUpTo(r, 32 + n);
  }


  // ----- one step of the loop -----

  datatype State = State(out: seq<Entry>, prevAddr: int, prevKind: Kind)

  function Last(s: seq<Entry>): Entry
    requires s != []
  {
    s[|s| - 1]
  }

  /** After a read or a write the last entry is the one the next command may join. */
  predicate Linked(s: State) {
    s.prevKind != Barrier ==> s.out != [] && Last(s.out).kind == s.prevKind && Last(s.out).data == s.prevAddr
  }

  predicate Joins(s: State, c: Entry) {
    c.kind != Barrier && s.prevAddr != -1 && s.prevKind == c.kind && s.prevAddr + TRANS_SIZE == c.data
  }

  /** A write of 16 bytes: 32 digits. */
  predicate Formed(c: Entry) {
    c.kind == MemWrite ==> |c.text| == DIGITS && NUL !in c.text
  }

  /** An entry already emitted holds one write or two. */
  predicate Emitted(e: Entry) {
    e.kind == MemWrite ==> (|e.text| == DIGITS || |e.text| == 2 * DIGITS) && NUL !in e.text
  }

  predicate Sound(s: State) {
    Linked(s) && forall e :: e in s.out ==> Emitted(e)
  }

  function WithAppended(out: seq<Entry>, w: string): seq<Entry>
    requires out != [] && |Last(out).text| >= DIGITS
  {
    out[..|out| - 1] + [Last(out).(text := w + Last(out).text[..DIGITS])]
  }

  function Step(s: State, c: Entry): (r: State)
    requires Sound(s) && Formed(c)
    ensures Sound(r)
  {
    if c.kind == Barrier then State(s.out + [c], -1, Barrier)
    else if !Joins(s, c) then State(s.out + [c], c.data, c.kind)
    else if c.kind == MemRead then s
    else
      assert Last(s.out) in s.out;
      s.(out := WithAppended(s.out, c.text))
  }

  predicate AllFormed(trace: seq<Entry>) {
    forall c :: c in trace ==> Formed(c)
  }

  function Run(trace: seq<Entry>, uninitialised: int): (s: State)
    requires AllFormed(trace)
    ensures Sound(s)
  {
    if trace == [] then State([], uninitialised, Barrier)
    else Step(Run(trace[..|trace| - 1], uninitialised), trace[|trace| - 1])
  }

  /** The coalesced trace. The first comparison cannot succeed, so the uninitialised address does not show. */
  function Coalesced(trace: seq<Entry>): seq<Entry>
    requires AllFormed(trace)
  {
    Run(trace, -1).out
  }

  lemma {:induction false} StartDoesNotShow(trace: seq<Entry>, uninitialised: int)
    requires AllFormed(trace)
    ensures Run(trace, uninitialised).out == Coalesced(trace)
    ensures trace != [] ==> Run(trace, uninitialised) == Run(trace, -1)
  {
    if |trace| > 1 {
      StartDoesNotShow(trace[..|trace| - 1], uninitialised);
    } else if |trace| == 1 {
      assert trace[..|trace| - 1] == [];
      assert Run(trace, uninitialised) == Step(State([], uninitialised, Barrier), trace[0]);
      assert Run(trace, -1) == Step(State([], -1, Barrier), trace[0]);
    }
  }

  class TraceParser {
    var current: seq<Entry>
    var coalescedTrace: seq<Entry>

    constructor (trace: seq<Entry>)
      ensures current == trace && coalescedTrace == []
    {
      current, coalescedTrace := trace, [];
    }

    /** The last entry, taken out as an object, extended in place and put back. */
    method AppendToLast(w: string)
      requires coalescedTrace != [] && |w| == DIGITS && NUL !in w
      requires Last(coalescedTrace).kind == MemWrite && Emitted(Last(coalescedTrace))
      modifies this`coalescedTrace
      ensures coalescedTrace == WithAppended(old(coalescedTrace), w)
    {
      var last := Last(coalescedTrace);
      var back := new Cmd(last.kind, last.data, Some(last.text));
      ghost var buffer := back.writeData[..];
      back.AppendData(w);
      ShiftedText(buffer, w);
      var text := back.Read();
      coalescedTrace := coalescedTrace[..|coalescedTrace| - 1] + [Entry(back.kind, back.data, text)];
    }

    /** `uninitialised` is whatever prev_addr holds before its first assignment. */
    method CoalesceTraces(uninitialised: int)
      requires AllFormed(current)
      modifies this`coalescedTrace
      ensures coalescedTrace == Coalesced(current)
    {
      coalescedTrace := [];
      var prevAddr, prevKind := uninitialised, Barrier;
      var i := 0;
      while i < |current|
        invariant i <= |current|
        invariant State(coalescedTrace, prevAddr, prevKind) == Run(current[..i], uninitialised)
      {
        var c := current[i];
        assert current[..i + 1][..i] == current[..i];
        ghost var s := State(coalescedTrace, prevAddr, prevKind);
        assert Sound(s) && Formed(c);
        match c.kind {
          case Barrier =>
            coalescedTrace := coalescedTrace + [c];
            prevAddr, prevKind := -1, Barrier;
          case MemRead =>
            if prevAddr != -1 && prevKind == MemRead {
              if prevAddr + TRANS_SIZE != c.data {
                coalescedTrace := coalescedTrace + [c];
                prevAddr := c.data;
              }
            } else {
              coalescedTrace := coalescedTrace + [c];
              prevAddr := c.data;
            }
            prevKind := MemRead;
          case MemWrite =>
            if prevAddr != -1 && prevKind == MemWrite {
              if prevAddr + TRANS_SIZE == c.data {
                assert Last(s.out) in s.out;
                AppendToLast(c.text);
              } else {
                coalescedTrace := coalescedTrace + [c];
                prevAddr := c.data;
              }
            } else {
              coalescedTrace := coalescedTrace + [c];
              prevAddr := c.data;
            }
            prevKind := MemWrite;
        }
        assert State(coalescedTrace, prevAddr, prevKind) == Step(s, c);
        i := i + 1;
      }
      assert current[..i] == current;
      StartDoesNotShow(current, uninitialised);
    }
  }


  // ----- what the writes do to memory -----

  /** Memory by byte address; a byte is its two digits. */
  type Memory = map<int, (char, char)>

  /** Byte k of a number written with its most significant digit first. */
  function Byte(text: string, k: nat): (char, char)
    requires 2 * k + 2 <= |text|
  {
    (text[|text| - 2 * k - 2], text[|text| - 2 * k - 1])
  }

  predicate Within(x: int, a: int, n: nat) {
    a <= x < a + n
  }

  /** The number written to memory with its least significant byte first. */
  function Stored(m: Memory, a: int, text: string): Memory {
    m + map x: int | a <= x < a + |text| / 2 && Within(x, a, |text| / 2) :: Byte(text, x - a)
  }

  function Apply(m: Memory, c: Entry): Memory {
    if c.kind == MemWrite then Stored(m, c.data, c.text) else m
  }

  function Replay(m: Memory, trace: seq<Entry>): Memory {
    if trace == [] then m else Apply(Replay(m, trace[..|trace| - 1]), Last(trace))
  }

  lemma ReplayNext(m: Memory, trace: seq<Entry>, c: Entry)
    ensures Replay(m, trace + [c]) == Apply(Replay(m, trace), c)
  {
    assert (trace + [c])[..|trace|] == trace;
  }

  lemma ReplayLast(m: Memory, trace: seq<Entry>)
    requires trace != []
    ensures Replay(m, trace) == Apply(Replay(m, trace[..|trace| - 1]), Last(trace))
  {
  }

  lemma ByteOfUpper(w: string, low: string, k: nat)
    requires |w| == DIGITS && |low| == DIGITS && k < 16
    ensures Byte(w + low, k) == Byte(low, k) && Byte(w + low, k + 16) == Byte(w, k)
  {
  }

  /** Storing two halves one after the other is storing their number at once. */
  lemma StoredTwice(m: Memory, a: int, low: string, w: string)
    requires |low| == DIGITS && |w| == DIGITS
    ensures Stored(Stored(m, a, low), a + TRANS_SIZE, w) == Stored(m, a, w + low)
  {
    var l, r := Stored(Stored(m, a, low), a + TRANS_SIZE, w), Stored(m, a, w + low);
    SameKeys(m, a, low, w);
    forall x | x in l ensures l[x] == r[x] {
      SameByte(m, a, low, w, x);
    }
  }

  lemma SameKeys(m: Memory, a: int, low: string, w: string)
    requires |low| == DIGITS && |w| == DIGITS
    ensures Stored(Stored(m, a, low), a + TRANS_SIZE, w).Keys == Stored(m, a, w + low).Keys
  {
    assert forall x :: Within(x, a, 32) <==> Within(x, a, 16) || Within(x, a + TRANS_SIZE, 16);
  }

  lemma SameByte(m: Memory, a: int, low: string, w: string, x: int)
    requires |low| == DIGITS && |w| == DIGITS && x in Stored(m, a, w + low)
    ensures x in Stored(Stored(m, a, low), a + TRANS_SIZE, w)
    ensures Stored(Stored(m, a, low), a + TRANS_SIZE, w)[x] == Stored(m, a, w + low)[x]
  {
    StoredAt(m, a, low, x);
    StoredAt(Stored(m, a, low), a + TRANS_SIZE, w, x);
    StoredAt(m, a, w + low, x);
    if a <= x < a + 16 {
      ByteOfUpper(w, low, x - a);
    } else if a + 16 <= x < a + 32 {
      ByteOfUpper(w, low, x - a - 16);
    }
  }

  lemma StoredAt(m: Memory, a: int, text: string, x: int)
    ensures x in Stored(m, a, text) <==> x in m || a <= x < a + |text| / 2
    ensures a <= x < a + |text| / 2 ==> Stored(m, a, text)[x] == Byte(text, x - a)
    ensures x in m && !(a <= x < a + |text| / 2) ==> Stored(m, a, text)[x] == m[x]
  {
    assert Within(x, a, |text| / 2) <==> a <= x < a + |text| / 2;
  }


  lemma StoredAgain(m: Memory, a: int, s: string, t: string)
    requires |s| == |t|
    ensures Stored(Stored(m, a, s), a, t) == Stored(m, a, t)
  {
    var l, r := Stored(Stored(m, a, s), a, t), Stored(m, a, t);
    assert l.Keys == r.Keys;
  }

  /** A third write goes over the upper half and leaves the lower one. */
  lemma StoredOver(m: Memory, a: int, high: string, low: string, w: string)
    requires |high| == DIGITS && |low| == DIGITS && |w| == DIGITS
    ensures Stored(Stored(m, a, high + low), a + TRANS_SIZE, w) == Stored(m, a, w + low)
  {
    StoredTwice(m, a, low, high);
    StoredAgain(Stored(m, a, low), a + TRANS_SIZE, high, w);
    StoredTwice(m, a, low, w);
  }

  /** Memory tells the numbers apart. */
  lemma StoredInjective(m: Memory, a: int, s: string, t: string)
    requires |s| == |t| && |s| % 2 == 0
    ensures Stored(m, a, s) == Stored(m, a, t) <==> s == t
  {
    if Stored(m, a, s) == Stored(m, a, t) {
      forall i | 0 <= i < |s| ensures s[i] == t[i] {
        SameDigit(m, a, s, t, i);
      }
    }
  }

  lemma SameDigit(m: Memory, a: int, s: string, t: string, i: nat)
    requires |s| == |t| && |s| % 2 == 0 && i < |s| && Stored(m, a, s) == Stored(m, a, t)
    ensures s[i] == t[i]
  {
    var k := (|s| - 1 - i) / 2;
    assert Within(a + k, a, |s| / 2);
    assert Stored(m, a, s)[a + k] == Byte(s, k) && Stored(m, a, t)[a + k] == Byte(t, k);
    assert i == |s| - 2 * k - 2 || i == |s| - 2 * k - 1;
  }

  /** The command would join an entry whose lower half that would change. */
  predicate Clash(s: State, c: Entry)
    requires Sound(s)
  {
    c.kind == MemWrite && Joins(s, c) && Overwrites(Last(s.out).text)
  }

  /** An entry that is full already, with other data in its upper half than in its lower half. */
  predicate Overwrites(text: string) {
    |text| == 2 * DIGITS && text[..DIGITS] != text[DIGITS..]
  }

  lemma AppendEffect(m: Memory, a: int, text: string, w: string)
    requires (|text| == DIGITS || |text| == 2 * DIGITS) && |w| == DIGITS
    ensures Stored(m, a, w + text[..DIGITS]) == Stored(Stored(m, a, text), a + TRANS_SIZE, w)
       <==> !Overwrites(text)
  {
    if |text| == DIGITS {
      assert text[..DIGITS] == text;
      StoredTwice(m, a, text, w);
    } else {
      var high, low := text[..DIGITS], text[DIGITS..];
      assert text == high + low;
      StoredOver(m, a, high, low, w);
      StoredInjective(m, a, w + high, w + low);
      assert (w + high)[DIGITS..] == high && (w + low)[DIGITS..] == low;
    }
  }

  /** One step does to memory what the command does, unless it clashes, and then it never does. */
  lemma StepKeeps(m: Memory, s: State, c: Entry)
    requires Sound(s) && Formed(c)
    ensures Replay(m, Step(s, c).out) == Apply(Replay(m, s.out), c) <==> !Clash(s, c)
  {
    ReplayNext(m, s.out, c);
    if c.kind == MemWrite && Joins(s, c) {
      assert Last(s.out) in s.out;
      JoinedKeeps(m, s.out, c);
    }
  }

  lemma JoinedKeeps(m: Memory, out: seq<Entry>, c: Entry)
    requires out != [] && Last(out).kind == MemWrite && Emitted(Last(out))
    requires c.kind == MemWrite && Formed(c) && c.data == Last(out).data + TRANS_SIZE
    ensures Replay(m, WithAppended(out, c.text)) == Apply(Replay(m, out), c) <==> !Overwrites(Last(out).text)
  {
    var init, last := out[..|out| - 1], Last(out);
    ReplayNext(m, init, Joined(last, c));
    ReplayLast(m, out);
    JoinedEffect(Replay(m, init), last, c);
  }

  function Joined(e: Entry, c: Entry): Entry
    requires |e.text| >= DIGITS
  {
    e.(text := c.text + e.text[..DIGITS])
  }

  lemma JoinedEffect(m: Memory, e: Entry, c: Entry)
    requires e.kind == MemWrite && Emitted(e) && c.kind == MemWrite && Formed(c) && c.data == e.data + TRANS_SIZE
    ensures Apply(m, Joined(e, c)) == Apply(Apply(m, e), c) <==> !Overwrites(e.text)
  {
    AppendEffect(m, e.data, e.text, c.text);
  }

  // ----- whole traces -----

  /** Where the entry starts that the next command may join, and its kind: it depends on kinds and addresses only. */
  datatype Opening = Opening(addr: int, kind: Kind)

  function OpenAfter(trace: seq<Entry>): Opening {
    if trace == [] then Opening(-1, Barrier)
    else
      var before, c := OpenAfter(trace[..|trace| - 1]), Last(trace);
      if c.kind == Barrier then Opening(-1, Barrier)
      else if before.addr != -1 && before.kind == c.kind && before.addr + TRANS_SIZE == c.data then before
      else Opening(c.data, c.kind)
  }

  /** Command n writes once more the upper half that the write before it has just filled, and the lower half
      had got other data. */
  predicate Repeats(trace: seq<Entry>, n: nat)
    requires n < |trace|
  {
    && n >= 2
    && trace[n - 2].kind == MemWrite && trace[n - 1].kind == MemWrite && trace[n].kind == MemWrite
    && trace[n - 1].data == trace[n].data
    && (var open := OpenAfter(trace[..n - 1]); open.addr != -1 && open.addr + TRANS_SIZE == trace[n].data)
    && trace[n - 2].text != trace[n - 1].text
  }

  predicate Clean(trace: seq<Entry>) {
    forall n :: 0 <= n < |trace| ==> !Repeats(trace, n)
  }

  /** What the loop remembers is the opening, and of a write its last data are in the upper half. */
  lemma {:induction false} RunRemembers(trace: seq<Entry>)
    requires AllFormed(trace)
    ensures var s := Run(trace, -1);
      && s.prevAddr == OpenAfter(trace).addr && s.prevKind == OpenAfter(trace).kind
      && (s.prevKind == MemWrite ==>
            && trace != [] && Last(trace).kind == MemWrite && Emitted(Last(s.out))
            && Last(s.out).text[..DIGITS] == Last(trace).text)
  {
    if trace != [] {
      var init, c := trace[..|trace| - 1], Last(trace);
      RunRemembers(init);
      var s := Run(init, -1);
      assert Formed(c) && Sound(s);
      StepRemembers(s, c);
    }
  }

  lemma StepRemembers(s: State, c: Entry)
    requires Sound(s) && Formed(c)
    ensures Step(s, c).prevKind == c.kind
    ensures c.kind == MemWrite ==> Emitted(Last(Step(s, c).out)) && Last(Step(s, c).out).text[..DIGITS] == c.text
  {
    if c.kind == MemWrite && Joins(s, c) {
      assert Last(s.out) in s.out;
    }
  }

  /** The text of the entry that a write joined. */
  lemma StepJoins(s: State, c: Entry)
    requires Sound(s) && Formed(c) && c.kind == MemWrite
    ensures Joins(s, c) ==> Last(s.out) in s.out && Last(Step(s, c).out).text == c.text + Last(s.out).text[..DIGITS]
    ensures !Joins(s, c) ==> Last(Step(s, c).out).text == c.text
    ensures Step(s, c).prevAddr == if Joins(s, c) then s.prevAddr else c.data
  {
    if Joins(s, c) {
      assert Last(s.out) in s.out;
    }
  }

  /** A clash can be told from the trace alone. */
  lemma ClashIsRepeat(trace: seq<Entry>, n: nat)
    requires AllFormed(trace) && n < |trace|
    ensures Clash(Run(trace[..n], -1), trace[n]) <==> Repeats(trace, n)
  {
    RunRemembers(trace[..n]);
    if n > 0 {
      RunNext(trace, n - 1);
      RunRemembers(trace[..n - 1]);
      assert Formed(trace[n - 1]);
      ClashAfter(trace, n, Run(trace[..n - 1], -1));
    }
  }

  lemma ClashAfter(trace: seq<Entry>, n: nat, s: State)
    requires AllFormed(trace) && 0 < n < |trace| && Sound(s) && Formed(trace[n - 1])
    requires s.prevAddr == OpenAfter(trace[..n - 1]).addr && s.prevKind == OpenAfter(trace[..n - 1]).kind
    requires s.prevKind == MemWrite ==> n >= 2 && trace[n - 2].kind == MemWrite && Emitted(Last(s.out))
                                        && Last(s.out).text[..DIGITS] == trace[n - 2].text
    requires n >= 2 && trace[n - 2].kind == MemWrite ==> s.prevKind == MemWrite
    ensures Clash(Step(s, trace[n - 1]), trace[n]) <==> Repeats(trace, n)
  {
    var c := trace[n - 1];
    StepRemembers(s, c);
    if c.kind == MemWrite {
      StepJoins(s, c);
      if Joins(s, c) {
        var low := Last(s.out).text[..DIGITS];
        assert (c.text + low)[..DIGITS] == c.text && (c.text + low)[DIGITS..] == low;
      }
    }
  }

  ghost predicate KeepsMemory(m: Memory, trace: seq<Entry>)
    requires AllFormed(trace)
  {
    Replay(m, Coalesced(trace)) == Replay(m, trace)
  }

  lemma RunNext(trace: seq<Entry>, n: nat)
    requires AllFormed(trace) && n < |trace|
    ensures Run(trace[..n + 1], -1) == Step(Run(trace[..n], -1), trace[n])
  {
    assert trace[..n + 1][..n] == trace[..n];
  }

  lemma PrefixSteps(m: Memory, trace: seq<Entry>, n: nat) returns (s: State, before: Memory)
    requires AllFormed(trace) && n < |trace|
    ensures s == Run(trace[..n], -1) && before == Replay(m, trace[..n])
    ensures Coalesced(trace[..n]) == s.out && Coalesced(trace[..n + 1]) == Step(s, trace[n]).out
    ensures Replay(m, trace[..n + 1]) == Apply(before, trace[n])
  {
    s, before := Run(trace[..n], -1), Replay(m, trace[..n]);
    RunNext(trace, n);
    assert trace[..n + 1] == trace[..n] + [trace[n]];
    ReplayNext(m, trace[..n], trace[n]);
  }

  lemma PrefixKeeps(m: Memory, trace: seq<Entry>, n: nat)
    requires AllFormed(trace) && n < |trace| && KeepsMemory(m, trace[..n])
    ensures KeepsMemory(m, trace[..n + 1]) <==> !Repeats(trace, n)
  {
    var s, before := PrefixSteps(m, trace, n);
    StepKeeps(m, s, trace[n]);
    ClashIsRepeat(trace, n);
  }

  lemma {:induction false} CleanKeeps(m: Memory, trace: seq<Entry>, n: nat)
    requires AllFormed(trace) && Clean(trace) && n <= |trace|
    ensures KeepsMemory(m, trace[..n])
  {
    if n > 0 {
      CleanKeeps(m, trace, n - 1);
      PrefixKeeps(m, trace, n - 1);
    }
  }

  /** The coalesced writes leave the same memory after every prefix exactly when no write repeats the write
      before it in this way. */
  lemma MemoryKept(m: Memory, trace: seq<Entry>)
    requires AllFormed(trace)
    ensures (forall n :: 0 <= n <= |trace| ==> KeepsMemory(m, trace[..n])) <==> Clean(trace)
  {
    if Clean(trace) {
      forall n | 0 <= n <= |trace| ensures KeepsMemory(m, trace[..n]) {
        CleanKeeps(m, trace, n);
      }
    }
    if forall n :: 0 <= n <= |trace| ==> KeepsMemory(m, trace[..n]) {
      forall n | 0 <= n < |trace| ensures !Repeats(trace, n) {
        PrefixKeeps(m, trace, n);
      }
    }
  }

  /** No two neighbours write the same address. */
  predicate NoRepeats(trace: seq<Entry>) {
    forall i :: 0 < i < |trace| ==>
      !(trace[i - 1].kind == MemWrite && trace[i].kind == MemWrite && trace[i - 1].data == trace[i].data)
  }

  /** A trace that never writes one address twice in a row keeps memory. */
  lemma NoRepeatsKeepsMemory(m: Memory, trace: seq<Entry>)
    requires AllFormed(trace) && NoRepeats(trace)
    ensures Replay(m, Coalesced(trace)) == Replay(m, trace)
  {
    assert Clean(trace);
    CleanKeeps(m, trace, |trace|);
    assert trace[..|trace|] == trace;
  }

  function Digits(d: char): string {
    seq(DIGITS, _ => d)
  }

  /** Writing the upper half of a pair twice in a row overwrites the lower half with the upper half's first data. */
  lemma RepeatClobbers(m: Memory)
    ensures var first, second, third :=
              Entry(MemWrite, 0, Digits('1')), Entry(MemWrite, 16, Digits('2')), Entry(MemWrite, 16, Digits('3'));
      AllFormed([first, second, third])
      && Coalesced([first, second, third]) == [Entry(MemWrite, 0, Digits('3') + Digits('2'))]
      && Replay(m, Coalesced([first, second, third])) != Replay(m, [first, second, third])
  {
    var first, second, third :=
      Entry(MemWrite, 0, Digits('1')), Entry(MemWrite, 16, Digits('2')), Entry(MemWrite, 16, Digits('3'));
    ThreeSteps(first, second, third);
    ThirdLoses(m, first, second, third);
  }

  lemma ThirdLoses(m: Memory, first: Entry, second: Entry, third: Entry)
    requires AllFormed([first, second, third]) && first.data != second.data
    requires Repeats([first, second, third], 2)
    ensures Replay(m, Coalesced([first, second, third])) != Replay(m, [first, second, third])
  {
    var trace := [first, second, third];
    assert AllFormed([first, second]) by {
      assert forall c :: c in [first, second] ==> c in trace;
    }
    PrefixIsClean(m, first, second);
    assert trace[..2] == [first, second] && trace[..3] == trace;
    PrefixKeeps(m, trace, 2);
  }

  lemma ThreeSteps(first: Entry, second: Entry, third: Entry)
    requires first == Entry(MemWrite, 0, Digits('1')) && second == Entry(MemWrite, 16, Digits('2'))
    requires third == Entry(MemWrite, 16, Digits('3'))
    ensures AllFormed([first, second, third])
    ensures Run([first, second], -1) == State([Entry(MemWrite, 0, Digits('2') + Digits('1'))], 0, MemWrite)
    ensures Run([first, second, third], -1) == State([Entry(MemWrite, 0, Digits('3') + Digits('2'))], 0, MemWrite)
    ensures Clash(Run([first, second], -1), third)
  {
    FirstStep(first);
    RunAppended([first], second);
    JoinStep(first, second);
    var pair := Entry(MemWrite, 0, Digits('2') + Digits('1'));
    assert [first, second] == [first] + [second] && Digits('1')[..DIGITS] == Digits('1');
    RunAppended([first, second], third);
    JoinStep(pair, third);
    assert [first, second, third] == [first, second] + [third];
    assert pair.text[..DIGITS] == Digits('2') && pair.text[DIGITS..] == Digits('1');
    assert Digits('2')[0] != Digits('1')[0];
  }

  lemma FirstStep(first: Entry)
    requires Formed(first) && first.kind != Barrier
    ensures AllFormed([first]) && Run([first], -1) == State([first], first.data, first.kind)
  {
    assert [first][..0] == [];
    assert Run([], -1) == State([], -1, Barrier);
  }

  lemma RunAppended(trace: seq<Entry>, c: Entry)
    requires AllFormed(trace) && Formed(c)
    ensures AllFormed(trace + [c]) && Run(trace + [c], -1) == Step(Run(trace, -1), c)
  {
    assert (trace + [c])[..|trace|] == trace;
  }

  lemma JoinStep(e: Entry, c: Entry)
    requires e.kind == MemWrite && Emitted(e) && e.data != -1 && c.kind == MemWrite && Formed(c)
    requires c.data == e.data + TRANS_SIZE
    ensures Step(State([e], e.data, MemWrite), c)
         == State([e.(text := c.text + e.text[..DIGITS])], e.data, MemWrite)
  {
    var s := State([e], e.data, MemWrite);
    assert Sound(s);
    assert WithAppended([e], c.text) == [e.(text := c.text + e.text[..DIGITS])];
  }

  lemma PrefixIsClean(m: Memory, first: Entry, second: Entry)
    requires AllFormed([first, second]) && first.data != second.data
    ensures KeepsMemory(m, [first, second])
  {
    NoRepeatsKeepsMemory(m, [first, second]);
  }

  // ----- where each command went -----

  /** The entry that command i was emitted as or joined. */
  function EmittedAt(trace: seq<Entry>, i: nat): (j: nat)
    requires AllFormed(trace) && i < |trace|
    ensures j < |Coalesced(trace[..i + 1])|
  {
    RunNext(trace, i);
    |Coalesced(trace[..i + 1])| - 1
  }

  /** Later steps touch nothing but the data of the last entry, and that only if it is a write. */
  predicate Extends(early: seq<Entry>, late: seq<Entry>) {
    |early| <= |late| &&
    (early != [] ==>
       early[..|early| - 1] <= late &&
       late[|early| - 1].kind == Last(early).kind && late[|early| - 1].data == Last(early).data &&
       (Last(early).kind != MemWrite ==> late[|early| - 1] == Last(early)))
  }

  lemma StepExtends(s: State, c: Entry)
    requires Sound(s) && Formed(c)
    ensures Extends(s.out, Step(s, c).out)
  {
  }

  lemma ExtendsTransitive(a: seq<Entry>, b: seq<Entry>, c: seq<Entry>)
    requires Extends(a, b) && Extends(b, c)
    ensures Extends(a, c)
  {
    if a != [] && |a| < |b| {
      assert b[|a| - 1] == b[..|b| - 1][|a| - 1] == c[|a| - 1];
    }
  }

  lemma {:induction false} RunExtends(trace: seq<Entry>, i: nat, n: nat)
    requires AllFormed(trace) && i <= n <= |trace|
    ensures Extends(Coalesced(trace[..i]), Coalesced(trace[..n]))
  {
    if i < n {
      RunExtends(trace, i, n - 1);
      OneMoreExtends(trace, n - 1);
      ExtendsTransitive(Coalesced(trace[..i]), Coalesced(trace[..n - 1]), Coalesced(trace[..n]));
    }
  }

  lemma OneMoreExtends(trace: seq<Entry>, n: nat)
    requires AllFormed(trace) && n < |trace|
    ensures Extends(Coalesced(trace[..n]), Coalesced(trace[..n + 1]))
  {
    RunNext(trace, n);
    StepExtends(Run(trace[..n], -1), trace[n]);
  }

  /** Every command lies in the 32-byte span of an entry of its own kind; a barrier is its own entry. */
  lemma EmittedCovers(trace: seq<Entry>, i: nat)
    requires AllFormed(trace) && i < |trace|
    ensures var out, j := Coalesced(trace), EmittedAt(trace, i);
      j < |out| && out[j].kind == trace[i].kind
      && (trace[i].kind == Barrier ==> out[j] == trace[i])
      && (trace[i].kind != Barrier ==> trace[i].data == out[j].data || trace[i].data == out[j].data + TRANS_SIZE)
  {
    RunNext(trace, i);
    var now := Coalesced(trace[..i + 1]);
    StepCovers(Run(trace[..i], -1), trace[i], now);
    RunExtends(trace, i + 1, |trace|);
    assert trace[..|trace|] == trace;
  }

  lemma StepCovers(s: State, c: Entry, out: seq<Entry>)
    requires Sound(s) && Formed(c) && out == Step(s, c).out
    ensures out != [] && Last(out).kind == c.kind && (c.kind == Barrier ==> Last(out) == c)
    ensures c.kind != Barrier ==> c.data == Last(out).data || c.data == Last(out).data + TRANS_SIZE
  {
  }

  function Size(trace: seq<Entry>, n: nat): nat
    requires AllFormed(trace) && n <= |trace|
  {
    |Coalesced(trace[..n])|
  }

  /** A barrier opens an entry, and so does the command after it. */
  lemma SizeNext(trace: seq<Entry>, n: nat)
    requires AllFormed(trace) && n < |trace|
    ensures trace[n].kind == Barrier ==> Size(trace, n + 1) == Size(trace, n) + 1
    ensures n > 0 && trace[n - 1].kind == Barrier ==> Size(trace, n + 1) == Size(trace, n) + 1
  {
    RunNext(trace, n);
    if n > 0 {
      RunNext(trace, n - 1);
    }
  }

  lemma SizeGrows(trace: seq<Entry>, i: nat, n: nat)
    requires AllFormed(trace) && i <= n <= |trace|
    ensures Size(trace, i) <= Size(trace, n)
  {
    RunExtends(trace, i, n);
  }

  /** Commands keep their order, and nothing on one side of a barrier shares an entry with the other side. */
  lemma EmittedInOrder(trace: seq<Entry>, i: nat, k: nat)
    requires AllFormed(trace) && i < k < |trace|
    ensures EmittedAt(trace, i) <= EmittedAt(trace, k)
    ensures trace[k].kind == Barrier ==> EmittedAt(trace, i) < EmittedAt(trace, k)
    ensures trace[i].kind == Barrier ==> EmittedAt(trace, i) < EmittedAt(trace, k)
  {
    SizeGrows(trace, i + 1, k);
    SizeNext(trace, k);
    SizeGrows(trace, k, k + 1);
    SizeNext(trace, i + 1);
    SizeGrows(trace, i + 2, k + 1);
    assert EmittedAt(trace, i) == Size(trace, i + 1) - 1 && EmittedAt(trace, k) == Size(trace, k + 1) - 1;
  }

  /** The command shares the entry of the one before it: it goes on where that entry starts. */
  predicate Shares(trace: seq<Entry>, i: nat)
    requires i < |trace|
  {
    var open := OpenAfter(trace[..i]);
    trace[i].kind != Barrier && open.kind == trace[i].kind && open.addr != -1 && open.addr + 16 == trace[i].data
  }

  lemma StepSize(s: State, c: Entry)
    requires Sound(s) && Formed(c)
    ensures |Step(s, c).out| == |s.out| + if Joins(s, c) then 0 else 1
  {
    if Joins(s, c) {
      assert Last(s.out) in s.out;
    }
  }

  /** A command emits one entry, or none if it shares the entry before it. */
  lemma SizeAfter(trace: seq<Entry>, n: nat)
    requires AllFormed(trace) && n < |trace|
    ensures Size(trace, n + 1) == Size(trace, n) + if Shares(trace, n) then 0 else 1
  {
    RunNext(trace, n);
    RunRemembers(trace[..n]);
    StepSize(Run(trace[..n], -1), trace[n]);
  }

  /** When two neighbours have one entry, from the trace alone. */
  lemma EmittedTogether(trace: seq<Entry>, i: nat)
    requires AllFormed(trace) && i + 1 < |trace|
    ensures EmittedAt(trace, i + 1) == EmittedAt(trace, i) <==>
            var open := OpenAfter(trace[..i + 1]);
            trace[i + 1].kind != Barrier && open.kind == trace[i + 1].kind && open.addr != -1
            && open.addr + 16 == trace[i + 1].data
    ensures EmittedAt(trace, i + 1) == EmittedAt(trace, i) || EmittedAt(trace, i + 1) == EmittedAt(trace, i) + 1
  {
    SizeAfter(trace, i + 1);
  }

  /** The commands that open an entry. */
  function Openers(trace: seq<Entry>, n: nat): set<nat>
    requires n <= |trace|
  {
    set i: nat | i < n && !Shares(trace, i)
  }

  /** The coalesced trace has as many entries as commands open one. */
  lemma {:induction false} EntriesAreOpeners(trace: seq<Entry>, n: nat)
    requires AllFormed(trace) && n <= |trace|
    ensures |Coalesced(trace[..n])| == |Openers(trace, n)|
  {
    if n > 0 {
      EntriesAreOpeners(trace, n - 1);
      SizeAfter(trace, n - 1);
      OpenersNext(trace, n - 1);
    } else {
      assert Openers(trace, n) == {};
    }
  }

  lemma OpenersNext(trace: seq<Entry>, n: nat)
    requires n < |trace|
    ensures |Openers(trace, n + 1)| == |Openers(trace, n)| + if Shares(trace, n) then 0 else 1
  {
    OneMoreOpener(trace, n);
    assert n !in Openers(trace, n);
  }

  lemma OneMoreOpener(trace: seq<Entry>, n: nat)
    requires n < |trace|
    ensures Openers(trace, n + 1) == Openers(trace, n) + if Shares(trace, n) then {} else {n}
  {
    var before, after := Openers(trace, n), Openers(trace, n + 1);
    forall i: nat ensures i in after <==> i in before || (i == n && !Shares(trace, n)) {
      if i < n {
        assert i in after <==> !Shares(trace, i);
      }
    }
  }

  lemma WholeTraceOpeners(trace: seq<Entry>)
    requires AllFormed(trace)
    ensures |Coalesced(trace)| == |Openers(trace, |trace|)|
  {
    EntriesAreOpeners(trace, |trace|);
    assert trace[..|trace|] == trace;
  }

  predicate Opens(trace: seq<Entry>, i: nat)
    requires AllFormed(trace) && i < |trace|
  {
    i == 0 || EmittedAt(trace, i - 1) != EmittedAt(trace, i)
  }

  /** The same from neighbour to neighbour: a command shares the entry of the one before it if that one has opened
      the entry 16 bytes below it, or has itself shared it at the same address. */
  lemma SharesWithNeighbour(trace: seq<Entry>, i: nat)
    requires AllFormed(trace) && i + 1 < |trace|
    ensures EmittedAt(trace, i + 1) == EmittedAt(trace, i) <==>
              && trace[i + 1].kind != Barrier && trace[i].kind == trace[i + 1].kind
              && if Opens(trace, i) then trace[i].data != -1 && trace[i].data + 16 == trace[i + 1].data
                 else trace[i].data == trace[i + 1].data
  {
    SizeAfter(trace, i);
    SizeAfter(trace, i + 1);
    OpenNext(trace, i);
  }

  lemma OpenNext(trace: seq<Entry>, i: nat)
    requires i < |trace|
    ensures trace[i].kind == Barrier ==> OpenAfter(trace[..i + 1]) == Opening(-1, Barrier)
    ensures trace[i].kind != Barrier ==>
              OpenAfter(trace[..i + 1]) == if Shares(trace, i) then OpenAfter(trace[..i])
                                           else Opening(trace[i].data, trace[i].kind)
  {
    assert trace[..i + 1][..i] == trace[..i];
  }

  /** An entry starts where the command that opened it does, and is that command unless it is a write. */
  lemma OpenedAsIs(trace: seq<Entry>, i: nat)
    requires AllFormed(trace) && i < |trace| && Opens(trace, i)
    ensures var out, j := Coalesced(trace), EmittedAt(trace, i);
      j < |out| && out[j].kind == trace[i].kind && out[j].data == trace[i].data
      && (trace[i].kind != MemWrite ==> out[j] == trace[i])
  {
    SizeAfter(trace, i);
    RunNext(trace, i);
    RunRemembers(trace[..i]);
    var s := Run(trace[..i], -1);
    StepSize(s, trace[i]);
    assert i == 0 ==> s.out == [];
    StepOpens(s, trace[i]);
    RunExtends(trace, i + 1, |trace|);
    assert trace[..|trace|] == trace;
  }

  lemma StepOpens(s: State, c: Entry)
    requires Sound(s) && Formed(c)
    ensures !Joins(s, c) ==> Step(s, c).out == s.out + [c]
  {
  }

  lemma BarriersSeparate(trace: seq<Entry>, i: nat, b: nat, k: nat)
    requires AllFormed(trace) && i < b < k < |trace| && trace[b].kind == Barrier
    ensures EmittedAt(trace, i) < EmittedAt(trace, b) < EmittedAt(trace, k)
  {
    EmittedInOrder(trace, i, b);
    EmittedInOrder(trace, b, k);
  }

  /** No entry is made up: each one is where some command was emitted first. */
  lemma {:induction false} EmittedBySome(trace: seq<Entry>, n: nat, j: nat) returns (i: nat)
    requires AllFormed(trace) && n <= |trace| && j < |Coalesced(trace[..n])|
    ensures i < n && EmittedAt(trace, i) == j
  {
    RunNext(trace, n - 1);
    if j < |Coalesced(trace[..n - 1])| {
      i := EmittedBySome(trace, n - 1, j);
    } else {
      i := n - 1;
    }
  }

  /** A read meets the same memory at its entry of the coalesced trace as in the original one. */
  lemma ReadsSeeSameMemory(m: Memory, trace: seq<Entry>, i: nat)
    requires AllFormed(trace) && Clean(trace) && i < |trace| && trace[i].kind == MemRead
    ensures var j := EmittedAt(trace, i);
      j <= |Coalesced(trace)| && Replay(m, Coalesced(trace)[..j]) == Replay(m, trace[..i])
  {
    CleanKeeps(m, trace, i);
    RunNext(trace, i);
    RunExtends(trace, i + 1, |trace|);
    assert trace[..|trace|] == trace;
    var s, now, j := Run(trace[..i], -1), Coalesced(trace[..i + 1]), EmittedAt(trace, i);
    assert Coalesced(trace)[..j] == now[..j];
    if Joins(s, trace[i]) {
      ReplayLast(m, s.out);
    } else {
      assert now[..j] == s.out;
    }
  }
}
