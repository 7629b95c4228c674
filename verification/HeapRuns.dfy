/** Sequences of calls: the round trip of alloc and free, and what holds in every reachable state. */
module HeapRuns {
  import opened Options
  import opened FreeList
  import opened Fragments
  import opened HeapModel
  import opened HeapInvariant
  import opened HeapCalls
  import opened FloatAlign

  // ----- alloc and free cancel -----

  lemma NeighboursOfFree(m: FragMap, base: nat, length: nat, f: nat)
    requires Kept(m, base, length) && f in m && IsFree(m, f)
    ensures forall p :: PreviousKey(m, f) == Some(p) ==> m[p].entry.None?
    ensures forall p :: NextKey(m, f) == Some(p) ==> m[p].entry.None? && p == f + m[f].size
  {
    PreviousTile(m, base, length, f);
    NextTile(m, base, length, f);
  }

  /** The keys around f are the same when only the key f + n is new. */
  lemma KeysAround(m: FragMap, m': FragMap, f: nat, n: nat)
    requires f in m && f in m' && n > 0
    requires forall k :: k in m' <==> k in m || k == f + n
    requires forall k :: k in m && k > f ==> k > f + n
    ensures PreviousKey(m', f) == PreviousKey(m, f) && NextKey(m', f) == Some(f + n)
  {
    var a, b := PreviousKey(m, f), PreviousKey(m', f);
    var c := NextKey(m', f);
    assert f + n in m';
  }

  lemma SplitMerged(m: FragMap, f: nat, n: nat)
    requires f in m && 0 < n < m[f].size && f + n !in m
    ensures Merge(Split(m, f, n, m[f].size), f, f + n) == m[f := Fragment(None, m[f].size)]
  {
  }

  lemma SplitNeighbours(m: FragMap, base: nat, length: nat, f: nat, n: nat)
    requires Kept(m, base, length) && f in m && IsFree(m, f) && 0 < n < m[f].size
    ensures var m' := Split(m, f, n, m[f].size);
            f + n !in m && LowerFree(m', f) == None && UpperFree(m', f) == Some(f + n)
  {
    var m' := Split(m, f, n, m[f].size);
    SplitInside(m, f, n, f + n);
    forall k | k in m && k > f
      ensures k > f + n
    {
      SplitInside(m, f, n, k);
    }
    KeysAround(m, m', f, n);
    NeighboursOfFree(m, base, length, f);
  }

  lemma SplitFreed(m: FragMap, base: nat, length: nat, f: nat, n: nat)
    requires Kept(m, base, length) && f in m && IsFree(m, f) && 0 < n < m[f].size
    ensures var m' := Split(m, f, n, m[f].size);
            && f + n !in m && LowerFree(m', f) == None && UpperFree(m', f) == Some(f + n)
            && Freed(m', f) == (m[f := Fragment(None, m[f].size)], f)
  {
    SplitNeighbours(m, base, length, f, n);
    SplitMerged(m, f, n);
  }

  lemma SameKeys(m: FragMap, m': FragMap, f: nat)
    requires forall k :: k in m' <==> k in m
    ensures PreviousKey(m', f) == PreviousKey(m, f) && NextKey(m', f) == NextKey(m, f)
  {
    var a, b := PreviousKey(m, f), PreviousKey(m', f);
    var c, d := NextKey(m, f), NextKey(m', f);
  }

  lemma TakeFreed(m: FragMap, base: nat, length: nat, f: nat)
    requires Kept(m, base, length) && f in m && IsFree(m, f)
    ensures var m' := Take(m, f, m[f].size);
            LowerFree(m', f) == None && UpperFree(m', f) == None && Freed(m', f) == (m', f)
  {
    var m' := Take(m, f, m[f].size);
    SameKeys(m, m', f);
    NeighboursOfFree(m, base, length, f);
  }

  /** Of a block that is not wholly free more than one fragment is left, and releasing f restores it. */
  lemma ReleasedAgain(m: FragMap, base: nat, length: nat, f: nat)
    requires Kept(m, base, length) && f in m && IsFree(m, f)
    ensures var m' := m[f := Fragment(None, m[f].size)]; |m'| != 1 && Release(m', f) == m
  {
    var m' := m[f := Fragment(None, m[f].size)];
    SingleTile(m, base, length);
    assert f in m.Keys;
    assert m'.Keys == m.Keys && |m'| == |m'.Keys| && |m| == |m.Keys|;
  }

  /** When the merges lead to m2 and the list to `rest`, this is what `free` does. */
  lemma FreeFragmentIs(h: Heap, b: nat, p: nat, m2: FragMap, rest: seq<Entry>)
    requires b in h.blocks && p in h.blocks[b] && LowerFree(h.blocks[b], p) == None
    requires Freed(h.blocks[b], p) == (m2, p) && |m2| != 1 && p in m2
    requires rest == EraseIf(h.freeList, MergedEntry(h.blocks[b], UpperFree(h.blocks[b], p)))
    ensures FreeFragment(h, b, p)
            == h.(freeList := Insert(rest, Entry(m2[p].size, p)), blocks := h.blocks[b := Release(m2, p)])
  {
  }

  lemma FreeAfterSplit(h: Heap, limit: nat, i: nat, n: nat, b: nat)
    requires Inv(h, limit) && i < |h.freeList| && 0 < n < h.freeList[i].size && KeptAt(h, b)
    requires HasFree(h.blocks[b], h.freeList[i]) && h.blocks[b][h.freeList[i].base].size == h.freeList[i].size
    ensures var e, h' := h.freeList[i], ChosenFrom(h, i, n, b);
            && e.base in h'.blocks[b]
            && FreeFragment(h', b, e.base) == h.(freeList := Insert(RemoveAt(h.freeList, i), e))
  {
    var e, h', m := h.freeList[i], ChosenFrom(h, i, n, b), h.blocks[b];
    var part := Entry(e.size - n, e.base + n);
    SplitFreed(m, b, h.outstanding[b], e.base, n);
    ReleasedAgain(m, b, h.outstanding[b], e.base);
    var rest, m' := RestAfterSplit(h, limit, i, n, b);
    FreeFragmentIs(h', b, e.base, m[e.base := Fragment(None, e.size)], rest);
    BlockBack(h.blocks, b, m');
  }

  lemma BlockBack(blocks: BlockMap, b: nat, m: FragMap)
    requires b in blocks
    ensures blocks[b := m][b := blocks[b]] == blocks
  {
  }

  /** The part that was split off is in the free list, and taking it out restores the rest. */
  lemma RestAfterSplit(h: Heap, limit: nat, i: nat, n: nat, b: nat) returns (rest: seq<Entry>, m': FragMap)
    requires Inv(h, limit) && i < |h.freeList| && 0 < n < h.freeList[i].size && KeptAt(h, b)
    requires HasFree(h.blocks[b], h.freeList[i]) && h.blocks[b][h.freeList[i].base].size == h.freeList[i].size
    requires UpperFree(ChosenFrom(h, i, n, b).blocks[b], h.freeList[i].base) == Some(h.freeList[i].base + n)
    ensures rest == RemoveAt(h.freeList, i) && m' == Split(h.blocks[b], h.freeList[i].base, n, h.freeList[i].size)
    ensures var h' := ChosenFrom(h, i, n, b);
            rest == EraseIf(h'.freeList, MergedEntry(h'.blocks[b], UpperFree(h'.blocks[b], h.freeList[i].base)))
  {
    var e := h.freeList[i];
    var part := Entry(e.size - n, e.base + n);
    rest, m' := RemoveAt(h.freeList, i), Split(h.blocks[b], e.base, n, e.size);
    assert Sorted(rest) && Distinct(rest) && part !in rest by {
      RemoveKeeps(h.freeList, i);
      RestIsNew(h, limit, b, e, n);
    }
    PartErased(h, i, n, b, rest, part);
  }

  lemma PartErased(h: Heap, i: nat, n: nat, b: nat, rest: seq<Entry>, part: Entry)
    requires i < |h.freeList| && 0 < n < h.freeList[i].size && b in h.blocks && rest == RemoveAt(h.freeList, i)
    requires part == Entry(h.freeList[i].size - n, h.freeList[i].base + n)
    requires Sorted(rest) && Distinct(rest) && part !in rest
    requires UpperFree(ChosenFrom(h, i, n, b).blocks[b], h.freeList[i].base) == Some(part.base)
    ensures var h' := ChosenFrom(h, i, n, b);
            rest == EraseIf(h'.freeList, MergedEntry(h'.blocks[b], UpperFree(h'.blocks[b], h.freeList[i].base)))
  {
    EraseInserted(rest, part);
    ChosenSplit(h, i, n, b);
  }

  lemma ChosenSplit(h: Heap, i: nat, n: nat, b: nat)
    requires i < |h.freeList| && 0 < n < h.freeList[i].size && b in h.blocks
    ensures var e, h' := h.freeList[i], ChosenFrom(h, i, n, b);
            var part := Entry(e.size - n, e.base + n);
            h'.freeList == Insert(RemoveAt(h.freeList, i), part) && MergedEntry(h'.blocks[b], Some(part.base)) == Some(part)
  {
  }

  lemma FreeAfterTake(h: Heap, limit: nat, i: nat, b: nat)
    requires Inv(h, limit) && i < |h.freeList| && KeptAt(h, b)
    requires HasFree(h.blocks[b], h.freeList[i]) && h.blocks[b][h.freeList[i].base].size == h.freeList[i].size
    ensures var e, h' := h.freeList[i], ChosenFrom(h, i, h.freeList[i].size, b);
            && e.base in h'.blocks[b]
            && FreeFragment(h', b, e.base) == h.(freeList := Insert(RemoveAt(h.freeList, i), e))
  {
    var e, h', m := h.freeList[i], ChosenFrom(h, i, h.freeList[i].size, b), h.blocks[b];
    TakeFreed(m, b, h.outstanding[b], e.base);
    ReleasedAgain(m, b, h.outstanding[b], e.base);
    FreeFragmentIs(h', b, e.base, Take(m, e.base, e.size), RemoveAt(h.freeList, i));
    BlockBack(h.blocks, b, Take(m, e.base, e.size));
  }

  /** An allocation served from a free fragment and freed at once leaves everything as it was, except
      that in the free list the fragment is behind those of the same size. */
  lemma AllocThenFree(h: Heap, limit: nat, bytes: nat, answer: Option<Block>)
    requires Inv(h, limit) && Answered(h, limit, answer) && bytes > 0 && AlignedBytes(bytes) <= limit
    requires LowerBound(h.freeList, AlignedBytes(bytes)) < |h.freeList|
    ensures var i := LowerBound(h.freeList, AlignedBytes(bytes));
            var (h1, p) := Alloc(h, limit, bytes, answer);
            var (h2, ok) := Free(h1, p);
            && ok && h2 == h.(freeList := h2.freeList) && multiset(h2.freeList) == multiset(h.freeList)
            && (h2 == h <==> (i + 1 < |h.freeList| ==> h.freeList[i + 1].size > h.freeList[i].size))
  {
    var i, n, b, h1 := AllocServed(h, limit, bytes, answer);
    var h2 := ChosenFreed(h, limit, i, n, b);
    assert Free(h1, Some(h.freeList[i].base)) == (h2, true);
    InsertRemoved(h.freeList, i);
  }

  lemma AllocServed(h: Heap, limit: nat, bytes: nat, answer: Option<Block>) returns (i: nat, n: nat, b: nat, h1: Heap)
    requires Inv(h, limit) && Answered(h, limit, answer) && bytes > 0 && AlignedBytes(bytes) <= limit
    requires LowerBound(h.freeList, AlignedBytes(bytes)) < |h.freeList|
    ensures n == AlignedBytes(bytes) && i == LowerBound(h.freeList, n) && 0 < n <= h.freeList[i].size
    ensures b in h.blocks && HasFree(h.blocks[b], h.freeList[i])
    ensures h.blocks[b][h.freeList[i].base].size == h.freeList[i].size
    ensures h1 == ChosenFrom(h, i, n, b) && UsedIn(h1.blocks, h.freeList[i].base) == Some(b)
    ensures Alloc(h, limit, bytes, answer) == (h1, Some(h.freeList[i].base))
  {
    n := AlignedBytes(bytes);
    SmallRequests(bytes);
    i := LowerBound(h.freeList, n);
    b := ChosenOwner(h, limit, i, n);
    h1 := ChosenFrom(h, i, n, b);
    ChosenIsUsed(h, i, n, b);
  }

  lemma ChosenFreed(h: Heap, limit: nat, i: nat, n: nat, b: nat) returns (h2: Heap)
    requires Inv(h, limit) && i < |h.freeList| && 0 < n <= h.freeList[i].size && b in h.blocks
    requires HasFree(h.blocks[b], h.freeList[i]) && h.blocks[b][h.freeList[i].base].size == h.freeList[i].size
    ensures h.freeList[i].base in ChosenFrom(h, i, n, b).blocks[b]
    ensures h2 == FreeFragment(ChosenFrom(h, i, n, b), b, h.freeList[i].base)
    ensures h2 == h.(freeList := Insert(RemoveAt(h.freeList, i), h.freeList[i]))
  {
    assert KeptAt(h, b);
    h2 := h.(freeList := Insert(RemoveAt(h.freeList, i), h.freeList[i]));
    if h.freeList[i].size > n {
      FreeAfterSplit(h, limit, i, n, b);
    } else {
      FreeAfterTake(h, limit, i, b);
    }
  }

  lemma ChosenIsUsed(h: Heap, i: nat, n: nat, b: nat)
    requires i < |h.freeList| && 0 < n <= h.freeList[i].size && FloorKey(h.blocks, h.freeList[i].base) == Some(b)
    requires HasFree(h.blocks[b], h.freeList[i])
    ensures UsedIn(ChosenFrom(h, i, n, b).blocks, h.freeList[i].base) == Some(b)
  {
    var blocks := ChosenFrom(h, i, n, b).blocks;
    var c := FloorKey(blocks, h.freeList[i].base);
    assert forall k :: k in blocks <==> k in h.blocks;
  }

  // ----- runs -----

  datatype Call =
    | AllocCall(bytes: nat, answer: Option<Block>)
    | FreeCall(p: Option<nat>)
    | TrimCall

  /** A call that the invariant survives: the block allocator answers as it should, and a request for
      nothing does not take a whole block. */
  ghost predicate Permitted(h: Heap, limit: nat, call: Call) {
    call.AllocCall? ==> Answered(h, limit, call.answer) && !BreaksHeap(h, call.bytes, call.answer)
  }

  ghost function Step(h: Heap, limit: nat, call: Call): (h': Heap)
    requires Inv(h, limit) && Permitted(h, limit, call)
  {
    match call
    case AllocCall(bytes, answer) => Alloc(h, limit, bytes, answer).0
    case FreeCall(p) => Free(h, p).0
    case TrimCall => Trim(h)
  }

  lemma StepKeeps(h: Heap, limit: nat, call: Call)
    requires Inv(h, limit) && Permitted(h, limit, call)
    ensures Inv(Step(h, limit, call), limit)
  {
    match call
    case AllocCall(bytes, answer) => AllocKeeps(h, limit, bytes, answer);
    case FreeCall(p) => FreeKeeps(h, limit, p);
    case TrimCall => var h' := TrimKeeps(h, limit);
  }

  /** The heap can get from h to h' by the calls. */
  ghost predicate Leads(h: Heap, limit: nat, calls: seq<Call>, h': Heap)
    decreases |calls|
  {
    if calls == [] then h' == h
    else Inv(h, limit) && Permitted(h, limit, calls[0]) && Leads(Step(h, limit, calls[0]), limit, calls[1..], h')
  }

  /** The invariant holds in every state that any sequence of calls leads to. */
  lemma {:induction false} RunKeeps(h: Heap, limit: nat, calls: seq<Call>, h': Heap)
    requires Inv(h, limit) && Leads(h, limit, calls, h')
    ensures Inv(h', limit)
    decreases |calls|
  {
    if calls != [] {
      StepKeeps(h, limit, calls[0]);
      RunKeeps(Step(h, limit, calls[0]), limit, calls[1..], h');
    }
  }

  /** The counters are what the blocks add up to, and neither ever goes below zero; the cache holds at
      most one block or at most twice what is in use. */
  lemma ReachableCounters(limit: nat, calls: seq<Call>, h: Heap)
    requires Leads(EMPTY, limit, calls, h)
    ensures h.inUse == SumLengths(h.blocks.Keys, h.outstanding) >= 0
    ensures h.cached == SumCache(h.cache) >= 0
    ensures |h.cache| <= 1 || h.cached <= 2 * h.inUse
  {
    EmptyInv(limit);
    RunKeeps(EMPTY, limit, calls, h);
    SumNonnegative(h.blocks.Keys, h.outstanding);
    SumCacheNonnegative(h.cache);
  }

  /** Every address of a listed block is in exactly one of its fragments, and a fragment is in the free
      list exactly when it is free. */
  lemma ReachableTiling(limit: nat, calls: seq<Call>, h: Heap, b: nat, x: nat, e: Entry)
    requires Leads(EMPTY, limit, calls, h) && b in h.blocks
    ensures b in h.outstanding && Kept(h.blocks[b], b, h.outstanding[b])
    ensures b <= x < b + h.outstanding[b] ==>
              && (exists f :: f in h.blocks[b] && f <= x < f + h.blocks[b][f].size)
              && (forall f, g ::
                    (&& f in h.blocks[b] && g in h.blocks[b] && f <= x < f + h.blocks[b][f].size
                     && g <= x < g + h.blocks[b][g].size) ==> f == g)
    ensures e in h.freeList <==> exists c :: c in h.blocks && HasFree(h.blocks[c], e)
    ensures Distinct(h.freeList) && Sorted(h.freeList)
  {
    EmptyInv(limit);
    RunKeeps(EMPTY, limit, calls, h);
    assert KeptAt(h, b);
    if b <= x < b + h.outstanding[b] {
      TiledCovers(h.blocks[b], b, h.outstanding[b], x);
    }
    assert e in h.freeList <==> ListedFree(h.blocks, e);
  }

  /** A block the heap holds: listed or cached with its full length. */
  ghost predicate Holds(h: Heap, block: Block) {
    (block.base in h.blocks && block.base in h.outstanding && h.outstanding[block.base] == block.length)
    || block in h.cache
  }

  /** Each block that was obtained is held or was released, with the base and length it was obtained
      with, and not both and not twice: as often as it was obtained it was released, plus once if the
      heap holds it. */
  lemma ReachableBlocks(limit: nat, calls: seq<Call>, h: Heap, block: Block)
    requires Leads(EMPTY, limit, calls, h)
    ensures h.obtained[block] == h.released[block] + if Holds(h, block) then 1 else 0
    ensures !(block.base in h.blocks && block in h.cache)
    ensures forall i, j :: 0 <= i < j < |h.cache| ==> h.cache[i] != h.cache[j]
  {
    EmptyInv(limit);
    RunKeeps(EMPTY, limit, calls, h);
    InAllBlocks(h.outstanding, block);
    var held := block in AllBlocks(h.outstanding);
    assert h.obtained[block] == h.released[block] + if held then 1 else 0;
    if held && block.base !in h.blocks {
      var i :| 0 <= i < |h.cache| && h.cache[i].base == block.base;
      assert h.cache[i] == block;
    }
    if block in h.cache {
      var i :| 0 <= i < |h.cache| && h.cache[i] == block;
      assert block.base in h.outstanding;
    }
  }

  // ----- what was asked for -----

  /** The bytes asked for at each live base: a request that is served and not empty is entered, a free that
      succeeds is struck out, and nothing else changes the ledger. */
  ghost function Entered(h: Heap, limit: nat, call: Call, ledger: map<nat, nat>): map<nat, nat>
    requires Inv(h, limit) && Permitted(h, limit, call)
  {
    match call
    case AllocCall(bytes, answer) =>
      var p := Alloc(h, limit, bytes, answer).1;
      if bytes > 0 && p.Some? then ledger[p.value := bytes] else ledger
    case FreeCall(p) => if p.Some? && Free(h, p).1 then ledger - {p.value} else ledger
    case TrimCall => ledger
  }

  ghost function Ledger(h: Heap, limit: nat, calls: seq<Call>, h': Heap, ledger: map<nat, nat>): map<nat, nat>
    requires Leads(h, limit, calls, h')
    decreases |calls|
  {
    if calls == [] then ledger
    else Ledger(Step(h, limit, calls[0]), limit, calls[1..], h', Entered(h, limit, calls[0], ledger))
  }

  /** The live allocations are those of the ledger, with the sizes that their requests were rounded to. */
  ghost predicate Balanced(h: Heap, ledger: map<nat, nat>) {
    forall p, size :: Live(h.blocks, p, size) <==> p in ledger && size == AlignedBytes(ledger[p])
  }

  lemma AllocBalances(h: Heap, limit: nat, bytes: nat, answer: Option<Block>, ledger: map<nat, nat>)
    requires Inv(h, limit) && Answered(h, limit, answer) && bytes > 0 && Balanced(h, ledger)
    ensures var (h', p) := Alloc(h, limit, bytes, answer);
            Balanced(h', if p.Some? then ledger[p.value := bytes] else ledger)
  {
    var (h', p) := Alloc(h, limit, bytes, answer);
    var ledger' := if p.Some? then ledger[p.value := bytes] else ledger;
    forall q, size ensures Live(h'.blocks, q, size) <==> q in ledger' && size == AlignedBytes(ledger'[q]) {
      AllocAddsLive(h, limit, bytes, answer, q, size);
      if p.Some? && q == p.value && q in ledger {
        AllocAddsLive(h, limit, bytes, answer, q, AlignedBytes(ledger[q]));
      }
    }
  }

  lemma FreeBalances(h: Heap, limit: nat, p: Option<nat>, ledger: map<nat, nat>)
    requires Inv(h, limit) && Balanced(h, ledger)
    ensures Balanced(Free(h, p).0, if p.Some? && Free(h, p).1 then ledger - {p.value} else ledger)
  {
    var (h', ok) := Free(h, p);
    var ledger' := if p.Some? && ok then ledger - {p.value} else ledger;
    forall q, size ensures Live(h'.blocks, q, size) <==> q in ledger' && size == AlignedBytes(ledger'[q]) {
      FreeEndsLive(h, limit, p, q, size);
    }
  }

  /** A permitted request for nothing leaves all fragments as they are. */
  lemma NothingBalances(h: Heap, limit: nat, answer: Option<Block>)
    requires Inv(h, limit) && Answered(h, limit, answer) && !BreaksHeap(h, 0, answer)
    ensures Alloc(h, limit, 0, answer).0.blocks == h.blocks
  {
    SmallRequests(0);
    if h.freeList != [] {
      AllocOfNothing(h, limit, answer, 0);
    }
  }

  lemma StepBalances(h: Heap, limit: nat, call: Call, ledger: map<nat, nat>)
    requires Inv(h, limit) && Permitted(h, limit, call) && Balanced(h, ledger)
    ensures Balanced(Step(h, limit, call), Entered(h, limit, call, ledger))
  {
    match call
    case AllocCall(bytes, answer) =>
      if bytes > 0 {
        AllocBalances(h, limit, bytes, answer, ledger);
      } else {
        NothingBalances(h, limit, answer);
      }
    case FreeCall(p) => FreeBalances(h, limit, p, ledger);
    case TrimCall => var h' := TrimKeeps(h, limit);
  }

  lemma {:induction false} RunBalances(h: Heap, limit: nat, calls: seq<Call>, h': Heap, ledger: map<nat, nat>)
    requires Inv(h, limit) && Leads(h, limit, calls, h') && Balanced(h, ledger)
    ensures Balanced(h', Ledger(h, limit, calls, h', ledger))
    decreases |calls|
  {
    if calls != [] {
      StepKeeps(h, limit, calls[0]);
      StepBalances(h, limit, calls[0], ledger);
      RunBalances(Step(h, limit, calls[0]), limit, calls[1..], h', Entered(h, limit, calls[0], ledger));
    }
  }

  /** In every reachable state the live allocations are exactly those asked for and not yet freed, and each
      is as long as what was asked for exactly when the conversion to float lost no needed byte of that. */
  lemma ReachableLengths(limit: nat, calls: seq<Call>, h: Heap, p: nat, size: nat)
    requires Leads(EMPTY, limit, calls, h)
    ensures var ledger := Ledger(EMPTY, limit, calls, h, map[]);
            && (Live(h.blocks, p, size) <==> p in ledger && size == AlignedBytes(ledger[p]))
            && (Live(h.blocks, p, size) ==> (size >= ledger[p] <==> !LosesBytes(ledger[p])))
  {
    EmptyInv(limit);
    assert Balanced(EMPTY, map[]);
    RunBalances(EMPTY, limit, calls, h, map[]);
    var ledger := Ledger(EMPTY, limit, calls, h, map[]);
    if p in ledger {
      AlignedBytesSuffice(ledger[p]);
    }
  }

  /** Live allocations are as long as requested, as far as the float allows it, share no byte with each other,
      with free fragments or with cached blocks, and lie inside listed blocks. */
  lemma ReachableLive(limit: nat, calls: seq<Call>, h: Heap, p: nat, size: nat, q: nat, size': nat, e: Entry, block: Block)
      returns (b: nat)
    requires Leads(EMPTY, limit, calls, h) && Live(h.blocks, p, size)
    ensures b in h.blocks && b in h.outstanding && b <= p && p + size <= b + h.outstanding[b] && size > 0
    ensures var ledger := Ledger(EMPTY, limit, calls, h, map[]);
            p in ledger && size == AlignedBytes(ledger[p]) && (size >= ledger[p] <==> !LosesBytes(ledger[p]))
    ensures Live(h.blocks, q, size') ==> (p == q && size == size') || Disjoint(p, size, q, size')
    ensures e in h.freeList ==> Disjoint(p, size, e.base, e.size)
    ensures block in h.cache ==> Disjoint(p, size, block.base, block.length)
  {
    EmptyInv(limit);
    RunKeeps(EMPTY, limit, calls, h);
    b := LiveOwner(h, limit, p, size);
    ReachableLengths(limit, calls, h, p, size);
    LiveAreNotFree(h, limit, p, size, e, block);
    if Live(h.blocks, q, size') {
      LiveAreDisjoint(h, limit, p, size, q, size');
    }
  }
}
