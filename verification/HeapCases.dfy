/** Calls at which `SimpleHeap` does less than one expects of it, with the states they lead to. */
module HeapCases {
  import opened Options
  import opened FreeList
  import opened Fragments
  import opened HeapModel
  import opened HeapInvariant
  import opened HeapCalls
  import opened HeapRuns
  import opened FloatAlign

  // ----- a request for nothing that takes a whole block -----

  /** The block that is taken when the free list is of no use. */
  function WholeBlock(h: Heap, answer: Option<Block>): Option<Block> {
    if h.cache != [] then Some(h.cache[|h.cache| - 1]) else answer
  }

  /** The block is listed with one used fragment of no size over its free one, and the free list has both no
      fragment for its entry and the entry. */
  lemma NothingTakesAll(h: Heap, limit: nat, answer: Option<Block>) returns (block: Block, h': Heap)
    requires Inv(h, limit) && Answered(h, limit, answer) && BreaksHeap(h, 0, answer)
    ensures Some(block) == WholeBlock(h, answer) && Alloc(h, limit, 0, answer) == (h', Some(block.base))
    ensures block.base in h'.blocks && h'.blocks[block.base] == map[block.base := Fragment(None, 0)]
    ensures h'.freeList == [Entry(block.length, block.base)] && block.length > 0
    ensures !ListedFree(h'.blocks, Entry(block.length, block.base)) && !Indexed(h')
  {
    SmallRequests(0);
    block := WholeBlock(h, answer).value;
    h' := Alloc(h, limit, 0, answer).0;
    WholeIsNew(h, limit, answer, block);
    PlacedNothing(block);
    var e := Entry(block.length, block.base);
    assert Insert([], e) == [e];
    NoOtherOwner(h, limit, block, h'.blocks, e);
    assert e in h'.freeList;
  }

  lemma PlacedNothing(block: Block)
    requires block.length > 0
    ensures Placed(block, 0) == map[block.base := Fragment(None, 0)]
  {
  }

  lemma WholeIsNew(h: Heap, limit: nat, answer: Option<Block>, block: Block)
    requires Inv(h, limit) && Answered(h, limit, answer) && WholeBlock(h, answer) == Some(block)
    ensures block.length > 0 && block.base !in h.blocks
    ensures forall b :: b in h.blocks ==>
              b in h.outstanding && (b + h.outstanding[b] <= block.base || block.base + block.length <= b)
  {
    if h.cache != [] {
      var i := |h.cache| - 1;
      assert h.cache[i].base in h.outstanding;
    }
    forall b | b in h.blocks
      ensures b in h.outstanding && b != block.base
      ensures b + h.outstanding[b] <= block.base || block.base + block.length <= b
    {
      assert KeptAt(h, b);
    }
  }

  lemma NoOtherOwner(h: Heap, limit: nat, block: Block, blocks: BlockMap, e: Entry)
    requires Inv(h, limit) && block.base !in h.blocks && h.freeList == [] && e == Entry(block.length, block.base)
    requires blocks == h.blocks[block.base := map[block.base := Fragment(None, 0)]]
    ensures !ListedFree(blocks, e)
  {
    forall b | b in blocks
      ensures !HasFree(blocks[b], e)
    {
      assert b in h.blocks && HasFree(h.blocks[b], e) ==> ListedFree(h.blocks, e);
    }
  }

  /** The next request that fits the block gets the address that the request for nothing has got. */
  lemma NothingIsGivenTwice(h: Heap, limit: nat, answer: Option<Block>, n: nat, answer': Option<Block>)
    requires Inv(h, limit) && Answered(h, limit, answer) && BreaksHeap(h, 0, answer)
    requires 0 < n <= limit && n <= WholeBlock(h, answer).value.length
    ensures var (h', p) := Alloc(h, limit, 0, answer);
            p.Some? && Servable(h', limit, n, answer') && Serve(h', limit, n, answer').1 == p
  {
    var block, h' := NothingTakesAll(h, limit, answer);
    assert FloorKey(h'.blocks, block.base) == Some(block.base);
  }

  /** It happens to a new heap. */
  lemma FirstRequestForNothing(limit: nat, block: Block, n: nat, answer: Option<Block>)
    requires block.base > 0 && block.length > 0 && block.length >= limit && 0 < n <= limit
    ensures Inv(EMPTY, limit) && Answered(EMPTY, limit, Some(block))
    ensures var (h', p) := Alloc(EMPTY, limit, 0, Some(block));
            && p == Some(block.base) && !Indexed(h')
            && Servable(h', limit, n, answer) && Serve(h', limit, n, answer).1 == Some(block.base)
  {
    EmptyInv(limit);
    var taken, h' := NothingTakesAll(EMPTY, limit, Some(block));
    NothingIsGivenTwice(EMPTY, limit, Some(block), n, answer);
  }

  // ----- an order that alloc and free do not restore -----

  /** The first block is twice the alignment, the second three times. */
  const FIRST: Block := Block(0x1000_0000, 0x40_0000)
  const SECOND: Block := Block(0x2000_0000, 0x60_0000)

  const CALLS: seq<Call> := [AllocCall(0x20_0000, Some(FIRST)), AllocCall(0x40_0000, Some(SECOND))]

  const LIMIT: nat := 0x40_0000

  lemma Sizes()
    ensures AlignedBytes(1) == 0x20_0000 && AlignedBytes(0x20_0000) == 0x20_0000 && AlignedBytes(0x40_0000) == 0x40_0000
  {
    SmallAreExact(1);
    SmallAreExact(0x20_0000);
    SmallAreExact(0x40_0000);
  }

  /** Two calls leave two free fragments of one size. */
  lemma TwinFragments() returns (h: Heap)
    ensures Leads(EMPTY, LIMIT, CALLS, h) && Inv(h, LIMIT)
    ensures h.freeList == [Entry(0x20_0000, 0x1020_0000), Entry(0x20_0000, 0x2040_0000)]
  {
    Sizes();
    EmptyInv(LIMIT);
    var h1 := FirstCall();
    h := SecondCall(h1);
    assert CALLS[1..] == [CALLS[1]] && CALLS[1..][1..] == [];
    assert Leads(h, LIMIT, [], h);
    assert Leads(h1, LIMIT, CALLS[1..], h);
  }

  lemma FirstCall() returns (h: Heap)
    ensures Inv(EMPTY, LIMIT) && Permitted(EMPTY, LIMIT, CALLS[0]) && h == HeapRuns.Step(EMPTY, LIMIT, CALLS[0])
    ensures Inv(h, LIMIT) && h.freeList == [Entry(0x20_0000, 0x1020_0000)]
    ensures h.cache == [] && h.outstanding == map[FIRST.base := FIRST.length]
  {
    Sizes();
    EmptyInv(LIMIT);
    StepKeeps(EMPTY, LIMIT, CALLS[0]);
    h := HeapRuns.Step(EMPTY, LIMIT, CALLS[0]);
    assert Insert([], Entry(0x20_0000, 0x1020_0000)) == [Entry(0x20_0000, 0x1020_0000)];
  }

  lemma SecondCall(h1: Heap) returns (h: Heap)
    requires Inv(h1, LIMIT) && h1.freeList == [Entry(0x20_0000, 0x1020_0000)]
    requires h1.cache == [] && h1.outstanding == map[FIRST.base := FIRST.length]
    ensures Permitted(h1, LIMIT, CALLS[1]) && h == HeapRuns.Step(h1, LIMIT, CALLS[1])
    ensures Inv(h, LIMIT)
    ensures h.freeList == [Entry(0x20_0000, 0x1020_0000), Entry(0x20_0000, 0x2040_0000)]
  {
    Sizes();
    StepKeeps(h1, LIMIT, CALLS[1]);
    h := HeapRuns.Step(h1, LIMIT, CALLS[1]);
    var e := Entry(0x20_0000, 0x2040_0000);
    assert Insert(h1.freeList, e) == h1.freeList + [e];
  }

  /** From there a request that is freed at once does not give the same heap back. */
  lemma OrderIsNotRestored() returns (h: Heap)
    ensures Leads(EMPTY, LIMIT, CALLS, h) && Inv(h, LIMIT)
    ensures var (h1, p) := Alloc(h, LIMIT, 1, None); var (h2, ok) := Free(h1, p);
            p.Some? && ok && h2 != h && multiset(h2.freeList) == multiset(h.freeList)
  {
    h := TwinFragments();
    Sizes();
    TwinsSwap(h, LIMIT);
  }

  lemma TwinsSwap(h: Heap, limit: nat)
    requires Inv(h, limit) && limit >= AlignedBytes(1) == 0x20_0000
    requires |h.freeList| == 2 && h.freeList[0].size == 0x20_0000 && h.freeList[1].size == 0x20_0000
    ensures var (h1, p) := Alloc(h, limit, 1, None); var (h2, ok) := Free(h1, p);
            p.Some? && ok && h2 != h && multiset(h2.freeList) == multiset(h.freeList)
  {
    assert LowerBound(h.freeList, 0x20_0000) == 0;
    AllocThenFree(h, limit, 1, None);
  }
}
