/** The state of `SimpleHeap` and what alloc, free and trim do to it.

    Iterators into the free list are the entries they designate, and a pointer is the address it
    holds, with None for nullptr.  The block allocator is not part of the model: its answer to a request
    is a parameter, and what it has handed out and taken back is recorded. */
module HeapModel {
  import opened Options
  import opened FreeList
  import opened Fragments
  import opened FloatAlign

  datatype Block = Block(base: nat, length: nat)

  type BlockMap = map<nat, FragMap>

  /** `outstanding` maps the base of each block that the block allocator has handed out and not got
      back to the block's length; `obtained` and `released` record all blocks that it handed out and
      got back. */
  datatype Heap = Heap(
    freeList: seq<Entry>,
    blocks: BlockMap,
    cache: seq<Block>,
    inUse: int,
    cached: int,
    outstanding: map<nat, nat>,
    obtained: multiset<Block>,
    released: multiset<Block>)

  const EMPTY := Heap([], map[], [], 0, 0, map[], multiset{}, multiset{})

  // ----- alloc -----

  /** Gives away the first n bytes of the free fragment at index i of the free list, which lies in block b. */
  function ChosenFrom(h: Heap, i: nat, n: nat, b: nat): Heap
    requires i < |h.freeList| && n <= h.freeList[i].size && b in h.blocks
  {
    var e, rest := h.freeList[i], RemoveAt(h.freeList, i);
    if e.size > n then
      h.(freeList := Insert(rest, Entry(e.size - n, e.base + n)),
         blocks := h.blocks[b := Split(h.blocks[b], e.base, n, e.size)])
    else
      h.(freeList := rest, blocks := h.blocks[b := Take(h.blocks[b], e.base, n)])
  }

  /** Serves a request of n bytes from the free fragment at index i of the free list. */
  function AllocFragment(h: Heap, i: nat, n: nat): Heap
    requires i < |h.freeList| && n <= h.freeList[i].size
    requires FloorKey(h.blocks, h.freeList[i].base).Some?
  {
    ChosenFrom(h, i, n, FloorKey(h.blocks, h.freeList[i].base).value)
  }

  /** The fragments of a block of which the first n bytes are given away. */
  function Placed(block: Block, n: nat): FragMap
    requires n <= block.length
  {
    var rest := Entry(block.length - n, block.base + n);
    if block.length > n then map[block.base + n := Fragment(Some(rest), rest.size)][block.base := Fragment(None, n)]
    else map[block.base := Fragment(None, n)]
  }

  /** Lists a block whose first n bytes are given away. */
  function PlaceBlock(h: Heap, block: Block, n: nat): Heap
    requires n <= block.length
  {
    h.(freeList := if block.length > n then Insert(h.freeList, Entry(block.length - n, block.base + n)) else h.freeList,
       blocks := h.blocks[block.base := Placed(block, n)],
       inUse := h.inUse + block.length)
  }

  function PopCache(h: Heap): Heap
    requires h.cache != []
  {
    var last := h.cache[|h.cache| - 1];
    h.(cache := h.cache[..|h.cache| - 1], cached := h.cached - last.length)
  }

  /** The block allocator hands out a block. */
  function Obtain(h: Heap, block: Block): Heap {
    h.(outstanding := h.outstanding[block.base := block.length], obtained := h.obtained + multiset{block})
  }

  /** The cases in which a block is taken into use: from the cache or from the block allocator. */
  function AllocBlock(h: Heap, n: nat, answer: Option<Block>): (Heap, Option<nat>)
    requires if h.cache != [] then n <= h.cache[|h.cache| - 1].length else answer.Some? ==> n <= answer.value.length
  {
    if h.cache != [] then
      var block := h.cache[|h.cache| - 1];
      (PlaceBlock(PopCache(h), block, n), Some(block.base))
    else if answer.Some? then
      (PlaceBlock(Obtain(h, answer.value), answer.value, n), Some(answer.value.base))
    else
      (h, None)
  }

  // ----- free -----

  function EraseIf(l: seq<Entry>, e: Option<Entry>): seq<Entry> {
    if e.Some? && e.value in l then Erase(l, e.value) else l
  }

  /** The base of the block whose fragments include a used one at p. */
  function UsedIn(blocks: BlockMap, p: nat): (r: Option<nat>)
    ensures r.Some? ==> r.value in blocks && p in blocks[r.value] && blocks[r.value][p].entry.None?
  {
    var b := FloorKey(blocks, p);
    if b.Some? && p in blocks[b.value] && blocks[b.value][p].entry.None? then b else None
  }

  function MoveToCache(h: Heap, b: nat, block: Block, rest: seq<Entry>): Heap {
    h.(freeList := rest, blocks := h.blocks - {b}, inUse := h.inUse - block.length,
       cached := h.cached + block.length, cache := h.cache + [block])
  }

  /** The state after the merges and the move of the fragment to the free list or the block to the cache. */
  function GivenBack(h: Heap, b: nat, p: nat): Heap
    requires b in h.blocks && p in h.blocks[b]
  {
    var m := h.blocks[b];
    var (m1, c) := MergeLower(m, p);
    var m2 := MergeUpper(m1, c);
    var rest := EraseIf(EraseIf(h.freeList, MergedEntry(m, LowerFree(m, p))), MergedEntry(m1, UpperFree(m1, c)));
    if |m2| == 1 then MoveToCache(h, b, Block(c, m2[c].size), rest)
    else h.(freeList := Insert(rest, Entry(m2[c].size, c)), blocks := h.blocks[b := Release(m2, c)])
  }

  /** Merges the fragment at p of block b with its free neighbours and lists the result as free, or, if
      it is the whole block, moves the block to the cache and hands old blocks back. */
  function FreeFragment(h: Heap, b: nat, p: nat): Heap
    requires b in h.blocks && p in h.blocks[b]
  {
    var h' := GivenBack(h, b, p);
    if |Freed(h.blocks[b], p).0| == 1 then ReleaseOld(h') else h'
  }

  /** The block allocator gets the block at the front of the cache back. */
  function DropFront(h: Heap): Heap
    requires h.cache != []
  {
    var block := h.cache[0];
    h.(cache := h.cache[1..], cached := h.cached - block.length,
       outstanding := h.outstanding - {block.base}, released := h.released + multiset{block})
  }

  predicate OverLimit(h: Heap) { |h.cache| > 1 && h.cached > h.inUse * 2 }

  function ReleaseOld(h: Heap): (r: Heap)
    ensures !OverLimit(r)
    decreases |h.cache|
  {
    if OverLimit(h) then ReleaseOld(DropFront(h)) else h
  }

  function Free(h: Heap, p: Option<nat>): (Heap, bool) {
    if p == None then (h, true)
    else
      var b := UsedIn(h.blocks, p.value);
      if b.Some? then (FreeFragment(h, b.value, p.value), true) else (h, false)
  }

  // ----- trim -----

  function Trim(h: Heap): Heap
    decreases |h.cache|
  {
    if h.cache == [] then h.(cached := 0) else Trim(DropFront(h))
  }

  // ----- the invariant -----

  /** Some listed block has the free fragment that the entry describes. */
  ghost predicate ListedFree(blocks: BlockMap, e: Entry) {
    exists b :: b in blocks && HasFree(blocks[b], e)
  }

  ghost function SumLengths(bases: set<nat>, lengths: map<nat, nat>): int {
    if bases == {} then 0
    else
      var b :| b in bases;
      (if b in lengths then lengths[b] else 0) + SumLengths(bases - {b}, lengths)
  }

  ghost function SumCache(cache: seq<Block>): int {
    if cache == [] then 0 else cache[0].length + SumCache(cache[1..])
  }

  predicate InCache(cache: seq<Block>, b: nat) {
    exists i :: 0 <= i < |cache| && cache[i].base == b
  }

  ghost function AllBlocks(lengths: map<nat, nat>): set<Block> {
    set b | b in lengths :: Block(b, lengths[b])
  }

  /** What the block allocator's blocks are: not null, at least `limit` long, and apart. */
  ghost predicate Territory(lengths: map<nat, nat>, limit: nat) {
    && (forall b :: b in lengths ==> b > 0 && lengths[b] > 0 && lengths[b] >= limit)
    && (forall b, c :: b in lengths && c in lengths && b < c ==> b + lengths[b] <= c)
  }

  ghost predicate KeptAt(h: Heap, b: nat) {
    b in h.blocks && b in h.outstanding && Kept(h.blocks[b], b, h.outstanding[b])
  }

  ghost predicate Listed(h: Heap) {
    forall b {:trigger KeptAt(h, b)} :: b in h.blocks ==> KeptAt(h, b)
  }

  ghost predicate Cached(h: Heap) {
    && (forall i :: 0 <= i < |h.cache| ==>
          && h.cache[i].base in h.outstanding && h.outstanding[h.cache[i].base] == h.cache[i].length
          && h.cache[i].base !in h.blocks)
    && (forall i, j :: 0 <= i < j < |h.cache| ==> h.cache[i].base != h.cache[j].base)
  }

  ghost predicate Indexed(h: Heap) {
    && Sorted(h.freeList) && Distinct(h.freeList)
    && (forall e :: e in h.freeList <==> ListedFree(h.blocks, e))
  }

  ghost predicate Counted(h: Heap) {
    h.inUse == SumLengths(h.blocks.Keys, h.outstanding) && h.cached == SumCache(h.cache)
  }

  ghost predicate Recorded(h: Heap) {
    h.obtained == h.released + multiset(AllBlocks(h.outstanding))
  }

  /** Every outstanding block is listed or cached, except for `pending`, which is neither. */
  ghost predicate Accounted(h: Heap, pending: Option<Block>) {
    && (forall b :: b in h.outstanding ==> b in h.blocks || InCache(h.cache, b) || (pending.Some? && pending.value.base == b))
    && (pending.Some? ==>
          && pending.value.base in h.outstanding && h.outstanding[pending.value.base] == pending.value.length
          && pending.value.base !in h.blocks && !InCache(h.cache, pending.value.base))
  }

  ghost predicate CoreBut(h: Heap, limit: nat, pending: Option<Block>) {
    && Territory(h.outstanding, limit) && Listed(h) && Cached(h) && Indexed(h) && Counted(h) && Recorded(h)
    && Accounted(h, pending)
  }

  /** The invariant of the heap between calls. */
  ghost predicate Inv(h: Heap, limit: nat) {
    CoreBut(h, limit, None) && !OverLimit(h)
  }

  lemma EmptyInv(limit: nat)
    ensures Inv(EMPTY, limit)
  {
    assert AllBlocks(EMPTY.outstanding) == {};
  }
}
