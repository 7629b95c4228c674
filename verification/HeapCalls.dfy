/** The calls of `SimpleHeap` as a whole: what alloc and free promise, and whole runs. */
module HeapCalls {
  import opened Options
  import opened FreeList
  import opened Fragments
  import opened HeapModel
  import opened HeapInvariant
  import opened FloatAlign

  ghost predicate Answered(h: Heap, limit: nat, answer: Option<Block>) {
    answer.Some? ==> Fresh(h, limit, answer.value)
  }

  lemma LastCachedLength(h: Heap, limit: nat)
    requires CoreBut(h, limit, None)
    ensures h.cache != [] ==> h.cache[|h.cache| - 1].length >= limit
  {
  }

  /** Every lookup that serving a request makes succeeds. */
  predicate Servable(h: Heap, limit: nat, n: nat, answer: Option<Block>) {
    n <= limit ==>
      var i := LowerBound(h.freeList, n);
      if i < |h.freeList| then FloorKey(h.blocks, h.freeList[i].base).Some?
      else if h.cache != [] then n <= h.cache[|h.cache| - 1].length
      else answer.Some? ==> n <= answer.value.length
  }

  /** Serves a request of which the size is n; `answer` is what the block allocator returns if it is asked,
      `limit` its block size. */
  function Serve(h: Heap, limit: nat, n: nat, answer: Option<Block>): (Heap, Option<nat>)
    requires Servable(h, limit, n, answer)
  {
    if n > limit then (h, None)
    else
      var i := LowerBound(h.freeList, n);
      if i < |h.freeList| then (AllocFragment(h, i, n), Some(h.freeList[i].base)) else AllocBlock(h, n, answer)
  }

  lemma InvServes(h: Heap, limit: nat, n: nat, answer: Option<Block>)
    requires Inv(h, limit) && Answered(h, limit, answer)
    ensures Servable(h, limit, n, answer)
  {
    LastCachedLength(h, limit);
    var i := LowerBound(h.freeList, n);
    if i < |h.freeList| {
      var b := EntryOwner(h, limit, h.freeList[i]);
    }
  }

  /** `alloc` */
  function Alloc(h: Heap, limit: nat, bytes: nat, answer: Option<Block>): (Heap, Option<nat>)
    requires Inv(h, limit) && Answered(h, limit, answer)
  {
    InvServes(h, limit, AlignedBytes(bytes), answer);
    Serve(h, limit, AlignedBytes(bytes), answer)
  }

  // ----- the invariant, and the one request that breaks it -----

  /** A request for nothing that is served from a whole block. */
  predicate BreaksHeap(h: Heap, bytes: nat, answer: Option<Block>) {
    bytes == 0 && h.freeList == [] && (h.cache != [] || answer.Some?)
  }

  lemma AllocBlockKeeps(h: Heap, limit: nat, n: nat, answer: Option<Block>)
    requires Inv(h, limit) && Answered(h, limit, answer) && n <= limit
    ensures h.cache != [] ==> n <= h.cache[|h.cache| - 1].length
    ensures n > 0 ==> Inv(AllocBlock(h, n, answer).0, limit)
  {
    LastCachedLength(h, limit);
    if n > 0 {
      if h.cache != [] {
        var h1 := PopCacheKeeps(h, limit);
        var h2 := PlaceBlockKeeps(h1, limit, h.cache[|h.cache| - 1], n);
        SumNonnegative(h.blocks.Keys, h.outstanding);
        PoppedWithinLimit(h, h2, n);
      } else if answer.Some? {
        var h1 := ObtainKeeps(h, limit, answer.value);
        var h2 := PlaceBlockKeeps(h1, limit, answer.value, n);
      }
    }
  }

  lemma PoppedWithinLimit(h: Heap, h2: Heap, n: nat)
    requires !OverLimit(h) && h.cache != [] && n <= h.cache[|h.cache| - 1].length
    requires h2 == PlaceBlock(PopCache(h), h.cache[|h.cache| - 1], n)
    ensures !OverLimit(h2)
  {
  }

  /** A free fragment cut into nothing and the whole is the fragment itself. */
  lemma AllocNothing(h: Heap, limit: nat, i: nat)
    requires Inv(h, limit) && i < |h.freeList|
    ensures FloorKey(h.blocks, h.freeList[i].base).Some?
    ensures AllocFragment(h, i, 0).blocks == h.blocks
    ensures Inv(AllocFragment(h, i, 0), limit)
  {
    var e := h.freeList[i];
    var b := EntryOwner(h, limit, e);
    RemoveKeeps(h.freeList, i);
    var list := Insert(RemoveAt(h.freeList, i), e);
    InsertKeeps(RemoveAt(h.freeList, i), e);
    SplitNothing(h.blocks[b], e);
    assert KeptAt(h, b);
    forall x
      ensures x in list <==> (x in h.freeList && !HasFree(h.blocks[b], x)) || HasFree(h.blocks[b], x)
    {
      assert HasFree(h.blocks[b], x) ==> ListedFree(h.blocks, x);
    }
    var h' := UpdateBlock(h, limit, b, h.blocks[b], list);
    assert h.blocks[b := h.blocks[b]] == h.blocks;
  }

  lemma SplitNothing(m: FragMap, e: Entry)
    requires HasFree(m, e) && m[e.base].size == e.size
    ensures Split(m, e.base, 0, e.size) == m
  {
  }

  /** `alloc` keeps the invariant except in that one case. */
  lemma AllocKeeps(h: Heap, limit: nat, bytes: nat, answer: Option<Block>)
    requires Inv(h, limit) && Answered(h, limit, answer)
    ensures Inv(Alloc(h, limit, bytes, answer).0, limit) <==> !BreaksHeap(h, bytes, answer)
  {
    var n := AlignedBytes(bytes);
    SmallRequests(bytes);
    if n <= limit {
      var i := LowerBound(h.freeList, n);
      if i < |h.freeList| {
        if n > 0 {
          var h' := AllocFragmentKeeps(h, limit, i, n);
        } else {
          AllocNothing(h, limit, i);
        }
      } else {
        AllocBlockKeeps(h, limit, n, answer);
        if n == 0 {
          EmptyListBreaks(h, limit, answer);
        }
      }
    }
  }

  lemma EmptyListBreaks(h: Heap, limit: nat, answer: Option<Block>)
    requires Inv(h, limit) && Answered(h, limit, answer)
    ensures h.cache != [] || answer.Some? ==> !Inv(AllocBlock(h, 0, answer).0, limit)
    ensures h.cache == [] && answer.None? ==> AllocBlock(h, 0, answer).0 == h
  {
    if h.cache != [] {
      PlaceNothingBreaks(PopCache(h), limit, h.cache[|h.cache| - 1]);
    } else if answer.Some? {
      PlaceNothingBreaks(Obtain(h, answer.value), limit, answer.value);
    }
  }

  // ----- live allocations -----

  /** A used fragment: `size` bytes at p have been given away and not been freed. */
  ghost predicate Live(blocks: BlockMap, p: nat, size: nat) {
    exists b :: b in blocks && HasUsed(blocks[b], p, size)
  }

  lemma LiveOwner(h: Heap, limit: nat, p: nat, size: nat) returns (b: nat)
    requires Inv(h, limit) && Live(h.blocks, p, size)
    ensures b in h.blocks && HasUsed(h.blocks[b], p, size) && UsedIn(h.blocks, p) == Some(b)
    ensures KeptAt(h, b) && b <= p && p + size <= b + h.outstanding[b] && size > 0
  {
    b :| b in h.blocks && HasUsed(h.blocks[b], p, size);
    assert KeptAt(h, b);
    UsedInIsOwner(h, limit, b, p);
  }

  predicate Disjoint(p: nat, size: nat, q: nat, size': nat) {
    p + size <= q || q + size' <= p
  }

  /** Different live allocations share no byte, and one address has one size. */
  lemma LiveAreDisjoint(h: Heap, limit: nat, p: nat, size: nat, q: nat, size': nat)
    requires Inv(h, limit) && Live(h.blocks, p, size) && Live(h.blocks, q, size')
    ensures p == q ==> size == size'
    ensures p != q ==> Disjoint(p, size, q, size')
  {
    var b := LiveOwner(h, limit, p, size);
    var c := LiveOwner(h, limit, q, size');
    if b == c {
      assert Apart(h.blocks[b]);
    }
  }

  /** No free fragment and no cached block overlaps a live allocation. */
  lemma LiveAreNotFree(h: Heap, limit: nat, p: nat, size: nat, e: Entry, block: Block)
    requires Inv(h, limit) && Live(h.blocks, p, size)
    ensures e in h.freeList ==> Disjoint(p, size, e.base, e.size)
    ensures block in h.cache ==> Disjoint(p, size, block.base, block.length)
  {
    var b := LiveOwner(h, limit, p, size);
    if e in h.freeList {
      var c := EntryOwner(h, limit, e);
      assert KeptAt(h, c);
      if b == c {
        assert Apart(h.blocks[b]);
      }
    }
    if block in h.cache {
      var i :| 0 <= i < |h.cache| && h.cache[i] == block;
      assert block.base in h.outstanding && block.base != b;
    }
  }

  /** Replacing block b's fragments changes what is live as it changes what is used in b. */
  lemma LiveInBlock(blocks: BlockMap, b: nat, m: FragMap, p: nat, size: nat)
    ensures Live(blocks[b := m], p, size)
            <==> HasUsed(m, p, size) || exists c :: c in blocks && c != b && HasUsed(blocks[c], p, size)
  {
    var blocks' := blocks[b := m];
    if HasUsed(m, p, size) {
      assert HasUsed(blocks'[b], p, size);
    }
    if c :| c in blocks && c != b && HasUsed(blocks[c], p, size) {
      assert c in blocks' && HasUsed(blocks'[c], p, size);
    }
    if Live(blocks', p, size) {
      var c :| c in blocks' && HasUsed(blocks'[c], p, size);
      assert c != b ==> c in blocks && HasUsed(blocks[c], p, size);
    }
  }

  lemma LiveElsewhere(blocks: BlockMap, b: nat, p: nat, size: nat)
    requires b in blocks
    ensures Live(blocks, p, size)
            <==> HasUsed(blocks[b], p, size) || exists c :: c in blocks && c != b && HasUsed(blocks[c], p, size)
  {
    LiveInBlock(blocks, b, blocks[b], p, size);
    assert blocks[b := blocks[b]] == blocks;
  }

  lemma AllocFragmentLive(h: Heap, limit: nat, i: nat, n: nat, q: nat, size: nat)
    requires Inv(h, limit) && i < |h.freeList| && 0 < n <= h.freeList[i].size
    ensures FloorKey(h.blocks, h.freeList[i].base).Some?
    ensures Live(AllocFragment(h, i, n).blocks, q, size)
            <==> Live(h.blocks, q, size) || (q == h.freeList[i].base && size == n)
    ensures !Live(h.blocks, h.freeList[i].base, size)
  {
    var e := h.freeList[i];
    var b := EntryOwner(h, limit, e);
    assert KeptAt(h, b);
    var m := h.blocks[b];
    LiveElsewhere(h.blocks, b, q, size);
    if e.size > n {
      SplitInside(m, e.base, n, e.base + n);
      SplitEffect(m, e.base, n, e, q, size);
      LiveInBlock(h.blocks, b, Split(m, e.base, n, e.size), q, size);
    } else {
      TakeEffect(m, e.base, e, q, size);
      LiveInBlock(h.blocks, b, Take(m, e.base, n), q, size);
    }
    if Live(h.blocks, e.base, size) {
      var c := LiveOwner(h, limit, e.base, size);
      OneOwner(h, limit, b, c, e.base);
    }
  }

  lemma PlaceBlockLive(h: Heap, limit: nat, block: Block, n: nat, q: nat, size: nat)
    requires CoreBut(h, limit, Some(block)) && 0 < n <= block.length
    ensures Live(PlaceBlock(h, block, n).blocks, q, size) <==> Live(h.blocks, q, size) || (q == block.base && size == n)
    ensures !Live(h.blocks, block.base, size)
  {
    LiveInBlock(h.blocks, block.base, Placed(block, n), q, size);
    PlacedEffect(block, n, Entry(0, 0), q, size);
    if Live(h.blocks, q, size) {
      var b :| b in h.blocks && HasUsed(h.blocks[b], q, size);
      assert b != block.base;
    }
    if Live(h.blocks, block.base, size) {
      var b :| b in h.blocks && HasUsed(h.blocks[b], block.base, size);
      OutsideListed(h, limit, block, b, block.base);
    }
  }

  lemma AllocBlockLive(h: Heap, limit: nat, n: nat, answer: Option<Block>, q: nat, size: nat)
    requires Inv(h, limit) && Answered(h, limit, answer) && 0 < n <= limit
    ensures h.cache != [] ==> n <= h.cache[|h.cache| - 1].length
    ensures var (h', p) := AllocBlock(h, n, answer);
            && (p.None? ==> h' == h)
            && (p.Some? ==> !Live(h.blocks, p.value, size))
            && (p.Some? ==> (Live(h'.blocks, q, size) <==> Live(h.blocks, q, size) || (q == p.value && size == n)))
  {
    LastCachedLength(h, limit);
    if h.cache != [] {
      var h1 := PopCacheKeeps(h, limit);
      PlaceBlockLive(h1, limit, h.cache[|h.cache| - 1], n, q, size);
    } else if answer.Some? {
      var h1 := ObtainKeeps(h, limit, answer.value);
      PlaceBlockLive(h1, limit, answer.value, n, q, size);
    }
  }

  /** `alloc` returns the address of a new live allocation, of the aligned size, and changes no other;
      or it returns null and changes nothing. */
  lemma AllocAddsLive(h: Heap, limit: nat, bytes: nat, answer: Option<Block>, q: nat, size: nat)
    requires Inv(h, limit) && Answered(h, limit, answer) && bytes > 0
    ensures var (h', p) := Alloc(h, limit, bytes, answer);
            && (p.None? ==> h' == h)
            && (p.Some? ==> !Live(h.blocks, p.value, size))
            && (p.Some? ==>
                  (Live(h'.blocks, q, size) <==>
                   Live(h.blocks, q, size) || (q == p.value && size == AlignedBytes(bytes))))
  {
    var n := AlignedBytes(bytes);
    SmallRequests(bytes);
    if n <= limit {
      var i := LowerBound(h.freeList, n);
      if i < |h.freeList| {
        AllocFragmentLive(h, limit, i, n, q, size);
      } else {
        AllocBlockLive(h, limit, n, answer, q, size);
      }
    }
  }

  /** A request for nothing that is served from a free fragment: the address is not that of an
      allocation, and nothing but the order of equally large free fragments changes. */
  lemma AllocOfNothing(h: Heap, limit: nat, answer: Option<Block>, size: nat)
    requires Inv(h, limit) && Answered(h, limit, answer) && h.freeList != []
    ensures var (h', p) := Alloc(h, limit, 0, answer);
            && p == Some(h.freeList[0].base) && !Live(h'.blocks, h.freeList[0].base, size)
            && multiset(h'.freeList) == multiset(h.freeList) && h' == h.(freeList := h'.freeList)
  {
    var h' := NothingAllocated(h, limit, answer);
    InsertRemoved(h.freeList, 0);
    NotLiveAtFree(h, limit, h.freeList[0], size);
  }

  lemma NothingAllocated(h: Heap, limit: nat, answer: Option<Block>) returns (h': Heap)
    requires Inv(h, limit) && Answered(h, limit, answer) && h.freeList != []
    ensures (h', Some(h.freeList[0].base)) == Alloc(h, limit, 0, answer)
    ensures h' == h.(freeList := Insert(RemoveAt(h.freeList, 0), h.freeList[0]))
  {
    SmallRequests(0);
    AllocNothing(h, limit, 0);
    var b := EntryOwner(h, limit, h.freeList[0]);
    assert KeptAt(h, b);
    h' := AllocFragment(h, 0, 0);
    ZeroFragment(h);
  }

  lemma ZeroFragment(h: Heap)
    requires h.freeList != [] && FloorKey(h.blocks, h.freeList[0].base).Some?
    requires AllocFragment(h, 0, 0).blocks == h.blocks && h.freeList[0].size > 0
    ensures AllocFragment(h, 0, 0) == h.(freeList := Insert(RemoveAt(h.freeList, 0), h.freeList[0]))
  {
  }

  lemma NotLiveAtFree(h: Heap, limit: nat, e: Entry, size: nat)
    requires Inv(h, limit) && e in h.freeList
    ensures !Live(h.blocks, e.base, size)
  {
    var b := EntryOwner(h, limit, e);
    if Live(h.blocks, e.base, size) {
      var c := LiveOwner(h, limit, e.base, size);
      OneOwner(h, limit, b, c, e.base);
    }
  }

  /** The allocation is at least as long as requested exactly when rounding the byte count to a float
      does not lose the bytes that exceed a multiple of the alignment. */
  lemma AllocIsLongEnough(h: Heap, limit: nat, bytes: nat, answer: Option<Block>, size: nat)
    requires Inv(h, limit) && Answered(h, limit, answer) && bytes > 0
    requires var (h', p) := Alloc(h, limit, bytes, answer); p.Some? && Live(h'.blocks, p.value, size)
    ensures size >= bytes <==> !LosesBytes(bytes)
  {
    AllocAddsLive(h, limit, bytes, answer, Alloc(h, limit, bytes, answer).1.value, size);
    AlignedBytesSuffice(bytes);
  }

  /** Best fit: a free fragment is used if any is large enough, then one of least size, and neither the
      cache nor the block allocator is touched; otherwise the block comes from one of these. */
  lemma AllocIsBestFit(h: Heap, limit: nat, bytes: nat, answer: Option<Block>, e: Entry)
    requires Inv(h, limit) && Answered(h, limit, answer)
    ensures var (h', p) := Alloc(h, limit, bytes, answer);
            var n := AlignedBytes(bytes);
            var i := LowerBound(h.freeList, n);
            && (n > limit ==> p == None && h' == h)
            && (n <= limit && e in h.freeList && e.size >= n ==>
                  && i < |h.freeList| && p == Some(h.freeList[i].base) && n <= h.freeList[i].size <= e.size
                  && (forall k :: 0 <= k < i ==> h.freeList[k].size < n)
                  && h'.cache == h.cache && h'.outstanding == h.outstanding && h'.inUse == h.inUse)
  {
    var n := AlignedBytes(bytes);
    if e in h.freeList && e.size >= n {
      LowerBoundIsBestFit(h.freeList, n, e);
    }
  }

  /** Where no free fragment is large enough, the block cached last is taken, or else one is obtained. */
  lemma AllocFallsBack(h: Heap, limit: nat, bytes: nat, answer: Option<Block>)
    requires Inv(h, limit) && Answered(h, limit, answer) && AlignedBytes(bytes) <= limit
    requires forall e :: e in h.freeList ==> e.size < AlignedBytes(bytes)
    ensures var (h', p) := Alloc(h, limit, bytes, answer);
      if h.cache != [] then
        var last := |h.cache| - 1;
        p == Some(h.cache[last].base) && h'.cache == h.cache[..last] && h'.inUse == h.inUse + h.cache[last].length
        && h'.outstanding == h.outstanding && h'.obtained == h.obtained
      else if answer.Some? then
        p == Some(answer.value.base) && h'.cache == [] && h'.inUse == h.inUse + answer.value.length
        && h'.outstanding == h.outstanding[answer.value.base := answer.value.length]
        && h'.obtained == h.obtained + multiset{answer.value}
      else p == None && h' == h
  {
    NoneFits(h.freeList, AlignedBytes(bytes));
  }

  // ----- free -----

  lemma ReleaseOldBlocks(h: Heap)
    ensures ReleaseOld(h).blocks == h.blocks
    decreases |h.cache|
  {
    if OverLimit(h) {
      ReleaseOldBlocks(DropFront(h));
    }
  }

  lemma FreeFragmentLive(h: Heap, limit: nat, b: nat, p: nat, q: nat, size: nat)
    requires Inv(h, limit) && b in h.blocks && p in h.blocks[b] && h.blocks[b][p].entry.None?
    ensures Live(FreeFragment(h, b, p).blocks, q, size) <==> Live(h.blocks, q, size) && q != p
  {
    assert KeptAt(h, b);
    var m := h.blocks[b];
    var m2, c, rest := FreeParts(h, limit, b, p);
    FreedEffect(m, b, h.outstanding[b], p, Entry(0, 0), q, size);
    LiveElsewhere(h.blocks, b, q, size);
    NotElsewhere(h, limit, b, p, size);
    if |m2| == 1 {
      FreeFragmentWhole(h, b, p, m2, c, rest);
      ReleaseOldBlocks(MoveToCache(h, b, Block(c, m2[c].size), rest));
      LiveWithout(h.blocks, b, q, size);
      OnlyFreed(m, m2, b, p, q, size);
    } else {
      LiveInBlock(h.blocks, b, Release(m2, c), q, size);
    }
  }

  lemma OnlyFreed(m: FragMap, m2: FragMap, b: nat, p: nat, q: nat, size: nat)
    requires m2.Keys == {b} && b in m2
    requires HasUsed(Release(m2, b), q, size) <==> HasUsed(m, q, size) && q != p
    ensures HasUsed(m, q, size) ==> q == p
  {
    assert !HasUsed(Release(m2, b), q, size) by {
      assert q in Release(m2, b) ==> q in m2.Keys + {b};
    }
  }

  lemma NotElsewhere(h: Heap, limit: nat, b: nat, p: nat, size: nat)
    requires Inv(h, limit) && b in h.blocks && p in h.blocks[b]
    ensures forall c :: c in h.blocks && c != b ==> !HasUsed(h.blocks[c], p, size)
  {
    forall c | c in h.blocks && c != b
      ensures !HasUsed(h.blocks[c], p, size)
    {
      if HasUsed(h.blocks[c], p, size) {
        OneOwner(h, limit, b, c, p);
      }
    }
  }

  lemma LiveWithout(blocks: BlockMap, b: nat, p: nat, size: nat)
    ensures Live(blocks - {b}, p, size) <==> exists c :: c in blocks && c != b && HasUsed(blocks[c], p, size)
  {
    if c :| c in blocks && c != b && HasUsed(blocks[c], p, size) {
      assert c in blocks - {b} && HasUsed((blocks - {b})[c], p, size);
    }
  }

  /** `free` succeeds exactly for null and for the address of a live allocation; it then ends that
      allocation and no other, and otherwise it changes nothing. */
  lemma FreeEndsLive(h: Heap, limit: nat, p: Option<nat>, q: nat, size: nat)
    requires Inv(h, limit)
    ensures var (h', ok) := Free(h, p);
            && (ok <==> p.None? || exists s :: Live(h.blocks, p.value, s))
            && (!ok || p.None? ==> h' == h)
            && (ok && p.Some? ==> (Live(h'.blocks, q, size) <==> Live(h.blocks, q, size) && q != p.value))
  {
    if p.Some? {
      if s :| Live(h.blocks, p.value, s) {
        var b := LiveOwner(h, limit, p.value, s);
      }
      var b := UsedIn(h.blocks, p.value);
      if b.Some? {
        assert HasUsed(h.blocks[b.value], p.value, h.blocks[b.value][p.value].size);
        assert Live(h.blocks, p.value, h.blocks[b.value][p.value].size);
        FreeFragmentLive(h, limit, b.value, p.value, q, size);
      }
    }
  }

  // ----- which blocks are handed back -----

  /** The cache is within its limit. */
  ghost predicate Fits(cache: seq<Block>, inUse: int) {
    |cache| <= 1 || SumCache(cache) <= 2 * inUse
  }

  /** Only the k oldest blocks go, each while the ones from it on are over the limit. */
  lemma {:induction false} OldestGo(h: Heap) returns (k: nat)
    requires h.cached == SumCache(h.cache)
    ensures k <= |h.cache| && ReleaseOld(h).cache == h.cache[k..] && Fits(h.cache[k..], h.inUse)
    ensures forall j :: 0 <= j < k ==> !Fits(h.cache[j..], h.inUse)
    ensures ReleaseOld(h).released == h.released + multiset(h.cache[..k])
    ensures ReleaseOld(h).inUse == h.inUse && ReleaseOld(h).blocks == h.blocks
    decreases |h.cache|
  {
    assert h.cache[0..] == h.cache;
    if OverLimit(h) {
      var h1, first, rest := DropFront(h), h.cache[0], h.cache[1..];
      var i := OldestGo(h1);
      k := i + 1;
      assert h.cache[k..] == rest[i..] && h.cache[..k] == [first] + rest[..i];
      forall j | 0 <= j < k ensures !Fits(h.cache[j..], h.inUse) {
        assert j > 0 ==> h.cache[j..] == rest[j - 1..];
      }
    } else {
      k := 0;
    }
  }

  /** Freeing keeps the listed blocks and the cache as they are, or it moves one block to the end of the cache and
      hands back the shortest run of the oldest blocks that brings the cache within its limit, and no other. */
  lemma FreeReleasesOldest(h: Heap, limit: nat, p: Option<nat>) returns (b: nat, k: nat)
    requires Inv(h, limit)
    ensures var h' := Free(h, p).0;
      if h'.blocks.Keys == h.blocks.Keys then
        h'.cache == h.cache && h'.released == h.released && h'.inUse == h.inUse
      else
        && b in h.blocks && b in h.outstanding && h'.blocks.Keys == h.blocks.Keys - {b}
        && h'.inUse == h.inUse - h.outstanding[b]
        && var all := h.cache + [Block(b, h.outstanding[b])];
           && k <= |all| && h'.cache == all[k..] && h'.released == h.released + multiset(all[..k])
           && Fits(all[k..], h'.inUse) && (forall j :: 0 <= j < k ==> !Fits(all[j..], h'.inUse))
           && (Fits(all, h'.inUse) ==> h'.released == h.released && h'.cache == all)
  {
    b, k := 0, 0;
    if p.Some? && UsedIn(h.blocks, p.value).Some? {
      b := UsedIn(h.blocks, p.value).value;
      if |Freed(h.blocks[b], p.value).0| == 1 {
        k := WholeReleases(h, limit, b, p.value);
      } else {
        ListedReleasesNone(h, b, p.value);
      }
    }
  }

  lemma ListedReleasesNone(h: Heap, b: nat, p: nat)
    requires b in h.blocks && p in h.blocks[b] && |Freed(h.blocks[b], p).0| != 1
    ensures var h' := FreeFragment(h, b, p);
            h'.blocks.Keys == h.blocks.Keys && h'.cache == h.cache && h'.released == h.released && h'.inUse == h.inUse
  {
  }

  lemma WholeReleases(h: Heap, limit: nat, b: nat, p: nat) returns (k: nat)
    requires Inv(h, limit) && b in h.blocks && p in h.blocks[b] && h.blocks[b][p].entry.None?
    requires |Freed(h.blocks[b], p).0| == 1
    ensures b in h.outstanding
    ensures var h', all := FreeFragment(h, b, p), h.cache + [Block(b, h.outstanding[b])];
      && h'.blocks.Keys == h.blocks.Keys - {b} && h'.inUse == h.inUse - h.outstanding[b]
      && k <= |all| && h'.cache == all[k..] && h'.released == h.released + multiset(all[..k])
      && Fits(all[k..], h'.inUse) && (forall j :: 0 <= j < k ==> !Fits(all[j..], h'.inUse))
      && (Fits(all, h'.inUse) ==> h'.released == h.released && h'.cache == all)
  {
    var h1, rest := WholeCached(h, limit, b, p);
    k := OldestGo(h1);
    assert h1.cache[0..] == h1.cache && h1.cache[..0] == [];
  }

  lemma WholeCached(h: Heap, limit: nat, b: nat, p: nat) returns (h1: Heap, rest: seq<Entry>)
    requires Inv(h, limit) && b in h.blocks && p in h.blocks[b] && h.blocks[b][p].entry.None?
    requires |Freed(h.blocks[b], p).0| == 1
    ensures b in h.outstanding && h1 == MoveToCache(h, b, Block(b, h.outstanding[b]), rest)
    ensures h1.cached == SumCache(h1.cache) && FreeFragment(h, b, p) == ReleaseOld(h1)
  {
    var m2, c, list := FreeParts(h, limit, b, p);
    rest := list;
    WholeMembers(h, b, m2, c, rest);
    h1 := MoveToCacheKeeps(h, limit, b, rest);
  }
}
