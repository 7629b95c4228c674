/** `SimpleHeap`: best-fit sub-allocation of large blocks, with eager coalescing.

    The methods update the fields as the class does; each is proved to do exactly what the function of
    `HeapModel` or `HeapCalls` of the same name says, about which everything else is proved. */
module SimpleHeapClass {
  import opened Options
  import opened FreeList
  import opened Fragments
  import opened HeapModel
  import opened HeapInvariant
  import opened HeapCalls
  import opened FloatAlign

  class SimpleHeap {
    /** The block size of the block allocator. */
    const limit: nat

    var freeList: seq<Entry>
    var blockList: BlockMap
    var blockCache: seq<Block>
    var inUseSize: nat
    var cacheSize: nat

    ghost var outstanding: map<nat, nat>
    ghost var obtained: multiset<Block>
    ghost var released: multiset<Block>

    ghost function State(): Heap
      reads this
    {
      Heap(freeList, blockList, blockCache, inUseSize, cacheSize, outstanding, obtained, released)
    }

    constructor (limit: nat)
      ensures State() == EMPTY && Inv(State(), limit) && this.limit == limit
    {
      this.limit := limit;
      freeList, blockList, blockCache, inUseSize, cacheSize := [], map[], [], 0, 0;
      outstanding, obtained, released := map[], multiset{}, multiset{};
      new;
      EmptyInv(limit);
    }

    /** Sub-allocates from the free fragment at position i of the free list. */
    method TakeFragment(i: nat, n: nat) returns (base: nat)
      requires i < |freeList| && n <= freeList[i].size && FloorKey(blockList, freeList[i].base).Some?
      modifies this
      ensures State() == AllocFragment(old(State()), i, n) && base == old(freeList[i].base)
    {
      ghost var plan := AllocPlan(State(), i, n);
      var e, list := freeList[i], RemoveAt(freeList, i);
      base := e.base;
      var block := FloorKey(blockList, base).value;
      var frags := Take(blockList[block], base, n);
      // record what remains
      if e.size > n {
        var rest := Entry(e.size - n, base + n);
        list := Insert(list, rest);
        frags := frags[base + n := Fragment(Some(rest), rest.size)];
      }
      freeList, blockList := list, blockList[block := frags];
      assert State() == plan;
    }

    /** Lists a block, its first n bytes as used and the rest as free. */
    method UseBlock(block: Block, n: nat)
      requires n <= block.length
      modifies this
      ensures State() == PlaceBlock(old(State()), block, n)
    {
      inUseSize := inUseSize + block.length;
      var frags: FragMap := map[];
      if block.length > n {
        var rest := Entry(block.length - n, block.base + n);
        freeList := Insert(freeList, rest);
        frags := frags[block.base + n := Fragment(Some(rest), rest.size)];
      }
      frags := frags[block.base := Fragment(None, n)];
      assert frags == Placed(block, n);
      blockList := blockList[block.base := frags];
    }

    method Alloc(bytes: nat, answer: Option<Block>) returns (p: Option<nat>)
      requires Inv(State(), limit) && Answered(State(), limit, answer)
      modifies this
      ensures (State(), p) == HeapCalls.Alloc(old(State()), limit, bytes, answer)
    {
      var n := AlignedBytes(bytes);
      if n > limit {
        return None;
      }
      var i := LowerBound(freeList, n);
      if i < |freeList| {
        ghost var b := EntryOwner(State(), limit, freeList[i]);
        var base := TakeFragment(i, n);
        return Some(base);
      }
      LastCachedLength(State(), limit);
      if blockCache != [] {
        LastIsCounted(State(), limit);
      }
      p := AllocateBlock(n, answer);
    }

    /** Takes the block cached last, or else one from the block allocator. */
    method AllocateBlock(n: nat, answer: Option<Block>) returns (p: Option<nat>)
      requires blockCache != [] ==> n <= blockCache[|blockCache| - 1].length <= cacheSize
      requires blockCache == [] && answer.Some? ==> n <= answer.value.length
      modifies this
      ensures (State(), p) == AllocBlock(old(State()), n, answer)
    {
      var block: Block;
      if blockCache != [] {
        block := PopBack();
      } else {
        if answer.None? {
          return None;
        }
        block := answer.value;
        Receive(block);
      }
      UseBlock(block, n);
      return Some(block.base);
    }

    method PopBack() returns (block: Block)
      requires blockCache != [] && cacheSize >= blockCache[|blockCache| - 1].length
      modifies this
      ensures State() == PopCache(old(State())) && block == old(blockCache[|blockCache| - 1])
    {
      block := blockCache[|blockCache| - 1];
      blockCache := blockCache[..|blockCache| - 1];
      cacheSize := cacheSize - block.length;
    }

    /** The block allocator hands out a block. */
    ghost method Receive(block: Block)
      modifies this`outstanding, this`obtained
      ensures State() == Obtain(old(State()), block)
    {
      outstanding := outstanding[block.base := block.length];
      obtained := obtained + multiset{block};
    }

    /** The block allocator gets a block back. */
    ghost method HandBack(block: Block)
      modifies this`outstanding, this`released
      ensures State() == old(State()).(outstanding := old(outstanding) - {block.base},
                                       released := old(released) + multiset{block})
    {
      released := released + multiset{block};
      outstanding := outstanding - {block.base};
    }

    method PopFront()
      requires blockCache != [] && cacheSize >= blockCache[0].length
      modifies this
      ensures State() == DropFront(old(State()))
    {
      var block := blockCache[0];
      HandBack(block);
      cacheSize := cacheSize - block.length;
      blockCache := blockCache[1..];
    }

    /** Hands the blocks at the front of the cache back while the cache is over its limit. */
    method ReleaseBlocks()
      requires CoreBut(State(), limit, None)
      modifies this
      ensures State() == ReleaseOld(old(State()))
    {
      while |blockCache| > 1 && cacheSize > inUseSize * 2
        invariant CoreBut(State(), limit, None)
        invariant ReleaseOld(State()) == ReleaseOld(old(State()))
        decreases |blockCache|
      {
        ghost var h := DropFrontKeeps(State(), limit);
        FrontIsCounted(State(), limit);
        PopFront();
      }
    }

    method Free(p: Option<nat>) returns (ok: bool)
      requires Inv(State(), limit)
      modifies this
      ensures (State(), ok) == HeapModel.Free(old(State()), p)
    {
      if p == None {
        return true;
      }
      // find the fragment and validate it
      var block := FloorKey(blockList, p.value);
      if block == None {
        return false;
      }
      var frags := blockList[block.value];
      if p.value !in frags || frags[p.value].entry.Some? {
        return false;
      }
      GiveBack(block.value, p.value);
      return true;
    }

    /** Merges the fragment with the one before it if that is free. */
    method MergeDown(frags: FragMap, fragment: nat) returns (frags': FragMap, fragment': nat)
      requires fragment in frags
      modifies this`freeList
      ensures (frags', fragment') == MergeLower(frags, fragment)
      ensures freeList == EraseIf(old(freeList), MergedEntry(frags, LowerFree(frags, fragment)))
    {
      frags', fragment' := frags, fragment;
      var lower := PreviousKey(frags, fragment);
      if lower.Some? && frags[lower.value].entry.Some? {
        freeList := EraseIf(freeList, frags[lower.value].entry);
        frags' := Merge(frags, lower.value, fragment);
        fragment' := lower.value;
      }
    }

    /** Merges the fragment with the one after it if that is free. */
    method MergeUp(frags: FragMap, fragment: nat) returns (frags': FragMap)
      requires fragment in frags
      modifies this`freeList
      ensures frags' == MergeUpper(frags, fragment)
      ensures freeList == EraseIf(old(freeList), MergedEntry(frags, UpperFree(frags, fragment)))
    {
      frags' := frags;
      var upper := NextKey(frags, fragment);
      if upper.Some? && frags[upper.value].entry.Some? {
        freeList := EraseIf(freeList, frags[upper.value].entry);
        frags' := Merge(frags, fragment, upper.value);
      }
    }

    method GiveBack(block: nat, p: nat)
      requires Inv(State(), limit) && block in blockList && p in blockList[block] && blockList[block][p].entry.None?
      modifies this
      ensures State() == FreeFragment(old(State()), block, p)
    {
      ghost var h1 := GiveBackPlan(State(), limit, block, p);
      var whole := Coalesce(block, p);
      if whole {
        ReleaseBlocks();
      }
    }

    /** Merges the fragment with its free neighbours and reports the result as free, or moves the block
        to the cache if that is all of it. */
    method Coalesce(block: nat, p: nat) returns (whole: bool)
      requires block in blockList && p in blockList[block]
      requires GivenBack(State(), block, p).inUse >= 0
      modifies this
      ensures State() == GivenBack(old(State()), block, p) && whole == (|Freed(old(blockList)[block], p).0| == 1)
    {
      ghost var plan, rest := CoalescePlan(State(), block, p);
      var frags, fragment := MergeDown(blockList[block], p);
      frags := MergeUp(frags, fragment);
      whole := |frags| == 1;
      if whole {
        PushBack(block, Block(fragment, frags[fragment].size));
      } else {
        ListFree(block, frags, fragment);
      }
    }

    /** Reports the fragment as free. */
    method ListFree(block: nat, frags: FragMap, fragment: nat)
      requires fragment in frags
      modifies this
      ensures State() == old(State()).(freeList := Insert(old(freeList), Entry(frags[fragment].size, fragment)),
                                       blocks := old(blockList)[block := Release(frags, fragment)])
    {
      freeList := Insert(freeList, Entry(frags[fragment].size, fragment));
      blockList := blockList[block := Release(frags, fragment)];
    }

    /** Moves a whole free block to the cache. */
    method PushBack(base: nat, block: Block)
      requires inUseSize >= block.length
      modifies this
      ensures State() == MoveToCache(old(State()), base, block, old(freeList))
    {
      inUseSize := inUseSize - block.length;
      cacheSize := cacheSize + block.length;
      blockCache := blockCache + [block];
      blockList := blockList - {base};
    }

    method Trim()
      requires CoreBut(State(), limit, None)
      modifies this
      ensures State() == HeapModel.Trim(old(State()))
    {
      ghost var h := State();
      ghost var cache := blockCache;
      for i := 0 to |blockCache|
        invariant blockCache == cache && i <= |cache|
        invariant h == State().(cache := cache[i..], cached := h.cached)
        invariant HeapModel.Trim(h) == HeapModel.Trim(old(State()))
      {
        HandBack(blockCache[i]);
        h := DropFront(h);
      }
      blockCache := [];
      cacheSize := 0;
    }
  }

  lemma AllocPlan(h: Heap, i: nat, n: nat) returns (h': Heap)
    requires i < |h.freeList| && n <= h.freeList[i].size && FloorKey(h.blocks, h.freeList[i].base).Some?
    ensures var e, rest := h.freeList[i], RemoveAt(h.freeList, i);
            var b := FloorKey(h.blocks, e.base).value;
            var frags, part := Take(h.blocks[b], e.base, n), Entry(e.size - n, e.base + n);
      h' == if e.size > n
            then h.(freeList := Insert(rest, part),
                    blocks := h.blocks[b := frags[e.base + n := Fragment(Some(part), part.size)]])
            else h.(freeList := rest, blocks := h.blocks[b := frags])
    ensures h' == AllocFragment(h, i, n)
  {
    h' := AllocFragment(h, i, n);
  }

  lemma LastIsCounted(h: Heap, limit: nat)
    requires CoreBut(h, limit, None) && h.cache != []
    ensures h.cached >= h.cache[|h.cache| - 1].length
  {
    var h' := PopCacheKeeps(h, limit);
    CachedNonnegative(h', limit, Some(h.cache[|h.cache| - 1]));
  }

  lemma FrontIsCounted(h: Heap, limit: nat)
    requires CoreBut(h, limit, None) && h.cache != []
    ensures h.cached >= h.cache[0].length
  {
    var h' := DropFrontKeeps(h, limit);
    CachedNonnegative(h', limit, None);
  }

  lemma CachedNonnegative(h: Heap, limit: nat, pending: Option<Block>)
    requires CoreBut(h, limit, pending)
    ensures h.cached >= 0 && h.inUse >= 0
  {
    SumNonnegative(h.blocks.Keys, h.outstanding);
    SumCacheNonnegative(h.cache);
  }

  lemma CoalescePlan(h: Heap, b: nat, p: nat) returns (h': Heap, rest: seq<Entry>)
    requires b in h.blocks && p in h.blocks[b]
    ensures var (m1, c) := MergeLower(h.blocks[b], p); var m2 := MergeUpper(m1, c);
      && rest == EraseIf(EraseIf(h.freeList, MergedEntry(h.blocks[b], LowerFree(h.blocks[b], p))),
                         MergedEntry(m1, UpperFree(m1, c)))
      && Freed(h.blocks[b], p) == (m2, c)
      && (|m2| == 1 ==> h' == MoveToCache(h, b, Block(c, m2[c].size), rest) && h'.inUse == h.inUse - m2[c].size)
      && (|m2| != 1 ==> h' == h.(freeList := Insert(rest, Entry(m2[c].size, c)), blocks := h.blocks[b := Release(m2, c)]))
    ensures h' == GivenBack(h, b, p)
  {
    var (m1, c) := MergeLower(h.blocks[b], p);
    rest := EraseIf(EraseIf(h.freeList, MergedEntry(h.blocks[b], LowerFree(h.blocks[b], p))),
                    MergedEntry(m1, UpperFree(m1, c)));
    h' := GivenBack(h, b, p);
  }

  lemma GiveBackPlan(h: Heap, limit: nat, b: nat, p: nat) returns (h1: Heap)
    requires Inv(h, limit) && b in h.blocks && p in h.blocks[b] && h.blocks[b][p].entry.None?
    ensures h1 == GivenBack(h, b, p) && CoreBut(h1, limit, None)
    ensures |Freed(h.blocks[b], p).0| == 1 ==> h1.inUse >= 0 && FreeFragment(h, b, p) == ReleaseOld(h1)
    ensures |Freed(h.blocks[b], p).0| != 1 ==> FreeFragment(h, b, p) == h1
  {
    h1 := GivenBack(h, b, p);
    if |Freed(h.blocks[b], p).0| == 1 {
      var m2, c, rest := FreeParts(h, limit, b, p);
      WholeMembers(h, b, m2, c, rest);
      h1 := MoveToCacheKeeps(h, limit, b, rest);
      CachedNonnegative(h1, limit, None);
    } else {
      h1 := ReleaseListed(h, limit, b, p);
    }
  }
}
