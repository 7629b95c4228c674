/** Every call keeps the invariant of the heap. */
module HeapInvariant {
  import opened Options
  import opened FreeList
  import opened Fragments
  import opened HeapModel
  import opened FloatAlign

  // ----- sums and records -----

  lemma {:induction false} SumWithout(bases: set<nat>, lengths: map<nat, nat>, b: nat)
    requires b in bases
    ensures SumLengths(bases, lengths)
            == (if b in lengths then lengths[b] else 0) + SumLengths(bases - {b}, lengths)
    decreases |bases|
  {
    var c :| c in bases && SumLengths(bases, lengths)
                           == (if c in lengths then lengths[c] else 0) + SumLengths(bases - {c}, lengths);
    if b != c {
      SumWithout(bases - {c}, lengths, b);
      SumWithout(bases - {b}, lengths, c);
      assert bases - {c} - {b} == bases - {b} - {c};
    }
  }

  lemma {:induction false} SumSame(bases: set<nat>, lengths: map<nat, nat>, lengths': map<nat, nat>)
    requires forall b :: b in bases ==> b in lengths && b in lengths' && lengths[b] == lengths'[b]
    ensures SumLengths(bases, lengths) == SumLengths(bases, lengths')
    decreases |bases|
  {
    if bases != {} {
      var b :| b in bases;
      SumWithout(bases, lengths, b);
      SumWithout(bases, lengths', b);
      SumSame(bases - {b}, lengths, lengths');
    }
  }

  lemma {:induction false} SumNonnegative(bases: set<nat>, lengths: map<nat, nat>)
    ensures SumLengths(bases, lengths) >= 0
    decreases |bases|
  {
    if bases != {} {
      var b :| b in bases;
      SumWithout(bases, lengths, b);
      SumNonnegative(bases - {b}, lengths);
    }
  }

  lemma {:induction false} SumCacheNonnegative(cache: seq<Block>)
    ensures SumCache(cache) >= 0
  {
    if cache != [] {
      SumCacheNonnegative(cache[1..]);
    }
  }

  lemma {:induction false} SumCacheLast(cache: seq<Block>, block: Block)
    ensures SumCache(cache + [block]) == SumCache(cache) + block.length
  {
    if cache == [] {
      assert cache + [block] == [block];
    } else {
      SumCacheLast(cache[1..], block);
      assert (cache + [block])[1..] == cache[1..] + [block];
    }
  }

  lemma InAllBlocks(lengths: map<nat, nat>, x: Block)
    ensures x in AllBlocks(lengths) <==> x.base in lengths && lengths[x.base] == x.length
  {
    if x.base in lengths && lengths[x.base] == x.length {
      assert x == Block(x.base, lengths[x.base]);
    }
  }

  lemma AllBlocksAdded(lengths: map<nat, nat>, block: Block)
    requires block.base !in lengths
    ensures multiset(AllBlocks(lengths[block.base := block.length])) == multiset(AllBlocks(lengths)) + multiset{block}
  {
    var lengths' := lengths[block.base := block.length];
    forall x
      ensures x in AllBlocks(lengths') <==> x in AllBlocks(lengths) || x == block
    {
      InAllBlocks(lengths, x);
      InAllBlocks(lengths', x);
    }
    assert AllBlocks(lengths') == AllBlocks(lengths) + {block};
    InAllBlocks(lengths, block);
  }

  lemma AllBlocksRemoved(lengths: map<nat, nat>, block: Block)
    requires block.base in lengths && lengths[block.base] == block.length
    ensures multiset(AllBlocks(lengths)) == multiset(AllBlocks(lengths - {block.base})) + multiset{block}
  {
    AllBlocksAdded(lengths - {block.base}, block);
    assert (lengths - {block.base})[block.base := block.length] == lengths;
  }

  // ----- where an address belongs -----

  /** Fragments of different blocks do not share an address. */
  lemma OneOwner(h: Heap, limit: nat, b: nat, c: nat, x: nat)
    requires Territory(h.outstanding, limit) && Listed(h)
    requires b in h.blocks && c in h.blocks && x in h.blocks[b] && x in h.blocks[c]
    ensures b == c
  {
    assert KeptAt(h, b) && KeptAt(h, c);
    assert b <= x < b + h.outstanding[b];
    assert c <= x < c + h.outstanding[c];
  }

  /** The block that `upper_bound` and a step back lead to is the one that the fragment belongs to. */
  lemma FloorIsOwner(h: Heap, limit: nat, b: nat, x: nat)
    requires Territory(h.outstanding, limit) && Listed(h) && b in h.blocks && x in h.blocks[b]
    ensures FloorKey(h.blocks, x) == Some(b)
  {
    assert KeptAt(h, b);
    assert b <= x < b + h.outstanding[b];
    var c := FloorKey(h.blocks, x).value;
    assert KeptAt(h, c);
    assert c in h.outstanding && b in h.outstanding;
  }

  lemma EntryOwner(h: Heap, limit: nat, e: Entry) returns (b: nat)
    requires Territory(h.outstanding, limit) && Listed(h) && Indexed(h) && e in h.freeList
    ensures FloorKey(h.blocks, e.base) == Some(b) && b in h.blocks && HasFree(h.blocks[b], e)
    ensures h.blocks[b][e.base].size == e.size > 0
  {
    assert ListedFree(h.blocks, e);
    b :| b in h.blocks && HasFree(h.blocks[b], e);
    assert KeptAt(h, b);
    FloorIsOwner(h, limit, b, e.base);
  }

  // ----- changing one listed block -----

  /** The entries of block b's fragments m, among those of all blocks. */
  lemma OthersFree(h: Heap, limit: nat, b: nat, e: Entry)
    requires Territory(h.outstanding, limit) && Listed(h) && Indexed(h) && b in h.blocks
    ensures (exists c :: c in h.blocks && c != b && HasFree(h.blocks[c], e))
            <==> e in h.freeList && !HasFree(h.blocks[b], e)
  {
    assert KeptAt(h, b);
    if e in h.freeList && !HasFree(h.blocks[b], e) {
      assert ListedFree(h.blocks, e);
    }
    if c :| c in h.blocks && c != b && HasFree(h.blocks[c], e) {
      assert ListedFree(h.blocks, e);
      if HasFree(h.blocks[b], e) {
        OneOwner(h, limit, b, c, e.base);
      }
    }
  }

  lemma BlockIndexed(h: Heap, limit: nat, b: nat, m: FragMap, list: seq<Entry>)
    requires Territory(h.outstanding, limit) && Listed(h) && Indexed(h) && b in h.blocks
    requires Sorted(list) && Distinct(list)
    requires forall e :: e in list <==> (e in h.freeList && !HasFree(h.blocks[b], e)) || HasFree(m, e)
    ensures Indexed(h.(blocks := h.blocks[b := m], freeList := list))
  {
    var blocks := h.blocks[b := m];
    forall e
      ensures e in list <==> ListedFree(blocks, e)
    {
      OthersFree(h, limit, b, e);
      if HasFree(m, e) {
        assert HasFree(blocks[b], e);
      }
      if c :| c in h.blocks && c != b && HasFree(h.blocks[c], e) {
        assert HasFree(blocks[c], e);
      }
    }
  }

  lemma UpdateBlock(h: Heap, limit: nat, b: nat, m: FragMap, list: seq<Entry>) returns (h': Heap)
    requires Inv(h, limit) && KeptAt(h, b) && Kept(m, b, h.outstanding[b])
    requires Sorted(list) && Distinct(list)
    requires forall e :: e in list <==> (e in h.freeList && !HasFree(h.blocks[b], e)) || HasFree(m, e)
    ensures h' == h.(blocks := h.blocks[b := m], freeList := list) && Inv(h', limit)
  {
    BlockIndexed(h, limit, b, m, list);
    h' := UpdateListed(h, b, m, list);
    assert h.blocks[b := m].Keys == h.blocks.Keys;
  }

  lemma UpdateListed(h: Heap, b: nat, m: FragMap, list: seq<Entry>) returns (h': Heap)
    requires Listed(h) && KeptAt(h, b) && Kept(m, b, h.outstanding[b])
    ensures h' == h.(blocks := h.blocks[b := m], freeList := list) && Listed(h')
  {
    h' := h.(blocks := h.blocks[b := m], freeList := list);
    forall c | c in h'.blocks
      ensures KeptAt(h', c)
    {
      assert c in h.blocks ==> KeptAt(h, c);
    }
  }

  // ----- alloc from a free fragment -----

  lemma AllocFragmentKeeps(h: Heap, limit: nat, i: nat, n: nat) returns (h': Heap)
    requires Inv(h, limit) && i < |h.freeList| && 0 < n <= h.freeList[i].size
    ensures FloorKey(h.blocks, h.freeList[i].base).Some?
    ensures h' == AllocFragment(h, i, n) && Inv(h', limit)
  {
    var b := ChosenOwner(h, limit, i, n);
    h' := ChosenKeeps(h, limit, i, n, b);
  }

  lemma ChosenOwner(h: Heap, limit: nat, i: nat, n: nat) returns (b: nat)
    requires Inv(h, limit) && i < |h.freeList|
    ensures FloorKey(h.blocks, h.freeList[i].base) == Some(b) && b in h.blocks && HasFree(h.blocks[b], h.freeList[i])
    ensures h.blocks[b][h.freeList[i].base].size == h.freeList[i].size
  {
    b := EntryOwner(h, limit, h.freeList[i]);
  }

  lemma ChosenKeeps(h: Heap, limit: nat, i: nat, n: nat, b: nat) returns (h': Heap)
    requires Inv(h, limit) && i < |h.freeList| && 0 < n <= h.freeList[i].size
    requires b in h.blocks && HasFree(h.blocks[b], h.freeList[i])
    requires h.blocks[b][h.freeList[i].base].size == h.freeList[i].size
    ensures h' == ChosenFrom(h, i, n, b) && Inv(h', limit)
  {
    if h.freeList[i].size > n {
      h' := ChosenSplitKeeps(h, limit, i, n, b);
    } else {
      h' := ChosenTakeKeeps(h, limit, i, b);
    }
  }

  lemma ChosenSplitKeeps(h: Heap, limit: nat, i: nat, n: nat, b: nat) returns (h': Heap)
    requires Inv(h, limit) && i < |h.freeList| && 0 < n < h.freeList[i].size
    requires b in h.blocks && HasFree(h.blocks[b], h.freeList[i])
    requires h.blocks[b][h.freeList[i].base].size == h.freeList[i].size
    ensures h' == ChosenFrom(h, i, n, b) && Inv(h', limit)
  {
    var e, list := ChosenEntry(h, i);
    h' := SplitBlockKeeps(h, limit, b, e, n, list);
    ChosenIsSplit(h, i, n, b, h');
  }

  lemma ChosenTakeKeeps(h: Heap, limit: nat, i: nat, b: nat) returns (h': Heap)
    requires Inv(h, limit) && i < |h.freeList|
    requires b in h.blocks && HasFree(h.blocks[b], h.freeList[i])
    requires h.blocks[b][h.freeList[i].base].size == h.freeList[i].size
    ensures h' == ChosenFrom(h, i, h.freeList[i].size, b) && Inv(h', limit)
  {
    var e, list := ChosenEntry(h, i);
    h' := TakeBlockKeeps(h, limit, b, e, list);
    ChosenIsTake(h, i, b, h');
  }

  lemma ChosenIsSplit(h: Heap, i: nat, n: nat, b: nat, h': Heap)
    requires i < |h.freeList| && n < h.freeList[i].size && b in h.blocks
    requires var e := h.freeList[i];
      h' == h.(freeList := Insert(RemoveAt(h.freeList, i), Entry(e.size - n, e.base + n)),
               blocks := h.blocks[b := Split(h.blocks[b], e.base, n, e.size)])
    ensures h' == ChosenFrom(h, i, n, b)
  {
  }

  lemma ChosenIsTake(h: Heap, i: nat, b: nat, h': Heap)
    requires i < |h.freeList| && b in h.blocks
    requires var e := h.freeList[i];
      h' == h.(freeList := RemoveAt(h.freeList, i), blocks := h.blocks[b := Take(h.blocks[b], e.base, e.size)])
    ensures h' == ChosenFrom(h, i, h.freeList[i].size, b)
  {
  }

  lemma ChosenEntry(h: Heap, i: nat) returns (e: Entry, list: seq<Entry>)
    requires i < |h.freeList| && Sorted(h.freeList) && Distinct(h.freeList)
    ensures e == h.freeList[i] && list == RemoveAt(h.freeList, i)
    ensures Sorted(list) && Distinct(list) && forall x :: x in list <==> x in h.freeList && x != e
  {
    e, list := h.freeList[i], RemoveAt(h.freeList, i);
    RemoveKeeps(h.freeList, i);
  }

  lemma TakeBlockKeeps(h: Heap, limit: nat, b: nat, e: Entry, list: seq<Entry>) returns (h': Heap)
    requires Inv(h, limit) && b in h.blocks && HasFree(h.blocks[b], e) && h.blocks[b][e.base].size == e.size
    requires Sorted(list) && Distinct(list) && forall x :: x in list <==> x in h.freeList && x != e
    ensures h' == h.(freeList := list, blocks := h.blocks[b := Take(h.blocks[b], e.base, e.size)]) && Inv(h', limit)
  {
    assert KeptAt(h, b);
    TakeKept(h.blocks[b], b, h.outstanding[b], e.base);
    TakeList(h, b, e, list);
    h' := UpdateBlock(h, limit, b, Take(h.blocks[b], e.base, e.size), list);
  }

  lemma SplitBlockKeeps(h: Heap, limit: nat, b: nat, e: Entry, n: nat, list: seq<Entry>)
      returns (h': Heap)
    requires Inv(h, limit) && b in h.blocks && HasFree(h.blocks[b], e) && h.blocks[b][e.base].size == e.size
    requires Sorted(list) && Distinct(list) && forall x :: x in list <==> x in h.freeList && x != e
    requires 0 < n < e.size
    ensures h' == h.(freeList := Insert(list, Entry(e.size - n, e.base + n)),
                     blocks := h.blocks[b := Split(h.blocks[b], e.base, n, e.size)]) && Inv(h', limit)
  {
    assert KeptAt(h, b);
    SplitKept(h.blocks[b], b, h.outstanding[b], e.base, n);
    SplitList(h, limit, b, e, n, list);
    h' := UpdateBlock(h, limit, b, Split(h.blocks[b], e.base, n, e.size), Insert(list, Entry(e.size - n, e.base + n)));
  }

  lemma TakeList(h: Heap, b: nat, e: Entry, list: seq<Entry>)
    requires Indexed(h) && b in h.blocks && Tagged(h.blocks[b]) && HasFree(h.blocks[b], e)
    requires forall x :: x in list <==> x in h.freeList && x != e
    ensures forall x :: x in list <==>
                          (x in h.freeList && !HasFree(h.blocks[b], x)) || HasFree(Take(h.blocks[b], e.base, e.size), x)
  {
    forall x
      ensures x in list <==>
                (x in h.freeList && !HasFree(h.blocks[b], x)) || HasFree(Take(h.blocks[b], e.base, e.size), x)
    {
      TakeEffect(h.blocks[b], e.base, x, 0, 0);
      if HasFree(h.blocks[b], x) {
        assert ListedFree(h.blocks, x);
      }
    }
  }

  lemma SplitList(h: Heap, limit: nat, b: nat, e: Entry, n: nat, list: seq<Entry>)
    requires Territory(h.outstanding, limit) && Listed(h) && Indexed(h)
    requires b in h.blocks && HasFree(h.blocks[b], e) && h.blocks[b][e.base].size == e.size && 0 < n < e.size
    requires Sorted(list) && Distinct(list) && forall x :: x in list <==> x in h.freeList && x != e
    ensures Entry(e.size - n, e.base + n) !in h.freeList
    ensures var list', m' := Insert(list, Entry(e.size - n, e.base + n)), Split(h.blocks[b], e.base, n, e.size);
            && Sorted(list') && Distinct(list')
            && forall x :: x in list' <==> (x in h.freeList && !HasFree(h.blocks[b], x)) || HasFree(m', x)
  {
    var m, rest := h.blocks[b], Entry(e.size - n, e.base + n);
    assert KeptAt(h, b);
    RestIsNew(h, limit, b, e, n);
    InsertKeeps(list, rest);
    assert Tagged(m) && e.base + n !in m by {
      SplitInside(m, e.base, n, e.base + n);
    }
    forall x
      ensures x in Insert(list, rest) <==> (x in h.freeList && !HasFree(m, x)) || HasFree(Split(m, e.base, n, e.size), x)
    {
      SplitMember(h, b, e, n, x);
    }
  }

  lemma SplitMember(h: Heap, b: nat, e: Entry, n: nat, x: Entry)
    requires Indexed(h) && b in h.blocks && Tagged(h.blocks[b]) && HasFree(h.blocks[b], e)
    requires h.blocks[b][e.base].size == e.size && 0 < n < e.size && e.base + n !in h.blocks[b]
    ensures (x in h.freeList && x != e) || x == Entry(e.size - n, e.base + n)
            <==> (x in h.freeList && !HasFree(h.blocks[b], x)) || HasFree(Split(h.blocks[b], e.base, n, e.size), x)
  {
    SplitEffect(h.blocks[b], e.base, n, x, 0, 0);
    if HasFree(h.blocks[b], x) {
      assert ListedFree(h.blocks, x);
    }
  }

  /** No fragment starts inside another one. */
  lemma RestIsNew(h: Heap, limit: nat, b: nat, e: Entry, n: nat)
    requires Territory(h.outstanding, limit) && Listed(h) && Indexed(h)
    requires b in h.blocks && HasFree(h.blocks[b], e) && h.blocks[b][e.base].size == e.size && 0 < n < e.size
    ensures Entry(e.size - n, e.base + n) !in h.freeList
  {
    var rest := Entry(e.size - n, e.base + n);
    assert KeptAt(h, b);
    assert e.base + n !in h.blocks[b] by {
      SplitInside(h.blocks[b], e.base, n, e.base + n);
    }
    if rest in h.freeList {
      var c := EntryOwner(h, limit, rest);
      InsideOwner(h, limit, b, e.base, c, rest.base);
    }
  }

  /** An address inside a fragment of block b that is in another block's fragments: it is not another. */
  lemma InsideOwner(h: Heap, limit: nat, b: nat, f: nat, c: nat, x: nat)
    requires Territory(h.outstanding, limit) && Listed(h)
    requires b in h.blocks && f in h.blocks[b] && c in h.blocks && x in h.blocks[c]
    requires f <= x < f + h.blocks[b][f].size
    ensures b == c
  {
    assert KeptAt(h, b) && KeptAt(h, c);
    assert b <= f && f + h.blocks[b][f].size <= b + h.outstanding[b];
    assert c <= x < c + h.outstanding[c];
  }

  // ----- taking a block into use -----

  /** What is asked of the block allocator: a block of nonzero address, large enough, and apart from all
      that are outstanding. */
  ghost predicate Fresh(h: Heap, limit: nat, block: Block) {
    && block.base > 0 && block.length > 0 && block.length >= limit
    && (forall b :: b in h.outstanding ==>
          b + h.outstanding[b] <= block.base || block.base + block.length <= b)
  }

  lemma ObtainKeeps(h: Heap, limit: nat, block: Block) returns (h': Heap)
    requires CoreBut(h, limit, None) && Fresh(h, limit, block)
    ensures h' == Obtain(h, block) && CoreBut(h', limit, Some(block))
  {
    h' := Obtain(h, block);
    ObtainApart(h, limit, block);
    assert Recorded(h') by {
      AllBlocksAdded(h.outstanding, block);
    }
    ListedStays(h, h');
    CountedStays(h, h');
  }

  lemma ObtainApart(h: Heap, limit: nat, block: Block)
    requires Territory(h.outstanding, limit) && Listed(h) && Cached(h) && Accounted(h, None) && Fresh(h, limit, block)
    ensures block.base !in h.outstanding && block.base !in h.blocks
    ensures Territory(h.outstanding[block.base := block.length], limit)
    ensures Cached(Obtain(h, block)) && Accounted(Obtain(h, block), Some(block))
  {
    assert block.base !in h.outstanding;
    assert block.base in h.blocks ==> KeptAt(h, block.base);
  }

  /** Blocks that keep their length stay listed and keep their sum. */
  lemma ListedStays(h: Heap, h': Heap)
    requires Listed(h) && h'.blocks == h.blocks
    requires forall b :: b in h.blocks ==> b in h.outstanding ==> b in h'.outstanding && h'.outstanding[b] == h.outstanding[b]
    ensures Listed(h')
  {
    forall b | b in h'.blocks
      ensures KeptAt(h', b)
    {
      assert KeptAt(h, b);
    }
  }

  lemma CountedStays(h: Heap, h': Heap)
    requires Listed(h) && h'.blocks == h.blocks
    requires forall b :: b in h.blocks ==> b in h.outstanding ==> b in h'.outstanding && h'.outstanding[b] == h.outstanding[b]
    ensures SumLengths(h'.blocks.Keys, h'.outstanding) == SumLengths(h.blocks.Keys, h.outstanding)
  {
    forall b | b in h.blocks.Keys
      ensures b in h.outstanding && b in h'.outstanding && h'.outstanding[b] == h.outstanding[b]
    {
      assert KeptAt(h, b);
    }
    SumSame(h.blocks.Keys, h.outstanding, h'.outstanding);
  }

  lemma PopCacheKeeps(h: Heap, limit: nat) returns (h': Heap)
    requires CoreBut(h, limit, None) && h.cache != []
    ensures h' == PopCache(h) && CoreBut(h', limit, Some(h.cache[|h.cache| - 1]))
  {
    h' := PopCache(h);
    var last := h.cache[|h.cache| - 1];
    SumCacheLast(h'.cache, last);
    assert h'.cache + [last] == h.cache;
    CacheShrinks(h, h', last);
    ListedStays(h, h');
  }

  lemma CacheShrinks(h: Heap, h': Heap, last: Block)
    requires h'.cache + [last] == h.cache && h'.outstanding == h.outstanding && h'.blocks == h.blocks
    requires Cached(h) && Accounted(h, None)
    ensures Cached(h') && Accounted(h', Some(last))
  {
    assert forall i :: 0 <= i < |h'.cache| ==> h'.cache[i] == h.cache[i];
    assert h.cache[|h.cache| - 1] == last;
    forall b | b in h.outstanding
      ensures b in h'.blocks || InCache(h'.cache, b) || last.base == b
    {
      if b !in h.blocks {
        var i :| 0 <= i < |h.cache| && h.cache[i].base == b;
        assert i < |h'.cache| ==> h'.cache[i].base == b;
      }
    }
  }

  lemma PlacedKept(block: Block, n: nat)
    requires 0 < n <= block.length
    ensures Kept(Placed(block, n), block.base, block.length)
  {
  }

  lemma PlacedEffect(block: Block, n: nat, e: Entry, g: nat, size: nat)
    requires 0 < n <= block.length
    ensures HasFree(Placed(block, n), e) <==> n < block.length && e == Entry(block.length - n, block.base + n)
    ensures HasUsed(Placed(block, n), g, size) <==> g == block.base && size == n
  {
  }

  /** Addresses of a block that is not listed are in no listed fragment. */
  lemma OutsideListed(h: Heap, limit: nat, block: Block, b: nat, x: nat)
    requires Territory(h.outstanding, limit) && Listed(h) && Accounted(h, Some(block))
    requires b in h.blocks && block.base <= x < block.base + block.length
    ensures x !in h.blocks[b]
  {
    assert KeptAt(h, b);
    assert b in h.outstanding && b != block.base;
    assert x in h.blocks[b] ==> b <= x;
  }

  lemma PlaceList(h: Heap, limit: nat, block: Block, n: nat) returns (list: seq<Entry>)
    requires CoreBut(h, limit, Some(block)) && 0 < n <= block.length
    ensures list == (if n < block.length then Insert(h.freeList, Entry(block.length - n, block.base + n)) else h.freeList)
    ensures Sorted(list) && Distinct(list)
    ensures forall e :: e in list <==> e in h.freeList || HasFree(Placed(block, n), e)
  {
    var rest := Entry(block.length - n, block.base + n);
    list := h.freeList;
    if n < block.length {
      if rest in h.freeList {
        var b := EntryOwner(h, limit, rest);
        OutsideListed(h, limit, block, b, rest.base);
      }
      InsertKeeps(h.freeList, rest);
      list := Insert(h.freeList, rest);
    }
    forall e
      ensures e in list <==> e in h.freeList || HasFree(Placed(block, n), e)
    {
      PlacedEffect(block, n, e, 0, 0);
    }
  }

  lemma AddBlockIndexed(h: Heap, base: nat, m: FragMap, list: seq<Entry>, h': Heap)
    requires Indexed(h) && base !in h.blocks && h'.blocks == h.blocks[base := m] && h'.freeList == list
    requires Sorted(list) && Distinct(list)
    requires forall e :: e in list <==> e in h.freeList || HasFree(m, e)
    ensures Indexed(h')
  {
    forall e
      ensures e in list <==> ListedFree(h'.blocks, e)
    {
      if ListedFree(h.blocks, e) {
        var b :| b in h.blocks && HasFree(h.blocks[b], e);
        assert b in h'.blocks && HasFree(h'.blocks[b], e);
      }
      if HasFree(m, e) {
        assert HasFree(h'.blocks[base], e);
      }
    }
  }

  lemma PlaceBlockKeeps(h: Heap, limit: nat, block: Block, n: nat) returns (h': Heap)
    requires CoreBut(h, limit, Some(block)) && 0 < n <= block.length
    ensures h' == PlaceBlock(h, block, n) && CoreBut(h', limit, None)
  {
    var list := PlaceList(h, limit, block, n);
    var m := Placed(block, n);
    h' := PlaceBlock(h, block, n);
    PlacedKept(block, n);
    AddBlockIndexed(h, block.base, m, list, h');
    SumWithout(h'.blocks.Keys, h.outstanding, block.base);
    assert h'.blocks.Keys - {block.base} == h.blocks.Keys;
    forall b | b in h'.blocks
      ensures KeptAt(h', b)
    {
      assert b in h.blocks ==> KeptAt(h, b);
    }
  }

  /** A block of which nothing is given away has a fragment that is used and empty. */
  lemma PlaceNothingBreaks(h: Heap, limit: nat, block: Block)
    ensures !CoreBut(PlaceBlock(h, block, 0), limit, None)
  {
    var h' := PlaceBlock(h, block, 0);
    assert block.base in h'.blocks && h'.blocks[block.base][block.base].size == 0;
    assert Listed(h') ==> KeptAt(h', block.base);
  }

  // ----- free -----

  lemma UsedInIsOwner(h: Heap, limit: nat, b: nat, p: nat)
    requires Territory(h.outstanding, limit) && Listed(h)
    ensures b in h.blocks && p in h.blocks[b] && h.blocks[b][p].entry.None? ==> UsedIn(h.blocks, p) == Some(b)
  {
    if b in h.blocks && p in h.blocks[b] {
      FloorIsOwner(h, limit, b, p);
    }
  }

  /** The neighbours' entries are in the free list, and they are two. */
  lemma NeighbourEntries(h: Heap, b: nat, p: nat)
    requires Listed(h) && Indexed(h) && b in h.blocks && p in h.blocks[b] && h.blocks[b][p].entry.None?
    ensures var m, m1, c := h.blocks[b], MergeLower(h.blocks[b], p).0, MergeLower(h.blocks[b], p).1;
            var lower, upper := MergedEntry(m, LowerFree(m, p)), MergedEntry(m1, UpperFree(m1, c));
            && (lower.Some? ==> lower.value in h.freeList && lower.value.base == c && c != p && m[c].entry == lower)
            && (lower.None? ==> c == p)
            && (upper.Some? ==> upper.value in h.freeList && upper.value.base != c)
  {
    assert KeptAt(h, b);
    var m := h.blocks[b];
    var (m1, c) := MergeLower(m, p);
    MergeLowerEffect(m, b, h.outstanding[b], p, c);
    if LowerFree(m, p).Some? {
      assert ListedFree(h.blocks, m[c].entry.value);
    }
    var u := UpperFree(m1, c);
    if u.Some? {
      MergeLowerEffect(m, b, h.outstanding[b], p, u.value);
      MergeUpperEffect(m1, c, u.value);
      assert HasFree(m, m[u.value].entry.value);
      assert ListedFree(h.blocks, m[u.value].entry.value);
    }
  }

  lemma EraseBoth(l: seq<Entry>, lower: Option<Entry>, upper: Option<Entry>)
    requires Sorted(l) && Distinct(l)
    requires (lower.Some? ==> lower.value in l) && (upper.Some? ==> upper.value in l)
    requires lower.Some? && upper.Some? ==> lower != upper
    ensures var rest := EraseIf(EraseIf(l, lower), upper);
            && Sorted(rest) && Distinct(rest)
            && (forall x :: x in rest <==> x in l && Some(x) != lower && Some(x) != upper)
  {
    if lower.Some? {
      EraseKeeps(l, lower.value);
    }
    var l1 := EraseIf(l, lower);
    if upper.Some? {
      EraseKeeps(l1, upper.value);
    }
  }

  /** What is known of the fragments and of the free list after the two merges. */
  lemma FreeParts(h: Heap, limit: nat, b: nat, p: nat) returns (m2: FragMap, c: nat, rest: seq<Entry>)
    requires Territory(h.outstanding, limit) && Listed(h) && Indexed(h)
    requires b in h.blocks && p in h.blocks[b] && h.blocks[b][p].entry.None?
    ensures (m2, c) == Freed(h.blocks[b], p)
    ensures var m, m1 := h.blocks[b], MergeLower(h.blocks[b], p).0;
            rest == EraseIf(EraseIf(h.freeList, MergedEntry(m, LowerFree(m, p))), MergedEntry(m1, UpperFree(m1, c)))
    ensures c in m2 && b in h.outstanding
    ensures |m2| == 1 ==> c == b && m2[c].size == h.outstanding[b] && m2.Keys == {b}
    ensures |m2| != 1 ==> Kept(Release(m2, c), b, h.outstanding[b])
    ensures Sorted(rest) && Distinct(rest)
    ensures forall x :: x in rest ==> x in h.freeList && (x.base == c ==> !HasFree(h.blocks[b], x))
    ensures forall x :: x in h.freeList && !HasFree(h.blocks[b], x) ==> x in rest
    ensures forall x :: HasFree(Release(m2, c), x) <==> (x == Entry(m2[c].size, c) || (x in rest && HasFree(h.blocks[b], x)))
  {
    assert KeptAt(h, b);
    var m, length := h.blocks[b], h.outstanding[b];
    MergeLowerKeeps(m, b, length, p);
    var m1 := MergeLower(m, p).0;
    c := MergeLower(m, p).1;
    MergeUpperKeeps(m1, b, length, c);
    m2 := MergeUpper(m1, c);
    ReleaseKeeps(m2, b, length, c);
    NeighbourEntries(h, b, p);
    var lower, upper := MergedEntry(m, LowerFree(m, p)), MergedEntry(m1, UpperFree(m1, c));
    rest := EraseIf(EraseIf(h.freeList, lower), upper);
    EraseBoth(h.freeList, lower, upper);
    FreedMembers(h, b, p, lower, upper, m2, c, rest);
  }

  lemma FreedMembers(h: Heap, b: nat, p: nat, lower: Option<Entry>, upper: Option<Entry>, m2: FragMap, c: nat, rest: seq<Entry>)
    requires Indexed(h) && KeptAt(h, b) && p in h.blocks[b] && h.blocks[b][p].entry.None?
    requires (m2, c) == Freed(h.blocks[b], p)
    requires lower == MergedEntry(h.blocks[b], LowerFree(h.blocks[b], p))
    requires var m1 := MergeLower(h.blocks[b], p).0; upper == MergedEntry(m1, UpperFree(m1, c))
    requires forall x :: x in rest <==> x in h.freeList && Some(x) != lower && Some(x) != upper
    requires lower.Some? ==> lower.value.base == c && c in h.blocks[b] && h.blocks[b][c].entry == lower
    requires lower.None? ==> c == p
    requires upper.Some? ==> HasFree(h.blocks[b], upper.value)
    ensures forall x :: x in rest ==> x in h.freeList && (x.base == c ==> !HasFree(h.blocks[b], x))
    ensures forall x :: x in h.freeList && !HasFree(h.blocks[b], x) ==> x in rest
    ensures forall x :: HasFree(Release(m2, c), x) <==> (x == Entry(m2[c].size, c) || (x in rest && HasFree(h.blocks[b], x)))
  {
    var m := h.blocks[b];
    forall x
      ensures x in rest && x.base == c ==> !HasFree(m, x)
      ensures x in h.freeList && !HasFree(m, x) ==> x in rest
      ensures HasFree(Release(m2, c), x) <==> x == Entry(m2[c].size, c) || (x in rest && HasFree(m, x))
    {
      FreedEffect(m, b, h.outstanding[b], p, x, 0, 0);
      if HasFree(m, x) {
        assert ListedFree(h.blocks, x);
      }
    }
  }

  lemma ReleaseListed(h: Heap, limit: nat, b: nat, p: nat) returns (h': Heap)
    requires Inv(h, limit) && b in h.blocks && p in h.blocks[b] && h.blocks[b][p].entry.None?
    requires |Freed(h.blocks[b], p).0| != 1
    ensures h' == FreeFragment(h, b, p) && Inv(h', limit)
  {
    var m2, c, rest := FreeParts(h, limit, b, p);
    var e := Entry(m2[c].size, c);
    ReleasedIsNew(h, limit, b, c, rest, e);
    InsertKeeps(rest, e);
    assert KeptAt(h, b);
    h' := UpdateBlock(h, limit, b, Release(m2, c), Insert(rest, e));
  }

  lemma ReleasedIsNew(h: Heap, limit: nat, b: nat, c: nat, rest: seq<Entry>, e: Entry)
    requires Territory(h.outstanding, limit) && Listed(h) && Indexed(h) && b in h.blocks && c in h.blocks[b] && e.base == c
    requires forall x :: x in rest ==> x in h.freeList && (x.base == c ==> !HasFree(h.blocks[b], x))
    ensures e !in rest
  {
    if e in rest {
      var d := EntryOwner(h, limit, e);
      OneOwner(h, limit, b, d, c);
    }
  }

  /** The block is no longer listed, and its fragments are no longer in the free list. */
  lemma UnlistKeeps(h: Heap, limit: nat, b: nat, rest: seq<Entry>, h': Heap)
    requires CoreBut(h, limit, None) && b in h.blocks && b in h.outstanding
    requires Sorted(rest) && Distinct(rest)
    requires forall x :: x in rest <==> x in h.freeList && !HasFree(h.blocks[b], x)
    requires h' == h.(freeList := rest, blocks := h.blocks - {b}, inUse := h.inUse - h.outstanding[b])
    ensures CoreBut(h', limit, Some(Block(b, h.outstanding[b])))
  {
    forall e
      ensures e in rest <==> ListedFree(h'.blocks, e)
    {
      OthersFree(h, limit, b, e);
      if c :| c in h.blocks && c != b && HasFree(h.blocks[c], e) {
        assert c in h'.blocks && HasFree(h'.blocks[c], e);
      }
      if ListedFree(h'.blocks, e) {
        var c :| c in h'.blocks && HasFree(h'.blocks[c], e);
        assert c in h.blocks && c != b && HasFree(h.blocks[c], e);
      }
    }
    SumWithout(h.blocks.Keys, h.outstanding, b);
    assert h'.blocks.Keys == h.blocks.Keys - {b};
    forall c | c in h'.blocks
      ensures KeptAt(h', c)
    {
      assert KeptAt(h, c);
    }
    assert !InCache(h.cache, b);
  }

  /** A pending block goes to the back of the cache. */
  lemma PushCacheKeeps(h: Heap, limit: nat, block: Block, h': Heap)
    requires CoreBut(h, limit, Some(block))
    requires h' == h.(cache := h.cache + [block], cached := h.cached + block.length)
    ensures CoreBut(h', limit, None)
  {
    SumCacheLast(h.cache, block);
    ListedStays(h, h');
    CachePushed(h, block, h');
  }

  lemma CachePushed(h: Heap, block: Block, h': Heap)
    requires Cached(h) && Accounted(h, Some(block)) && h'.cache == h.cache + [block]
    requires h'.outstanding == h.outstanding && h'.blocks == h.blocks
    ensures Cached(h') && Accounted(h', None)
  {
    forall i | 0 <= i < |h.cache|
      ensures h.cache[i].base != block.base
    {
    }
    forall b | b in h.outstanding
      ensures b in h'.blocks || InCache(h'.cache, b)
    {
      if InCache(h.cache, b) {
        var i :| 0 <= i < |h.cache| && h.cache[i].base == b;
        assert h'.cache[i].base == b;
      }
      assert h'.cache[|h.cache|].base == block.base;
    }
  }

  /** The front of the cache goes back to the block allocator. */
  lemma DropFrontKeeps(h: Heap, limit: nat) returns (h': Heap)
    requires CoreBut(h, limit, None) && h.cache != []
    ensures h' == DropFront(h) && CoreBut(h', limit, None)
  {
    h' := DropFront(h);
    var block := h.cache[0];
    AllBlocksRemoved(h.outstanding, block);
    ListedStays(h, h');
    CountedStays(h, h');
    FrontDropped(h, h');
  }

  lemma FrontDropped(h: Heap, h': Heap)
    requires h.cache != [] && Cached(h) && Accounted(h, None)
    requires h'.cache == h.cache[1..] && h'.outstanding == h.outstanding - {h.cache[0].base} && h'.blocks == h.blocks
    ensures Cached(h') && Accounted(h', None)
  {
    assert forall i :: 0 <= i < |h'.cache| ==> h'.cache[i] == h.cache[i + 1];
    forall b | b in h'.outstanding
      ensures b in h'.blocks || InCache(h'.cache, b)
    {
      if InCache(h.cache, b) {
        var i :| 0 <= i < |h.cache| && h.cache[i].base == b;
        assert i > 0 && h'.cache[i - 1].base == b;
      }
    }
  }

  lemma ReleaseOldKeeps(h: Heap, limit: nat) returns (h': Heap)
    requires CoreBut(h, limit, None)
    ensures h' == ReleaseOld(h) && Inv(h', limit)
    decreases |h.cache|
  {
    h' := h;
    if OverLimit(h) {
      h' := DropFrontKeeps(h, limit);
      h' := ReleaseOldKeeps(h', limit);
    }
  }

  lemma CacheWhole(h: Heap, limit: nat, b: nat, p: nat) returns (h': Heap)
    requires Inv(h, limit) && b in h.blocks && p in h.blocks[b] && h.blocks[b][p].entry.None?
    requires |Freed(h.blocks[b], p).0| == 1
    ensures h' == FreeFragment(h, b, p) && Inv(h', limit)
  {
    var m2, c, rest := FreeParts(h, limit, b, p);
    WholeMembers(h, b, m2, c, rest);
    var h1 := MoveToCacheKeeps(h, limit, b, rest);
    h' := ReleaseOldKeeps(h1, limit);
    FreeFragmentWhole(h, b, p, m2, c, rest);
  }

  lemma MoveToCacheKeeps(h: Heap, limit: nat, b: nat, rest: seq<Entry>) returns (h': Heap)
    requires CoreBut(h, limit, None) && b in h.blocks && b in h.outstanding
    requires Sorted(rest) && Distinct(rest)
    requires forall x :: x in rest <==> x in h.freeList && !HasFree(h.blocks[b], x)
    ensures h' == MoveToCache(h, b, Block(b, h.outstanding[b]), rest) && CoreBut(h', limit, None)
  {
    var block := Block(b, h.outstanding[b]);
    h' := MoveToCache(h, b, block, rest);
    var h1 := h.(freeList := rest, blocks := h.blocks - {b}, inUse := h.inUse - h.outstanding[b]);
    UnlistKeeps(h, limit, b, rest, h1);
    PushCacheKeeps(h1, limit, block, h');
  }

  lemma FreeFragmentWhole(h: Heap, b: nat, p: nat, m2: FragMap, c: nat, rest: seq<Entry>)
    requires b in h.blocks && p in h.blocks[b] && (m2, c) == Freed(h.blocks[b], p) && |m2| == 1
    requires var m, m1 := h.blocks[b], MergeLower(h.blocks[b], p).0;
             rest == EraseIf(EraseIf(h.freeList, MergedEntry(m, LowerFree(m, p))), MergedEntry(m1, UpperFree(m1, c)))
    ensures FreeFragment(h, b, p) == ReleaseOld(MoveToCache(h, b, Block(c, m2[c].size), rest))
  {
  }

  lemma WholeMembers(h: Heap, b: nat, m2: FragMap, c: nat, rest: seq<Entry>)
    requires b in h.blocks && c == b && c in m2 && m2.Keys == {b}
    requires forall x :: x in rest ==> x in h.freeList && (x.base == c ==> !HasFree(h.blocks[b], x))
    requires forall x :: x in h.freeList && !HasFree(h.blocks[b], x) ==> x in rest
    requires forall x :: HasFree(Release(m2, c), x) <==> (x == Entry(m2[c].size, c) || (x in rest && HasFree(h.blocks[b], x)))
    ensures forall x :: x in rest <==> x in h.freeList && !HasFree(h.blocks[b], x)
  {
    forall x
      ensures x in rest ==> !HasFree(h.blocks[b], x)
    {
      assert HasFree(Release(m2, c), x) ==> x.base in m2.Keys;
    }
  }

  lemma FreeFragmentKeeps(h: Heap, limit: nat, b: nat, p: nat) returns (h': Heap)
    requires Inv(h, limit) && b in h.blocks && p in h.blocks[b] && h.blocks[b][p].entry.None?
    ensures h' == FreeFragment(h, b, p) && Inv(h', limit)
  {
    if |Freed(h.blocks[b], p).0| == 1 {
      h' := CacheWhole(h, limit, b, p);
    } else {
      h' := ReleaseListed(h, limit, b, p);
    }
  }

  /** `free` keeps the invariant whatever it is called with. */
  lemma FreeKeeps(h: Heap, limit: nat, p: Option<nat>)
    requires Inv(h, limit)
    ensures Inv(Free(h, p).0, limit)
  {
    if p.Some? && UsedIn(h.blocks, p.value).Some? {
      var h' := FreeFragmentKeeps(h, limit, UsedIn(h.blocks, p.value).value, p.value);
    }
  }

  // ----- trim -----

  lemma {:induction false} TrimKeeps(h: Heap, limit: nat) returns (h': Heap)
    requires CoreBut(h, limit, None)
    ensures h' == Trim(h) && Inv(h', limit)
    ensures h'.cache == [] && h'.cached == 0
    ensures h'.blocks == h.blocks && h'.freeList == h.freeList && h'.inUse == h.inUse && h'.obtained == h.obtained
    ensures h'.released == h.released + multiset(h.cache)
    decreases |h.cache|
  {
    h' := h;
    if h.cache == [] {
      assert h.cached == 0;
    } else {
      h' := DropFrontKeeps(h, limit);
      assert h.cache == [h.cache[0]] + h.cache[1..];
      h' := TrimKeeps(h', limit);
    }
  }
}
