/** Fragments of one block: the inner `std::map` of the heap's block list. */
module Fragments {
  import opened Options
  import opened FreeList

  /** The iterator into the free list that marks a free fragment is the list's entry; a used fragment
      has none. */
  datatype Fragment = Fragment(entry: Option<Entry>, size: nat)

  type FragMap = map<nat, Fragment>

  // ----- neighbouring keys -----

  /** `--upper_bound(x)`: the greatest key that is at most x. */
  function FloorKey<V>(m: map<nat, V>, x: nat): (r: Option<nat>)
    ensures r == None <==> forall k :: k in m ==> k > x
    ensures r.Some? ==> r.value in m && r.value <= x && forall k :: k in m && k <= x ==> k <= r.value
  {
    if x in m then Some(x) else if x == 0 then None else FloorKey(m, x - 1)
  }

  /** The key before x. */
  function PreviousKey<V>(m: map<nat, V>, x: nat): (r: Option<nat>)
    ensures r == None <==> forall k :: k in m ==> k >= x
    ensures r.Some? ==> r.value in m && r.value < x && forall k :: k in m && k < x ==> k <= r.value
  {
    if x == 0 then None else FloorKey(m, x - 1)
  }

  /** The key after x. */
  function NextKey<V>(m: map<nat, V>, x: nat): (r: Option<nat>)
    ensures r == None <==> forall k :: k in m ==> k <= x
    ensures r.Some? ==> r.value in m && r.value > x && forall k :: k in m && k > x ==> r.value <= k
  {
    var later := set k | k in m && k > x;
    assert forall k :: k in m && k > x ==> k in later;
    if later == {} then None
    else
      LeastExists(later);
      var k :| k in later && forall j :: j in later ==> k <= j;
      Some(k)
  }

  lemma {:induction false} LeastExists(s: set<nat>)
    requires s != {}
    ensures exists k :: k in s && forall j :: j in s ==> k <= j
    decreases |s|
  {
    var k :| k in s;
    var rest := s - {k};
    if rest != {} {
      LeastExists(rest);
      var k' :| k' in rest && forall j :: j in rest ==> k' <= j;
      assert forall j :: j in s ==> j == k || j in rest;
      var least := if k < k' then k else k';
      assert least in s && forall j :: j in s ==> least <= j;
    } else {
      assert s == {k};
    }
  }

  // ----- tiling -----

  ghost predicate Within(m: FragMap, base: nat, length: nat) {
    forall f :: f in m ==> base <= f && m[f].size > 0 && f + m[f].size <= base + length
  }

  /** The fragment at f is the block's last or is followed by another. */
  predicate Linked(m: FragMap, f: nat, end: nat)
    requires f in m
  {
    f + m[f].size == end || f + m[f].size in m
  }

  ghost predicate Chained(m: FragMap, end: nat) {
    forall f {:trigger Linked(m, f, end)} :: f in m ==> Linked(m, f, end)
  }

  ghost predicate Apart(m: FragMap) {
    forall f, g :: f in m && g in m && f < g ==> f + m[f].size <= g
  }

  /** The fragments are not empty, do not overlap, and each but the last is followed by another: they
      cover the block from `base` on for `length` bytes. */
  ghost predicate Tiled(m: FragMap, base: nat, length: nat) {
    base in m && length > 0 && Within(m, base, length) && Chained(m, base + length) && Apart(m)
  }

  predicate IsFree(m: FragMap, f: nat)
    requires f in m
  {
    m[f].entry.Some?
  }

  /** A free fragment's entry is its own size and base. */
  ghost predicate Tagged(m: FragMap) {
    forall f :: f in m && m[f].entry.Some? ==> m[f].entry.value == Entry(m[f].size, f)
  }

  /** No two neighbouring fragments are both free. */
  ghost predicate Coalesced(m: FragMap) {
    forall f, g ::
      f in m && g in m && m[f].entry.Some? && g == f + m[f].size ==> m[g].entry.None?
  }

  ghost predicate WhollyFree(m: FragMap, base: nat, length: nat) {
    base in m && m[base].entry.Some? && m[base].size == length
  }

  /** What holds of every listed block. */
  ghost predicate Kept(m: FragMap, base: nat, length: nat) {
    Tiled(m, base, length) && Tagged(m) && Coalesced(m) && !WhollyFree(m, base, length)
  }

  // ----- consequences -----

  /** Tiling means what it says: every address of the block lies in exactly one fragment. */
  lemma TiledCovers(m: FragMap, base: nat, length: nat, x: nat)
    requires Tiled(m, base, length) && base <= x < base + length
    ensures exists f :: f in m && f <= x < f + m[f].size
    ensures forall f, g :: f in m && g in m && f <= x < f + m[f].size && g <= x < g + m[g].size ==> f == g
  {
    var f := FloorKey(m, x).value;
    assert Linked(m, f, base + length);
  }

  lemma NextTile(m: FragMap, base: nat, length: nat, f: nat)
    requires Tiled(m, base, length) && f in m
    ensures NextKey(m, f) == if f + m[f].size == base + length then None else Some(f + m[f].size)
  {
    assert Linked(m, f, base + length);
    var n := NextKey(m, f);
    assert n.Some? ==> f + m[f].size <= n.value && n.value + m[n.value].size <= base + length;
  }

  lemma PreviousTile(m: FragMap, base: nat, length: nat, f: nat)
    requires Tiled(m, base, length) && f in m
    ensures f == base ==> PreviousKey(m, f) == None
    ensures f != base ==> var p := PreviousKey(m, f);
                          p.Some? && p.value in m && p.value < f && p.value + m[p.value].size == f
  {
    if f != base {
      var p := PreviousKey(m, f).value;
      assert Linked(m, p, base + length);
      assert p + m[p].size <= f;
    }
  }

  /** One fragment left: it is the whole block. */
  lemma SingleTile(m: FragMap, base: nat, length: nat)
    requires Tiled(m, base, length)
    ensures |m| == 1 <==> m[base].size == length
    ensures |m| == 1 ==> m.Keys == {base}
  {
    if |m| == 1 {
      assert m.Keys == {base} by {
        assert |m.Keys - {base}| == 0;
      }
      assert Linked(m, base, base + length);
    }
    if m[base].size == length {
      assert forall f :: f in m ==> f == base;
      assert m.Keys == {base};
    }
  }

  /** The map holds the free fragment that the entry describes. */
  predicate HasFree(m: FragMap, e: Entry) {
    e.base in m && m[e.base].entry == Some(e)
  }

  predicate HasUsed(m: FragMap, f: nat, size: nat) {
    f in m && m[f] == Fragment(None, size)
  }

  // ----- what the heap does to the fragments of a block -----

  /** Marks a whole fragment as used. */
  function Take(m: FragMap, f: nat, n: nat): FragMap {
    m[f := Fragment(None, n)]
  }

  /** Gives the first n bytes of a fragment away and makes a free fragment of the rest. */
  function Split(m: FragMap, f: nat, n: nat, size: nat): FragMap
    requires n <= size
  {
    Take(m, f, n)[f + n := Fragment(Some(Entry(size - n, f + n)), size - n)]
  }

  /** Adds the fragment at g to the one at f. */
  function Merge(m: FragMap, f: nat, g: nat): FragMap
    requires f in m && g in m
  {
    m[f := m[f].(size := m[f].size + m[g].size)] - {g}
  }

  function Release(m: FragMap, f: nat): FragMap
    requires f in m
  {
    m[f := Fragment(Some(Entry(m[f].size, f)), m[f].size)]
  }

  lemma TakeKept(m: FragMap, base: nat, length: nat, f: nat)
    requires Kept(m, base, length) && f in m
    ensures Kept(Take(m, f, m[f].size), base, length)
  {
    TakeTiled(m, base, length, f);
  }

  lemma TakeTiled(m: FragMap, base: nat, length: nat, f: nat)
    requires Tiled(m, base, length) && f in m
    ensures Tiled(Take(m, f, m[f].size), base, length)
  {
    var m' := Take(m, f, m[f].size);
    forall g | g in m'
      ensures Linked(m', g, base + length)
    {
      assert Linked(m, g, base + length);
    }
  }

  lemma SplitInside(m: FragMap, f: nat, n: nat, g: nat)
    requires Apart(m) && f in m && 0 < n < m[f].size
    ensures g in m ==> g != f + n
    ensures g in m && g < f ==> g + m[g].size <= f
    ensures g in m && g > f ==> f + m[f].size <= g
  {
  }

  lemma SplitApart(m: FragMap, f: nat, n: nat)
    requires Apart(m) && f in m && 0 < n < m[f].size
    ensures Apart(Split(m, f, n, m[f].size))
  {
    var m' := Split(m, f, n, m[f].size);
    forall g, h | g in m' && h in m' && g < h
      ensures g + m'[g].size <= h
    {
      if g != f + n { SplitInside(m, f, n, g); }
      if h != f + n { SplitInside(m, f, n, h); }
    }
  }

  lemma SplitChained(m: FragMap, f: nat, n: nat, end: nat)
    requires Apart(m) && Chained(m, end) && f in m && 0 < n < m[f].size
    ensures Chained(Split(m, f, n, m[f].size), end)
  {
    var m' := Split(m, f, n, m[f].size);
    forall g | g in m'
      ensures Linked(m', g, end)
    {
      if g != f + n { SplitInside(m, f, n, g); }
      assert Linked(m, if g == f + n then f else g, end);
    }
  }

  lemma SplitTiled(m: FragMap, base: nat, length: nat, f: nat, n: nat)
    requires Tiled(m, base, length) && f in m && 0 < n < m[f].size
    ensures f + n !in m
    ensures Tiled(Split(m, f, n, m[f].size), base, length)
  {
    SplitApart(m, f, n);
    SplitChained(m, f, n, base + length);
    SplitInside(m, f, n, f + n);
  }

  lemma SplitCoalesced(m: FragMap, f: nat, n: nat)
    requires Apart(m) && Coalesced(m) && f in m && m[f].entry.Some? && 0 < n < m[f].size
    ensures Coalesced(Split(m, f, n, m[f].size))
  {
    var m' := Split(m, f, n, m[f].size);
    forall g, h | g in m' && h in m' && m'[g].entry.Some? && h == g + m'[g].size
      ensures m'[h].entry.None?
    {
      if g != f + n { SplitInside(m, f, n, g); }
      if h != f + n { SplitInside(m, f, n, h); }
    }
  }

  lemma SplitKept(m: FragMap, base: nat, length: nat, f: nat, n: nat)
    requires Kept(m, base, length) && f in m && IsFree(m, f) && 0 < n < m[f].size
    ensures f + n !in m
    ensures Kept(Split(m, f, n, m[f].size), base, length)
  {
    SplitTiled(m, base, length, f, n);
    SplitCoalesced(m, f, n);
  }

  lemma MergeAround(m: FragMap, f: nat, h: nat)
    requires Apart(m) && f in m && m[f].size > 0 && f + m[f].size in m && h in m && m[h].size > 0
    ensures h < f ==> h + m[h].size <= f
    ensures h > f && h != f + m[f].size ==> f + m[f].size + m[f + m[f].size].size <= h
  {
    if h > f {
      assert f + m[f].size <= h;
    }
  }

  lemma MergeApart(m: FragMap, f: nat, base: nat, length: nat)
    requires Apart(m) && Within(m, base, length) && f in m && f + m[f].size in m
    ensures Apart(Merge(m, f, f + m[f].size)) && Within(Merge(m, f, f + m[f].size), base, length)
  {
    var m' := Merge(m, f, f + m[f].size);
    forall h, k | h in m' && k in m' && h < k
      ensures h + m'[h].size <= k
    {
      MergeAround(m, f, h);
      MergeAround(m, f, k);
    }
  }

  lemma MergeChained(m: FragMap, f: nat, base: nat, length: nat)
    requires Apart(m) && Chained(m, base + length) && Within(m, base, length) && f in m && f + m[f].size in m
    ensures Chained(Merge(m, f, f + m[f].size), base + length)
  {
    var g := f + m[f].size;
    var m' := Merge(m, f, g);
    forall h | h in m'
      ensures Linked(m', h, base + length)
    {
      MergeAround(m, f, h);
      assert Linked(m, if h == f then g else h, base + length);
    }
  }

  lemma MergeTiled(m: FragMap, base: nat, length: nat, f: nat)
    requires Tiled(m, base, length) && f in m && f + m[f].size in m
    ensures Tiled(Merge(m, f, f + m[f].size), base, length)
  {
    MergeApart(m, f, base, length);
    MergeChained(m, f, base, length);
  }

  // ----- giving a fragment back -----

  /** `Kept`, except for what is said of the fragment c while it is being merged. */
  ghost predicate TaggedBut(m: FragMap, c: nat) {
    forall f :: f in m && f != c && m[f].entry.Some? ==> m[f].entry.value == Entry(m[f].size, f)
  }

  ghost predicate CoalescedBut(m: FragMap, c: nat) {
    forall f, g ::
      f in m && g in m && f != c && g != c && m[f].entry.Some? && g == f + m[f].size ==> m[g].entry.None?
  }

  ghost predicate KeptBut(m: FragMap, base: nat, length: nat, c: nat) {
    Tiled(m, base, length) && c in m && TaggedBut(m, c) && CoalescedBut(m, c)
  }

  ghost predicate PreviousUsed(m: FragMap, c: nat) {
    forall f :: f in m && f + m[f].size == c ==> m[f].entry.None?
  }

  ghost predicate NextUsed(m: FragMap, c: nat)
    requires c in m
  {
    c + m[c].size in m ==> m[c + m[c].size].entry.None?
  }

  /** The fragment before f, if it is free. */
  function LowerFree(m: FragMap, f: nat): Option<nat> {
    var p := PreviousKey(m, f);
    if p.Some? && m[p.value].entry.Some? then p else None
  }

  /** The fragment after f, if it is free. */
  function UpperFree(m: FragMap, f: nat): Option<nat> {
    var n := NextKey(m, f);
    if n.Some? && m[n.value].entry.Some? then n else None
  }

  function MergeLower(m: FragMap, f: nat): (r: (FragMap, nat))
    requires f in m
    ensures r.1 in r.0
  {
    var p := LowerFree(m, f);
    if p.Some? then (Merge(m, p.value, f), p.value) else (m, f)
  }

  function MergeUpper(m: FragMap, c: nat): (r: FragMap)
    requires c in m
    ensures c in r
  {
    var u := UpperFree(m, c);
    if u.Some? then Merge(m, c, u.value) else m
  }

  lemma MergedUntouched(m: FragMap, f: nat, g: nat)
    requires f in m && g in m && f != g
    ensures forall h :: h in Merge(m, f, g) <==> h in m && h != g
    ensures forall h :: h in m && h != g && h != f ==> Merge(m, f, g)[h] == m[h]
  {
  }

  lemma MergeLowerKeeps(m: FragMap, base: nat, length: nat, f: nat)
    requires Kept(m, base, length) && f in m && m[f].entry.None?
    ensures KeptBut(MergeLower(m, f).0, base, length, MergeLower(m, f).1)
    ensures PreviousUsed(MergeLower(m, f).0, MergeLower(m, f).1)
  {
    PreviousTile(m, base, length, f);
    var p := LowerFree(m, f);
    if p.Some? {
      MergeTiled(m, base, length, p.value);
      LowerMergedRest(m, p.value, f);
    }
  }

  lemma LowerMergedRest(m: FragMap, p: nat, f: nat)
    requires Tagged(m) && Coalesced(m) && p in m && f in m && f == p + m[p].size && p != f
    requires m[p].entry.Some? && m[f].entry.None?
    ensures TaggedBut(Merge(m, p, f), p) && CoalescedBut(Merge(m, p, f), p)
    ensures PreviousUsed(Merge(m, p, f), p)
  {
    MergedUntouched(m, p, f);
  }

  lemma MergeUpperKeeps(m: FragMap, base: nat, length: nat, c: nat)
    requires KeptBut(m, base, length, c) && PreviousUsed(m, c)
    ensures KeptBut(MergeUpper(m, c), base, length, c)
    ensures PreviousUsed(MergeUpper(m, c), c) && NextUsed(MergeUpper(m, c), c)
  {
    NextTile(m, base, length, c);
    var u := UpperFree(m, c);
    if u.Some? {
      var m' := UpperMerged(m, base, length, c, u.value);
      assert m' == MergeUpper(m, c);
    } else {
      assert MergeUpper(m, c) == m;
    }
  }

  lemma UpperMerged(m: FragMap, base: nat, length: nat, c: nat, u: nat) returns (m': FragMap)
    requires KeptBut(m, base, length, c) && PreviousUsed(m, c)
    requires u in m && u == c + m[c].size && m[u].entry.Some?
    ensures m' == Merge(m, c, u) && KeptBut(m', base, length, c) && PreviousUsed(m', c) && NextUsed(m', c)
  {
    m' := Merge(m, c, u);
    MergeTiled(m, base, length, c);
    UpperMergedEnds(m, base, length, c, u);
    UpperMergedRest(m, c, u);
  }

  lemma UpperMergedRest(m: FragMap, c: nat, u: nat)
    requires TaggedBut(m, c) && CoalescedBut(m, c) && c in m && u in m && u != c
    ensures TaggedBut(Merge(m, c, u), c) && CoalescedBut(Merge(m, c, u), c)
  {
    MergedUntouched(m, c, u);
  }

  lemma UpperMergedEnds(m: FragMap, base: nat, length: nat, c: nat, u: nat)
    requires KeptBut(m, base, length, c) && PreviousUsed(m, c)
    requires u in m && u == c + m[c].size && m[u].entry.Some?
    ensures u != c && PreviousUsed(Merge(m, c, u), c) && NextUsed(Merge(m, c, u), c)
  {
    assert m[c].size > 0 && m[u].size > 0;
    MergedUntouched(m, c, u);
    var m' := Merge(m, c, u);
    assert m'[c].size == m[c].size + m[u].size;
    assert c + m'[c].size == u + m[u].size;
  }

  lemma ReleaseTiled(m: FragMap, base: nat, length: nat, c: nat)
    requires Tiled(m, base, length) && c in m
    ensures Tiled(Release(m, c), base, length)
  {
    var m' := Release(m, c);
    forall g | g in m'
      ensures Linked(m', g, base + length)
    {
      assert Linked(m, g, base + length);
    }
  }

  lemma ReleaseKeeps(m: FragMap, base: nat, length: nat, c: nat)
    requires KeptBut(m, base, length, c) && PreviousUsed(m, c) && NextUsed(m, c)
    ensures |m| == 1 ==> c == base && m[c].size == length && m.Keys == {base}
    ensures |m| != 1 ==> Kept(Release(m, c), base, length)
  {
    SingleTile(m, base, length);
    if |m| != 1 {
      var m' := Released(m, base, length, c);
    }
  }

  lemma Released(m: FragMap, base: nat, length: nat, c: nat) returns (m': FragMap)
    requires KeptBut(m, base, length, c) && PreviousUsed(m, c) && NextUsed(m, c) && m[base].size != length
    ensures m' == Release(m, c) && Kept(m', base, length)
  {
    m' := Release(m, c);
    ReleaseTiled(m, base, length, c);
    ReleaseTagged(m, c);
    assert m[c].size > 0;
    ReleaseCoalesced(m, c);
  }

  lemma ReleaseTagged(m: FragMap, c: nat)
    requires c in m && TaggedBut(m, c)
    ensures Tagged(Release(m, c))
  {
  }

  lemma ReleaseCoalesced(m: FragMap, c: nat)
    requires c in m && m[c].size > 0 && CoalescedBut(m, c) && PreviousUsed(m, c) && NextUsed(m, c)
    ensures Coalesced(Release(m, c))
  {
    var m' := Release(m, c);
    forall f, g | f in m' && g in m' && m'[f].entry.Some? && g == f + m'[f].size
      ensures m'[g].entry.None?
    {
      assert m'[f].size == m[f].size;
      assert g != c ==> m'[g] == m[g];
    }
  }

  // ----- what changes for an observer -----

  lemma TakeEffect(m: FragMap, f: nat, e: Entry, g: nat, size: nat)
    requires Tagged(m) && f in m && m[f].entry.Some?
    ensures HasFree(Take(m, f, m[f].size), e) <==> HasFree(m, e) && e != m[f].entry.value
    ensures HasUsed(Take(m, f, m[f].size), g, size) <==> HasUsed(m, g, size) || (g == f && size == m[f].size)
  {
  }

  lemma SplitEffect(m: FragMap, f: nat, n: nat, e: Entry, g: nat, size: nat)
    requires Tagged(m) && f in m && m[f].entry.Some? && 0 < n < m[f].size && f + n !in m
    ensures HasFree(Split(m, f, n, m[f].size), e) <==>
              (HasFree(m, e) && e != m[f].entry.value) || e == Entry(m[f].size - n, f + n)
    ensures HasUsed(Split(m, f, n, m[f].size), g, size) <==> HasUsed(m, g, size) || (g == f && size == n)
  {
  }

  /** The entries of the fragments that `free` merges with: before and after f. */
  function MergedEntry(m: FragMap, p: Option<nat>): (r: Option<Entry>) {
    if p.Some? && p.value in m then m[p.value].entry else None
  }

  function Freed(m: FragMap, f: nat): (r: (FragMap, nat))
    requires f in m
    ensures r.1 in r.0
  {
    var (m1, c) := MergeLower(m, f);
    (MergeUpper(m1, c), c)
  }

  lemma MergeLowerEffect(m: FragMap, base: nat, length: nat, f: nat, g: nat)
    requires Kept(m, base, length) && f in m && m[f].entry.None?
    ensures var (m1, c) := MergeLower(m, f);
            && (g in m1 && g != c ==> g in m && g != f && m1[g] == m[g])
            && (g in m && g != f && g != c ==> g in m1)
            && (LowerFree(m, f).Some? ==> c == LowerFree(m, f).value && HasFree(m, m[c].entry.value) && c != f)
            && (LowerFree(m, f).None? ==> c == f)
  {
    PreviousTile(m, base, length, f);
    var p := LowerFree(m, f);
    if p.Some? {
      MergedUntouched(m, p.value, f);
    }
  }

  lemma MergeUpperEffect(m: FragMap, c: nat, g: nat)
    requires c in m
    ensures var m' := MergeUpper(m, c);
            && (g in m' && g != c ==> g in m && m'[g] == m[g])
            && (g in m && g != c && UpperFree(m, c) != Some(g) ==> g in m')
            && (UpperFree(m, c) == Some(g) ==> g !in m' && g in m && m[g].entry.Some? && g != c)
  {
  }

  /** After the two merges and the release of the result: one used fragment less, and of the free ones
      the two neighbours replaced by one. */
  lemma FreedEffect(m: FragMap, base: nat, length: nat, f: nat, e: Entry, g: nat, size: nat)
    requires Kept(m, base, length) && f in m && m[f].entry.None?
    ensures var (m2, c) := Freed(m, f); var m1 := MergeLower(m, f).0; var m' := Release(m2, c);
            && (HasFree(m', e) <==>
                  (|| e == Entry(m2[c].size, c)
                   || (&& HasFree(m, e) && Some(e) != MergedEntry(m, LowerFree(m, f))
                       && Some(e) != MergedEntry(m1, UpperFree(m1, c)))))
            && (HasUsed(m', g, size) <==> HasUsed(m, g, size) && g != f)
  {
    var (m1, c) := MergeLower(m, f);
    MergeLowerEffect(m, base, length, f, e.base);
    MergeLowerEffect(m, base, length, f, g);
    MergeUpperEffect(m1, c, e.base);
    MergeUpperEffect(m1, c, g);
  }
}
