/** The free index of the heap: a `std::multimap` from size to base address.

    The multimap is a sequence ordered by size.  As the C++ standard has it, an element goes in after
    the elements of equal key, and `lower_bound` finds the first element whose key is not less. */
module FreeList {

  datatype Entry = Entry(size: nat, base: nat)

  predicate Sorted(l: seq<Entry>) {
    forall i, j :: 0 <= i < j < |l| ==> l[i].size <= l[j].size
  }

  predicate Distinct(l: seq<Entry>) {
    forall i, j :: 0 <= i < j < |l| ==> l[i] != l[j]
  }

  /** Index of the first entry of at least the given size; |l| if there is none. */
  function LowerBound(l: seq<Entry>, size: nat): (i: nat)
    ensures i <= |l|
    ensures forall k :: 0 <= k < i ==> l[k].size < size
    ensures i < |l| ==> l[i].size >= size
  {
    if l == [] || l[0].size >= size then 0 else 1 + LowerBound(l[1..], size)
  }

  function RemoveAt(l: seq<Entry>, i: nat): seq<Entry>
    requires i < |l|
  {
    l[..i] + l[i + 1..]
  }

  /** Index behind the last entry of at most the given size. */
  function UpperBound(l: seq<Entry>, size: nat): (i: nat)
    ensures i <= |l|
    ensures i > 0 ==> l[i - 1].size <= size
    ensures forall k :: i <= k < |l| ==> l[k].size > size
  {
    if l == [] then 0
    else if l[|l| - 1].size <= size then |l|
    else UpperBound(l[..|l| - 1], size)
  }

  function Insert(l: seq<Entry>, e: Entry): seq<Entry> {
    var i := UpperBound(l, e.size);
    l[..i] + [e] + l[i..]
  }

  /** Index of an entry: what the iterator kept in a fragment designates. */
  function IndexOf(l: seq<Entry>, e: Entry): (i: nat)
    requires e in l
    ensures i < |l| && l[i] == e
  {
    if l[0] == e then 0 else 1 + IndexOf(l[1..], e)
  }

  function Erase(l: seq<Entry>, e: Entry): seq<Entry>
    requires e in l
  {
    RemoveAt(l, IndexOf(l, e))
  }

  lemma RemoveKeeps(l: seq<Entry>, i: nat)
    requires i < |l| && Sorted(l) && Distinct(l)
    ensures Sorted(RemoveAt(l, i)) && Distinct(RemoveAt(l, i))
    ensures forall e :: e in RemoveAt(l, i) <==> e in l && e != l[i]
    ensures multiset(RemoveAt(l, i)) == multiset(l) - multiset{l[i]}
  {
    RemoveDistinct(l, i);
    forall e ensures e in RemoveAt(l, i) <==> e in l && e != l[i] {
      RemoveMember(l, i, e);
    }
    assert l == l[..i] + [l[i]] + l[i + 1..];
  }

  lemma RemoveDistinct(l: seq<Entry>, i: nat)
    requires i < |l| && Sorted(l) && Distinct(l)
    ensures Sorted(RemoveAt(l, i)) && Distinct(RemoveAt(l, i))
  {
    var r := RemoveAt(l, i);
    assert forall k :: 0 <= k < |r| ==> r[k] == l[if k < i then k else k + 1];
  }

  lemma RemoveMember(l: seq<Entry>, i: nat, e: Entry)
    requires i < |l| && Distinct(l)
    ensures e in RemoveAt(l, i) <==> e in l && e != l[i]
  {
    var r := RemoveAt(l, i);
    if e in r {
      var k :| 0 <= k < |r| && r[k] == e;
      assert e == l[if k < i then k else k + 1];
    }
    if e in l && e != l[i] {
      var k :| 0 <= k < |l| && l[k] == e;
      assert r[if k < i then k else k - 1] == e;
    }
  }

  lemma EraseKeeps(l: seq<Entry>, e: Entry)
    requires e in l && Sorted(l) && Distinct(l)
    ensures Sorted(Erase(l, e)) && Distinct(Erase(l, e))
    ensures forall x :: x in Erase(l, e) <==> x in l && x != e
    ensures multiset(Erase(l, e)) == multiset(l) - multiset{e}
  {
    RemoveKeeps(l, IndexOf(l, e));
  }

  lemma InsertMembers(l: seq<Entry>, e: Entry)
    ensures forall x :: x in Insert(l, e) <==> x in l || x == e
    ensures multiset(Insert(l, e)) == multiset(l) + multiset{e}
  {
    var i := UpperBound(l, e.size);
    assert l == l[..i] + l[i..];
    forall x
      ensures x in Insert(l, e) <==> x in l || x == e
    {
      assert x in l <==> x in l[..i] || x in l[i..];
    }
  }

  lemma InsertSorts(l: seq<Entry>, e: Entry)
    requires Sorted(l)
    ensures Sorted(Insert(l, e))
  {
  }

  lemma InsertDistinct(l: seq<Entry>, e: Entry)
    requires e !in l && Distinct(l)
    ensures Distinct(Insert(l, e))
  {
  }

  lemma InsertKeeps(l: seq<Entry>, e: Entry)
    requires e !in l && Sorted(l) && Distinct(l)
    ensures Sorted(Insert(l, e)) && Distinct(Insert(l, e))
    ensures forall x :: x in Insert(l, e) <==> x in l || x == e
    ensures multiset(Insert(l, e)) == multiset(l) + multiset{e}
  {
    InsertMembers(l, e);
    InsertSorts(l, e);
    InsertDistinct(l, e);
  }

  lemma {:induction false} NoneFits(l: seq<Entry>, size: nat)
    requires forall e :: e in l ==> e.size < size
    ensures LowerBound(l, size) == |l|
  {
    if l != [] {
      NoneFits(l[1..], size);
    }
  }

  /** The entry that `lower_bound` designates is of least size among those that are large enough. */
  lemma LowerBoundIsBestFit(l: seq<Entry>, size: nat, e: Entry)
    requires Sorted(l) && e in l && e.size >= size
    ensures LowerBound(l, size) < |l| && l[LowerBound(l, size)].size <= e.size
  {
    var k :| 0 <= k < |l| && l[k] == e;
  }

  /** An entry found in a list without repetition is found at its own index. */
  lemma IndexIsUnique(l: seq<Entry>, i: nat)
    requires i < |l| && Distinct(l)
    ensures IndexOf(l, l[i]) == i
  {
    var k := IndexOf(l, l[i]);
    assert l[k] == l[i];
  }

  /** Taking an entry out again right after it went in. */
  lemma EraseInserted(l: seq<Entry>, e: Entry)
    requires e !in l && Distinct(l) && Sorted(l)
    ensures e in Insert(l, e) && Erase(Insert(l, e), e) == l
  {
    var i := UpperBound(l, e.size);
    InsertDistinct(l, e);
    var r := Insert(l, e);
    assert r[i] == e;
    IndexIsUnique(r, i);
    RemoveInserted(l, i, e);
  }

  lemma RemoveInserted(l: seq<Entry>, i: nat, e: Entry)
    requires i <= |l|
    ensures RemoveAt(l[..i] + [e] + l[i..], i) == l
  {
    var r := l[..i] + [e] + l[i..];
    assert r[..i] == l[..i] && r[i + 1..] == l[i..];
  }

  /** Putting an entry back where it was taken out moves it behind those of equal size. */
  lemma InsertRemoved(l: seq<Entry>, i: nat)
    requires i < |l| && Sorted(l) && Distinct(l)
    ensures multiset(Insert(RemoveAt(l, i), l[i])) == multiset(l)
    ensures Insert(RemoveAt(l, i), l[i]) == l <==> (i + 1 < |l| ==> l[i + 1].size > l[i].size)
  {
    var r, e := RemoveAt(l, i), l[i];
    RemoveKeeps(l, i);
    InsertMembers(r, e);
    assert e in multiset(l);
    WhereRemoved(l, i);
  }

  lemma WhereRemoved(l: seq<Entry>, i: nat)
    requires i < |l| && Sorted(l) && Distinct(l)
    ensures Insert(RemoveAt(l, i), l[i]) == l <==> (i + 1 < |l| ==> l[i + 1].size > l[i].size)
  {
    var u := InsertionPoint(l, i);
    BackAt(l, i, u);
  }

  lemma BackAt(l: seq<Entry>, i: nat, u: nat)
    requires i <= u < |l| && Distinct(l)
    ensures RemoveAt(l, i)[..u] + [l[i]] + RemoveAt(l, i)[u..] == l <==> u == i
  {
    var r := RemoveAt(l, i);
    var l' := r[..u] + [l[i]] + r[u..];
    if u > i {
      assert l'[i] == l[i + 1];
    } else {
      assert r[..i] == l[..i] && r[i..] == l[i + 1..];
    }
  }

  lemma InsertionPoint(l: seq<Entry>, i: nat) returns (u: nat)
    requires i < |l| && Sorted(l)
    ensures u == UpperBound(RemoveAt(l, i), l[i].size) && i <= u < |l|
    ensures u > i <==> i + 1 < |l| && l[i + 1].size <= l[i].size
  {
    var r := RemoveAt(l, i);
    u := UpperBound(r, l[i].size);
    assert forall k :: 0 <= k < i ==> r[k].size <= l[i].size;
    assert forall k :: i <= k < |r| ==> r[k] == l[k + 1];
    if u < |r| {
      assert r[u].size > l[i].size;
    }
    if u > 0 {
      assert r[u - 1].size <= l[i].size;
    }
    if i < |r| {
      assert r[i] == l[i + 1];
    }
  }
}
