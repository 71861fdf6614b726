/** The byte-wise order behind `sort.Strings`, and why sorting is canonical. */
module Strings {
  import opened Basics

  /** Byte-wise lexicographic order, the order of Go's `<=` on strings. */
  predicate Le(a: Bytes, b: Bytes) {
    a == [] || (b != [] && (a[0] < b[0] || (a[0] == b[0] && Le(a[1..], b[1..]))))
  }

  lemma LeTotal(a: Bytes, b: Bytes)
    ensures Le(a, b) || Le(b, a)
  {
  }

  lemma {:induction false} LeAntisymmetric(a: Bytes, b: Bytes)
    requires Le(a, b) && Le(b, a)
    ensures a == b
  {
    if a == [] {
    } else {
      LeAntisymmetric(a[1..], b[1..]);
      assert a == [a[0]] + a[1..] && b == [b[0]] + b[1..];
    }
  }

  lemma LeTransitive(a: Bytes, b: Bytes, c: Bytes)
    requires Le(a, b) && Le(b, c)
    ensures Le(a, c)
  {
  }

  ghost predicate Sorted(s: seq<Bytes>) {
    forall i, j :: 0 <= i < j < |s| ==> Le(s[i], s[j])
  }

  function Insert(x: Bytes, s: seq<Bytes>): (r: seq<Bytes>)
    ensures multiset(r) == multiset(s) + multiset{x}
  {
    if s == [] then [x]
    else if Le(x, s[0]) then [x] + s
    else
      assert s == [s[0]] + s[1..];
      [s[0]] + Insert(x, s[1..])
  }

  /** What `sort.Strings` leaves behind: the same elements, in order. */
  function Sort(s: seq<Bytes>): (r: seq<Bytes>)
    ensures multiset(r) == multiset(s)
    ensures |r| == |s|
  {
    if s == [] then []
    else
      assert s == [s[0]] + s[1..];
      var r := Insert(s[0], Sort(s[1..]));
      assert |multiset(r)| == |r| && |multiset(s)| == |s|;
      r
  }

  lemma SameElements(a: seq<Bytes>, b: seq<Bytes>, x: Bytes)
    requires multiset(a) == multiset(b)
    ensures x in a <==> x in b
  {
    assert x in multiset(a) <==> x in a;
    assert x in multiset(b) <==> x in b;
  }

  lemma {:induction false} InsertSorted(x: Bytes, s: seq<Bytes>)
    requires Sorted(s)
    ensures Sorted(Insert(x, s))
  {
    if s == [] {
    } else if Le(x, s[0]) {
      forall j | 0 <= j < |s| ensures Le(x, s[j]) {
        if j > 0 { LeTransitive(x, s[0], s[j]); }
      }
    } else {
      LeTotal(x, s[0]);
      var rest := Insert(x, s[1..]);
      InsertSorted(x, s[1..]);
      forall j | 0 <= j < |rest| ensures Le(s[0], rest[j]) {
        assert rest[j] in multiset(rest);
        if rest[j] != x {
          assert rest[j] in multiset(s[1..]);
        }
      }
    }
  }

  lemma {:induction false} SortSorts(s: seq<Bytes>)
    ensures Sorted(Sort(s))
  {
    if s == [] {
    } else {
      SortSorts(s[1..]);
      InsertSorted(s[0], Sort(s[1..]));
    }
  }

  lemma FirstIsLeast(a: seq<Bytes>, x: Bytes)
    requires Sorted(a) && x in a
    ensures Le(a[0], x)
  {
    LeReflexive(x);
    var i :| 0 <= i < |a| && a[i] == x;
  }

  lemma RestMultiset(a: seq<Bytes>)
    requires a != []
    ensures multiset(a[1..]) == multiset(a) - multiset{a[0]}
  {
    assert a == [a[0]] + a[1..];
  }

  lemma {:induction false} SortedUnique(a: seq<Bytes>, b: seq<Bytes>)
    requires Sorted(a) && Sorted(b) && multiset(a) == multiset(b)
    ensures a == b
  {
    SameLength(a, b);
    if a == [] {
    } else {
      SameElements(a, b, a[0]);
      SameElements(a, b, b[0]);
      FirstIsLeast(a, b[0]);
      FirstIsLeast(b, a[0]);
      LeAntisymmetric(a[0], b[0]);
      RestMultiset(a);
      RestMultiset(b);
      SortedUnique(a[1..], b[1..]);
      assert a == [a[0]] + a[1..] && b == [b[0]] + b[1..];
    }
  }

  lemma SameLength(a: seq<Bytes>, b: seq<Bytes>)
    requires multiset(a) == multiset(b)
    ensures |a| == |b|
  {
    assert |multiset(a)| == |a| && |multiset(b)| == |b|;
  }

  lemma LeReflexive(a: Bytes)
    ensures Le(a, a)
  {
  }

  /** Any two arrangements of the same elements sort to the same list. */
  lemma SortCanonical(a: seq<Bytes>, b: seq<Bytes>)
    requires multiset(a) == multiset(b)
    ensures Sort(a) == Sort(b)
  {
    SortSorts(a);
    SortSorts(b);
    SortedUnique(Sort(a), Sort(b));
  }

  /** `s` lists each element of `ids` once, in whatever order a map range yields them. */
  ghost predicate Lists(s: seq<Bytes>, ids: set<Bytes>) {
    && (forall i, j :: 0 <= i < j < |s| ==> s[i] != s[j])
    && (forall x :: x in s <==> x in ids)
  }

  ghost function SomeListing(ids: set<Bytes>): (s: seq<Bytes>)
    ensures Lists(s, ids) && |s| == |ids|
  {
    if ids == {} then [] else
      var x :| x in ids;
      [x] + SomeListing(ids - {x})
  }

  ghost function SortedIds(ids: set<Bytes>): (s: seq<Bytes>)
    ensures |s| == |ids|
  {
    Sort(SomeListing(ids))
  }

  lemma {:induction false} ListingMultiset(s: seq<Bytes>, ids: set<Bytes>)
    requires Lists(s, ids)
    ensures multiset(s) == multiset(ids) && |s| == |ids|
  {
    if s == [] {
      assert ids == {};
    } else {
      assert s == [s[0]] + s[1..];
      ListingMultiset(s[1..], ids - {s[0]});
    }
  }

  /** Collecting map keys in any order and sorting them gives one answer. */
  lemma SortedIdsCanonical(s: seq<Bytes>, ids: set<Bytes>)
    requires Lists(s, ids)
    ensures Sort(s) == SortedIds(ids)
  {
    ListingMultiset(s, ids);
    ListingMultiset(SomeListing(ids), ids);
    SortCanonical(s, SomeListing(ids));
  }

  lemma SortedIdsMembers(ids: set<Bytes>)
    ensures forall x :: x in SortedIds(ids) <==> x in ids
  {
    forall x ensures x in SortedIds(ids) <==> x in ids {
      SameElements(SortedIds(ids), SomeListing(ids), x);
    }
  }
}
