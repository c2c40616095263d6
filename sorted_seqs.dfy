/** Facts about the ascending sequence of values that level 0 of a skip list
    holds: where a value goes, and what removing its first occurrence does. */
module SortedSeqs {
  import opened SeqEdits

  /** Non-decreasing order; equal values may repeat (a multiset, not a set). */
  ghost predicate Sorted(s: seq<int>) {
    forall j, k :: 0 <= j < k < |s| ==> s[j] <= s[k]
  }

  /** The number of leading elements strictly below `v`: the position a
      descent that advances past every value `< v` stops in front of. */
  function LowerBound(s: seq<int>, v: int): (q: nat)
    ensures q <= |s|
    ensures forall k :: 0 <= k < q ==> s[k] < v
    ensures q < |s| ==> s[q] >= v
    ensures Sorted(s) ==> forall k :: q <= k < |s| ==> s[k] >= v
    ensures Sorted(s) ==> (v in s <==> q < |s| && s[q] == v)
  {
    if s == [] || s[0] >= v then 0 else 1 + LowerBound(s[1..], v)
  }

  /** Any position with only smaller values before it and a value `>= v`
      (or the end) at it is the lower bound. */
  lemma {:induction false} LowerBoundIs(s: seq<int>, v: int, q: nat)
    requires q <= |s|
    requires forall k :: 0 <= k < q ==> s[k] < v
    requires q < |s| ==> s[q] >= v
    ensures LowerBound(s, v) == q
  {
    if s != [] && s[0] < v {
      LowerBoundIs(s[1..], v, q - 1);
    }
  }

  /** `s` with one more `v`, placed in front of the first element `>= v`. */
  function InsertSorted(s: seq<int>, v: int): (r: seq<int>)
    ensures |r| == |s| + 1
    ensures multiset(r) == multiset(s) + multiset{v}
    ensures Sorted(s) ==> Sorted(r)
  {
    var q := LowerBound(s, v);
    InsertedSlices(s, q, v);
    s[..q] + [v] + s[q..]
  }

  /** `s` without its first occurrence of `v`, or `s` itself if `v` is absent. */
  function RemoveFirst(s: seq<int>, v: int): (r: seq<int>)
    requires Sorted(s)
    ensures Sorted(r)
    ensures |r| == if v in s then |s| - 1 else |s|
    ensures multiset(r) == multiset(s) - multiset{v}
  {
    var q := LowerBound(s, v);
    if q < |s| && s[q] == v then
      DroppedSlices(s, q);
      s[..q] + s[q + 1..]
    else
      s
  }

  /** When the lower bound of `v` holds `v`, that is the occurrence removed. */
  lemma RemoveFirstAt(s: seq<int>, v: int, q: nat)
    requires Sorted(s) && q == LowerBound(s, v) && q < |s| && s[q] == v
    ensures v in s && RemoveFirst(s, v) == s[..q] + s[q + 1..]
  {
  }

  /** When the lower bound of `v` does not hold `v`, nothing is removed. */
  lemma RemoveFirstAbsent(s: seq<int>, v: int, q: nat)
    requires Sorted(s) && q == LowerBound(s, v) && (q == |s| || s[q] != v)
    ensures v !in s && RemoveFirst(s, v) == s
  {
  }

  /** Dropping a position keeps a sequence sorted. */
  lemma SortedDropped(s: seq<int>, q: nat, t: seq<int>)
    requires Sorted(s) && IsDropped(s, q, t)
    ensures Sorted(t)
  {
    forall j, k | 0 <= j < k < |t| ensures t[j] <= t[k] {
      assert t[j] == s[if j < q then j else j + 1];
      assert t[k] == s[if k < q then k else k + 1];
    }
  }

  /** Inserting `v` and then removing `v` gives back exactly the original
      sequence, not only the same multiset. */
  lemma RemoveInsertRoundTrip(s: seq<int>, v: int)
    requires Sorted(s)
    ensures RemoveFirst(InsertSorted(s, v), v) == s
  {
    var t := InsertSorted(s, v);
    assert v in multiset(t);
    assert multiset(t) - multiset{v} == multiset(s);
    SortedUnique(RemoveFirst(t, v), s);
  }

  /** A sorted sequence is determined by its multiset of elements. */
  lemma {:induction false} SortedUnique(a: seq<int>, b: seq<int>)
    requires Sorted(a) && Sorted(b) && multiset(a) == multiset(b)
    ensures a == b
  {
    assert |a| == |multiset(a)| == |multiset(b)| == |b|;
    if a != [] {
      assert a[0] in multiset(b) && b[0] in multiset(a);
      var j :| 0 <= j < |b| && b[j] == a[0];
      var k :| 0 <= k < |a| && a[k] == b[0];
      assert b[0] <= b[j] && a[0] <= a[k];
      assert a[0] == b[0];
      assert a == [a[0]] + a[1..];
      assert b == [b[0]] + b[1..];
      assert multiset(a) == multiset{a[0]} + multiset(a[1..]);
      assert multiset(b) == multiset{b[0]} + multiset(b[1..]);
      assert multiset(a[1..]) == multiset(a) - multiset{a[0]};
      assert multiset(b[1..]) == multiset(b) - multiset{b[0]};
      assert Sorted(a[1..]);
      assert Sorted(b[1..]);
      SortedUnique(a[1..], b[1..]);
    }
  }

  /** Any sorted arrangement of the elements of `s` plus one `v` is the one
      InsertSorted builds. */
  lemma InsertSortedUnique(s: seq<int>, v: int, t: seq<int>)
    requires Sorted(s) && Sorted(t) && multiset(t) == multiset(s) + multiset{v}
    ensures t == InsertSorted(s, v)
  {
    SortedUnique(t, InsertSorted(s, v));
  }

  /** Any sorted arrangement of the elements of `s` less one `v` is the one
      RemoveFirst builds. */
  lemma RemoveFirstUnique(s: seq<int>, v: int, t: seq<int>)
    requires Sorted(s) && Sorted(t) && multiset(t) == multiset(s) - multiset{v}
    ensures t == RemoveFirst(s, v)
  {
    SortedUnique(t, RemoveFirst(s, v));
  }
}
