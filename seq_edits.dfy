/** Inserting into and deleting from a sequence at a position, described by
    where each element ends up rather than by slices. */
module SeqEdits {

  /** `t` is `s` with `x` placed at position `q`. */
  ghost predicate IsInserted<T>(s: seq<T>, q: nat, x: T, t: seq<T>) {
    && q <= |s|
    && |t| == |s| + 1
    && (forall k :: 0 <= k < q ==> t[k] == s[k])
    && t[q] == x
    && (forall k :: q < k < |t| ==> t[k] == s[k - 1])
  }

  /** `t` is `s` without position `q`. */
  ghost predicate IsDropped<T>(s: seq<T>, q: nat, t: seq<T>) {
    && q < |s|
    && |t| == |s| - 1
    && (forall k :: 0 <= k < q ==> t[k] == s[k])
    && (forall k :: q <= k < |t| ==> t[k] == s[k + 1])
  }

  /** Splicing `x` in with slices inserts it, adding one copy to the multiset. */
  lemma InsertedSlices<T>(s: seq<T>, q: nat, x: T)
    requires q <= |s|
    ensures IsInserted(s, q, x, s[..q] + [x] + s[q..])
    ensures multiset(s[..q] + [x] + s[q..]) == multiset(s) + multiset{x}
  {
    assert s == s[..q] + s[q..];
  }

  /** Cutting position `q` out with slices drops it, taking one copy of
      `s[q]` out of the multiset. */
  lemma DroppedSlices<T>(s: seq<T>, q: nat)
    requires q < |s|
    ensures IsDropped(s, q, s[..q] + s[q + 1..])
    ensures multiset(s[..q] + s[q + 1..]) == multiset(s) - multiset{s[q]}
  {
    assert s[..q + 1] == s[..q] + [s[q]];
    assert s == s[..q + 1] + s[q + 1..];
  }
}
