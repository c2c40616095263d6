/** The leaderboard's view of its player map: how many players hold each
    score, and the ordering of (player, score) entries by score, best first. */
module Ranking {

  /** The players whose score is `v`. */
  ghost function Holders(m: map<int, int>, v: int): set<int> {
    set p | p in m && m[p] == v
  }

  /** `bag` holds every score exactly as often as there are players with it. */
  ghost predicate Tallies(bag: multiset<int>, m: map<int, int>) {
    forall v :: bag[v] == |Holders(m, v)|
  }

  /** A player joining with score `v` adds one copy of `v`. */
  lemma TalliesAdd(bag: multiset<int>, m: map<int, int>, k: int, v: int)
    requires Tallies(bag, m) && k !in m
    ensures Tallies(bag + multiset{v}, m[k := v])
  {
    forall w ensures (bag + multiset{v})[w] == |Holders(m[k := v], w)| {
      if w == v {
        assert Holders(m[k := v], w) == Holders(m, w) + {k};
      } else {
        assert Holders(m[k := v], w) == Holders(m, w);
      }
    }
  }

  /** A player leaving takes one copy of their score away. */
  lemma TalliesRemove(bag: multiset<int>, m: map<int, int>, k: int)
    requires Tallies(bag, m) && k in m
    ensures Tallies(bag - multiset{m[k]}, m - {k})
  {
    forall w ensures (bag - multiset{m[k]})[w] == |Holders(m - {k}, w)| {
      if w == m[k] {
        assert Holders(m, w) == Holders(m - {k}, w) + {k};
      } else {
        assert Holders(m - {k}, w) == Holders(m, w);
      }
    }
  }

  /** A player's score moving from its old value to `v` swaps one copy. */
  lemma TalliesUpdate(bag: multiset<int>, m: map<int, int>, k: int, v: int)
    requires Tallies(bag, m) && k in m
    ensures Tallies(bag - multiset{m[k]} + multiset{v}, m[k := v])
  {
    TalliesRemove(bag, m, k);
    TalliesAdd(bag - multiset{m[k]}, m - {k}, k, v);
    assert (m - {k})[k := v] == m[k := v];
  }

  /** Every player's score is in the bag, so removing it finds a node. */
  lemma TalliesHas(bag: multiset<int>, m: map<int, int>, k: int)
    requires Tallies(bag, m) && k in m
    ensures m[k] in bag
  {
    assert k in Holders(m, m[k]);
  }

  /** Entries ordered by score, highest first; the order among equal scores
      is left open. */
  ghost predicate ByScoreDescending(s: seq<(int, int)>) {
    forall j, k :: 0 <= j < k < |s| ==> s[j].1 >= s[k].1
  }

  /** No player appears twice. */
  ghost predicate DistinctPlayers(s: seq<(int, int)>) {
    forall j, k :: 0 <= j < k < |s| ==> s[j].0 != s[k].0
  }

  /** A set other than the empty one has a member. */
  lemma HasMember(s: set<int>)
    requires s != {}
    ensures exists x :: x in s
  {
    if forall x :: x !in s {
      assert false;
    }
  }

  /** The (player, score) entries of `m`, one per player, in an order left
      open, as iterating over a hash map yields them. */
  method Entries(m: map<int, int>) returns (list: seq<(int, int)>)
    ensures |list| == |m| && DistinctPlayers(list)
    ensures forall e :: e in list <==> e.0 in m && m[e.0] == e.1
  {
    list := [];
    var rest := m.Keys;
    while rest != {}
      invariant rest <= m.Keys && |list| + |rest| == |m|
      invariant forall e :: e in list ==> e.0 in m && m[e.0] == e.1 && e.0 !in rest
      invariant forall p :: p in m && p !in rest ==> (p, m[p]) in list
      invariant DistinctPlayers(list)
      decreases |rest|
    {
      HasMember(rest);
      var p :| p in rest;
      list := list + [(p, m[p])];
      rest := rest - {p};
    }
    forall e: (int, int) | e.0 in m && m[e.0] == e.1 ensures e in list {
      var k := e.0;
      assert k in m && k !in rest;
      assert (k, m[k]) in list;
      assert e == (k, m[k]);
    }
  }

  /** Puts `x` in front of the first entry whose score does not exceed its own. */
  function InsertByScore(x: (int, int), s: seq<(int, int)>): (r: seq<(int, int)>)
    requires ByScoreDescending(s)
    ensures |r| == |s| + 1
    ensures forall e :: e in r <==> e in s || e == x
    ensures ByScoreDescending(r)
  {
    if s == [] || x.1 >= s[0].1 then
      [x] + s
    else
      var rest := InsertByScore(x, s[1..]);
      assert forall e :: e in s[1..] ==> e.1 <= s[0].1;
      assert forall k :: 0 <= k < |rest| ==> rest[k].1 <= s[0].1 by {
        forall k | 0 <= k < |rest| ensures rest[k].1 <= s[0].1 {
          assert rest[k] in rest;
        }
      }
      [s[0]] + rest
  }

  /** Inserting adds exactly one copy of `x`: nothing is lost or duplicated. */
  lemma {:induction false} InsertByScoreBag(x: (int, int), s: seq<(int, int)>)
    requires ByScoreDescending(s)
    ensures multiset(InsertByScore(x, s)) == multiset(s) + multiset{x}
  {
    if s != [] && x.1 < s[0].1 {
      InsertByScoreBag(x, s[1..]);
      assert s == [s[0]] + s[1..];
    }
  }

  /** Inserting a player not yet listed keeps the players distinct. */
  lemma {:induction false} InsertByScoreDistinct(x: (int, int), s: seq<(int, int)>)
    requires ByScoreDescending(s) && DistinctPlayers(s)
    requires forall e :: e in s ==> e.0 != x.0
    ensures DistinctPlayers(InsertByScore(x, s))
  {
    if s != [] && x.1 < s[0].1 {
      InsertByScoreDistinct(x, s[1..]);
      var rest := InsertByScore(x, s[1..]);
      assert forall e :: e in s[1..] ==> e.0 != s[0].0;
      assert forall k :: 0 <= k < |rest| ==> rest[k].0 != s[0].0 by {
        forall k | 0 <= k < |rest| ensures rest[k].0 != s[0].0 {
          assert rest[k] in rest;
        }
      }
      assert InsertByScore(x, s) == [s[0]] + rest;
    }
  }

  /** An insertion sort by score, highest first. It stands for the library
      sort of the source, which promises the same order but not the same
      placement of ties. */
  function SortByScore(s: seq<(int, int)>): (r: seq<(int, int)>)
    ensures |r| == |s|
    ensures forall e :: e in r <==> e in s
    ensures ByScoreDescending(r)
  {
    if s == [] then []
    else
      assert s == [s[0]] + s[1..];
      InsertByScore(s[0], SortByScore(s[1..]))
  }

  /** Sorting is a permutation. */
  lemma {:induction false} SortByScoreBag(s: seq<(int, int)>)
    ensures multiset(SortByScore(s)) == multiset(s)
  {
    if s != [] {
      SortByScoreBag(s[1..]);
      InsertByScoreBag(s[0], SortByScore(s[1..]));
      assert s == [s[0]] + s[1..];
    }
  }

  /** Sorting never makes one player appear twice. */
  lemma {:induction false} SortByScoreDistinct(s: seq<(int, int)>)
    requires DistinctPlayers(s)
    ensures DistinctPlayers(SortByScore(s))
  {
    if s != [] {
      SortByScoreDistinct(s[1..]);
      assert forall e :: e in s[1..] ==> e.0 != s[0].0;
      InsertByScoreDistinct(s[0], SortByScore(s[1..]));
    }
  }

  /** A prefix of a list ordered by score, without repeated players, is
      such a list too; its entries come from the list, and each scores at
      least as much as every entry left out of it. */
  lemma PrefixLeads(s: seq<(int, int)>, k: nat)
    requires ByScoreDescending(s) && DistinctPlayers(s) && k <= |s|
    ensures ByScoreDescending(s[..k]) && DistinctPlayers(s[..k])
    ensures forall e :: e in s[..k] ==> e in s
    ensures forall e, x :: e in s[..k] && x in s && x !in s[..k] ==> x.1 <= e.1
  {
    forall e | e in s[..k] ensures e in s {
      var i :| 0 <= i < k && s[..k][i] == e;
      assert s[i] == e;
    }
    forall e, x | e in s[..k] && x in s && x !in s[..k] ensures x.1 <= e.1 {
      var i :| 0 <= i < k && s[i] == e;
      var j :| 0 <= j < |s| && s[j] == x;
    }
  }

  /** The first `k` entries of a player map sorted by score are players of
      the map, each once, best first, and nobody left out scores higher than
      anybody listed. */
  lemma SortedPrefixLeads(list: seq<(int, int)>, m: map<int, int>, k: nat)
    requires forall e :: e in list <==> e.0 in m && m[e.0] == e.1
    requires DistinctPlayers(list) && k <= |list|
    ensures var top := SortByScore(list)[..k];
            && (forall e :: e in top ==> e.0 in m && m[e.0] == e.1)
            && DistinctPlayers(top) && ByScoreDescending(top)
            && (forall e, p :: e in top && p in m && (p, m[p]) !in top ==> m[p] <= e.1)
  {
    var sorted := SortByScore(list);
    SortByScoreDistinct(list);
    PrefixLeads(sorted, k);
    var top := sorted[..k];
    forall e | e in top ensures e.0 in m && m[e.0] == e.1 {
      assert e in sorted;
      assert e in list;
    }
    forall e, p | e in top && p in m && (p, m[p]) !in top ensures m[p] <= e.1 {
      assert (p, m[p]) in list;
      assert (p, m[p]) in sorted;
    }
  }
}
