/** The leaderboard's skip list: an ordered multiset of scores kept on a
    tower of linked levels, together with the map from player id to score
    that the leaderboard operations keep in step with it. */
module SkipLists {
  import opened SeqEdits
  import opened SortedSeqs
  import opened Towers
  import opened Ranking

  datatype Option<T> = None | Some(value: T)

  /** The smallest 32-bit integer, stored in the head sentinel. */
  const IntMin: int := -0x8000_0000

  /** `k` is the level that repeated coin flips `draws` give: it counts the
      leading successful flips, stopping at `maxLevel`. */
  ghost predicate IsDrawnLevel(draws: seq<bool>, maxLevel: nat, k: nat) {
    && k <= maxLevel
    && k < |draws|
    && (forall j :: 0 <= j < k ==> draws[j])
    && (k < maxLevel ==> !draws[k])
  }

  /** Position `k` of level 0 holds the value of node `order[k]`. */
  ghost predicate Lists(value: seq<int>, order: seq<nat>, C: seq<int>) {
    && |C| == |order|
    && forall k :: 0 <= k < |order| ==> order[k] < |value| && C[k] == value[order[k]]
  }

  /** A node appended to the arena with value `v` and placed at position `q`
      lists `v` there. */
  lemma InsertLists(value: seq<int>, order: seq<nat>, C: seq<int>, q: nat, v: int, order': seq<nat>, C': seq<int>)
    requires Lists(value, order, C)
    requires IsInserted(order, q, |value|, order') && IsInserted(C, q, v, C')
    ensures Lists(value + [v], order', C')
  {
    forall k | 0 <= k < |order'| ensures order'[k] < |value| + 1 && C'[k] == (value + [v])[order'[k]] {
      if k > q {
        assert order'[k] == order[k - 1] && C'[k] == C[k - 1];
      }
    }
  }

  /** Dropping position `q` from the order drops its value. */
  lemma DeleteLists(value: seq<int>, order: seq<nat>, C: seq<int>, q: nat, order': seq<nat>, C': seq<int>)
    requires Lists(value, order, C)
    requires IsDropped(order, q, order') && IsDropped(C, q, C')
    ensures Lists(value, order', C')
  {
    forall k | 0 <= k < |order'| ensures order'[k] < |value| && C'[k] == value[order'[k]] {
      if k >= q {
        assert order'[k] == order[k + 1] && C'[k] == C[k + 1];
      }
    }
  }

  /** `lvl` is the highest level of any node, or 0 when there is none. */
  ghost predicate Topmost(L: seq<nat>, lvl: nat) {
    && (forall k :: 0 <= k < |L| ==> L[k] <= lvl)
    && (lvl == 0 || lvl in L)
  }

  /** A new node of level `h` raises the top level to `h` if it is higher. */
  lemma InsertTopmost(L: seq<nat>, lvl: nat, q: nat, h: nat, L': seq<nat>)
    requires Topmost(L, lvl) && IsInserted(L, q, h, L')
    ensures Topmost(L', if h > lvl then h else lvl)
  {
    forall k | 0 <= k < |L'| ensures L'[k] <= if h > lvl then h else lvl {
      if k > q { assert L'[k] == L[k - 1]; }
    }
    if h <= lvl && lvl != 0 {
      var k :| 0 <= k < |L| && L[k] == lvl;
      assert L'[if k < q then k else k + 1] == lvl;
    }
  }

  /** The arena `next`/`value` forms a tower of height `top` over the nodes
      `order`, of levels `L`, listing the ascending values `C`; `lvl` is the
      highest level in use. */
  ghost predicate Good(next: seq<seq<int>>, value: seq<int>, order: seq<nat>, L: seq<nat>, C: seq<int>, lvl: nat, top: nat) {
    && Shape(next, value, order, L, C, top)
    && lvl <= top
    && Topmost(L, lvl)
  }

  /** The arena forms a tower of height `top` listing the ascending values `C`. */
  ghost predicate Shape(next: seq<seq<int>>, value: seq<int>, order: seq<nat>, L: seq<nat>, C: seq<int>, top: nat) {
    && Tower(next, order, L, top)
    && |value| == |next|
    && Lists(value, order, C)
    && Sorted(C)
  }

  /** Unlinking the node at position `q` on every level it is on keeps the
      tower and drops its value from the listing. */
  lemma DeleteShape(next: seq<seq<int>>, value: seq<int>, order: seq<nat>, L: seq<nat>, C: seq<int>, top: nat,
                    q: nat, pos: seq<int>, next1: seq<seq<int>>)
    requires Shape(next, value, order, L, C, top)
    requires q < |L| && |pos| > L[q]
    requires forall j :: 0 <= j <= L[q] ==> LastBefore(L, pos[j], j, q)
    requires SplicedOut(next, order, pos, q, L[q], next1)
    ensures Shape(next1, value, order[..q] + order[q + 1..], L[..q] + L[q + 1..], C[..q] + C[q + 1..], top)
  {
    DroppedSlices(order, q);
    DroppedSlices(L, q);
    DroppedSlices(C, q);
    DeletePreservesTower(next, order, L, top, q, pos, next1);
    DeleteLists(value, order, C, q, order[..q] + order[q + 1..], C[..q] + C[q + 1..]);
    SortedDropped(C, q, C[..q] + C[q + 1..]);
  }

  /** On each level of a descent towards position `q`, the predecessor is a
      node other than the one at `q`, and it links to that node exactly on
      the levels that node is on. */
  lemma PredecessorLinks(next: seq<seq<int>>, order: seq<nat>, L: seq<nat>, top: nat, q: nat, pos: seq<int>, lvl: nat)
    requires Tower(next, order, L, top)
    requires q < |L| && L[q] <= lvl <= top && |pos| > lvl
    requires forall j :: 0 <= j <= lvl ==> LastBefore(L, pos[j], j, q)
    ensures order[q] < |next| && |next[order[q]]| == L[q] + 1
    ensures |order| == |L|
    ensures forall j :: 0 <= j <= lvl ==>
              -1 <= pos[j] < q &&
              var x := NodeAt(order, pos[j]);
              0 <= x < |next| && j < |next[x]| && x != order[q] && (next[x][j] == order[q] <==> j <= L[q])
  {
    forall j | 0 <= j <= lvl
      ensures -1 <= pos[j] < q &&
              var x := NodeAt(order, pos[j]);
              0 <= x < |next| && j < |next[x]| && x != order[q] && (next[x][j] == order[q] <==> j <= L[q])
    {
      var p := pos[j];
      assert next[NodeAt(order, p)][j] == LinkTarget(order, L, p, j);
      var r := NextPos(L, p, j);
      if j <= L[q] {
        assert r == q;
      } else {
        assert r != q;
      }
    }
  }

  /** Following the level-`i` link out of position `p`, which lies before
      the lower bound of `v`: the link is `Nil` exactly when no later node is
      on level `i`, and otherwise leads to the next such node, whose value is
      below `v` exactly when that node lies before the lower bound too. */
  ghost predicate Step(next: seq<seq<int>>, value: seq<int>, order: seq<nat>, L: seq<nat>, C: seq<int>, top: nat,
                       v: int, p: int, i: nat) {
    && -1 <= p < LowerBound(C, v) <= |L|
    && |order| == |L| == |C|
    && var x := NodeAt(order, p);
       && 0 <= x < |next| && i < |next[x]|
       && var t := next[x][i];
          var r := NextPos(L, p, i);
          && (t == Nil <==> r == |L|)
          && (t != Nil ==> r < |L| && t == order[r] && 0 <= t < |value| && value[t] == C[r]
                           && (value[t] < v <==> r < LowerBound(C, v)))
  }

  lemma StepRight(next: seq<seq<int>>, value: seq<int>, order: seq<nat>, L: seq<nat>, C: seq<int>, top: nat,
                  v: int, p: int, i: nat)
    requires Shape(next, value, order, L, C, top)
    requires -1 <= p < LowerBound(C, v) && i <= HeightAt(L, p, top)
    ensures Step(next, value, order, L, C, top, v, p, i)
  {
    assert next[NodeAt(order, p)][i] == LinkTarget(order, L, p, i);
    var r := NextPos(L, p, i);
    if r < |L| {
      assert value[order[r]] == C[r];
    }
  }

  /** The level-0 link out of the last position before the lower bound of
      `v` leads to the node at the lower bound, or is `Nil` when every value
      is below `v`. */
  lemma LevelZero(next: seq<seq<int>>, value: seq<int>, order: seq<nat>, L: seq<nat>, C: seq<int>, top: nat,
                  v: int, p: int)
    requires Shape(next, value, order, L, C, top) && LastBefore(L, p, 0, LowerBound(C, v))
    ensures var x := NodeAt(order, p); 0 <= x < |next| && |next[x]| > 0
    ensures var q, c := LowerBound(C, v), next[NodeAt(order, p)][0];
            && (c == Nil <==> q == |C|)
            && (c != Nil ==> q < |C| && c == order[q] && 0 <= c < |value| && value[c] == C[q])
  {
    StepRight(next, value, order, L, C, top, v, p, 0);
    NextPosIs(L, p, 0, p + 1);
  }

  /** Splicing a node of value `v` and level `h` in after the last nodes
      before the lower bound of `v` on each level keeps the list well formed
      and lists `v` in sorted position. */
  lemma InsertGood(next: seq<seq<int>>, value: seq<int>, order: seq<nat>, L: seq<nat>, C: seq<int>, lvl: nat, top: nat,
                   v: int, h: nat, pos: seq<int>, next1: seq<seq<int>>)
    requires Good(next, value, order, L, C, lvl, top)
    requires h <= top && |pos| > h
    requires forall j :: 0 <= j <= h ==> LastBefore(L, pos[j], j, LowerBound(C, v))
    requires SplicedIn(next, order, pos, h, next1)
    ensures var q := LowerBound(C, v);
            Good(next1, value + [v], order[..q] + [|next|] + order[q..], L[..q] + [h] + L[q..],
                 InsertSorted(C, v), if h > lvl then h else lvl, top)
  {
    var q := LowerBound(C, v);
    var order', L' := order[..q] + [|next|] + order[q..], L[..q] + [h] + L[q..];
    InsertedSlices(order, q, |next|);
    InsertedSlices(L, q, h);
    InsertedSlices(C, q, v);
    InsertPreservesTower(next, order, L, top, q, h, pos, next1);
    InsertLists(value, order, C, q, v, order', InsertSorted(C, v));
    InsertTopmost(L, lvl, q, h, L');
  }

  /** A skip list with its nodes held in an arena: node `x` has the value
      `value[x]` and the links `next[x]`, one per level it is on, each the id
      of the next node on that level or `Nil`. Node `Head` is the sentinel,
      linked on every level up to `maxLevel`. */
  class SkipList {
    const maxLevel: nat
    var level: nat
    var value: seq<int>
    var next: seq<seq<int>>
    var players: map<int, int>

    /** The values along level 0, in list order. */
    ghost var Contents: seq<int>
    /** The level of each of those nodes. */
    ghost var Levels: seq<nat>
    /** The arena id of each of those nodes. */
    ghost var order: seq<nat>

    /** The links form a tower over the nodes in `order`, level 0 lists the
        values in ascending order, and `level` is the highest level in use
        (0 when none is). */
    ghost predicate Valid()
      reads this`next, this`value, this`order, this`Levels, this`Contents, this`level
    {
      Good(next, value, order, Levels, Contents, level, maxLevel)
    }

    /** The skip list holds exactly one score per player. */
    ghost predicate Consistent()
      reads this
    {
      Valid() && Tallies(multiset(Contents), players)
    }

    /** An empty list: the head sentinel only, linked to nothing. */
    constructor (maxLevel: nat := 16)
      ensures Consistent()
      ensures this.maxLevel == maxLevel && level == 0
      ensures Contents == [] && players == map[]
    {
      this.maxLevel := maxLevel;
      level := 0;
      value := [IntMin];
      next := [seq(maxLevel + 1, _ => Nil)];
      players := map[];
      Contents := [];
      Levels := [];
      order := [];
      new;
      assert forall v :: Holders(players, v) == {};
    }

    /** Flips coins until one fails or `maxLevel` is reached; `draws[j]` is
        the outcome of the `j`-th flip. */
    method RandomLevel(draws: seq<bool>) returns (lvl: nat)
      requires |draws| > maxLevel
      ensures IsDrawnLevel(draws, maxLevel, lvl)
    {
      lvl := 0;
      while draws[lvl] && lvl < maxLevel
        invariant lvl <= maxLevel
        invariant forall j :: 0 <= j < lvl ==> draws[j]
      {
        lvl := lvl + 1;
      }
    }

    /** The head's link on level `i` is what the tower says it is. */
    lemma HeadLink(i: nat)
      requires Tower(next, order, Levels, maxLevel) && i <= maxLevel
      ensures next[Head][i] == LinkTarget(order, Levels, -1, i)
    {
      assert NodeAt(order, -1) == Head;
    }

    /** Moves right along level `i` from node `start`, at position `p`, while
        the next value is below `v`; stops at the last node of level `i`
        before the first value `>= v`. */
    method Advance(start: int, i: nat, v: int, ghost p: int) returns (current: int, ghost p': int)
      requires Shape(next, value, order, Levels, Contents, maxLevel)
      requires -1 <= p < LowerBound(Contents, v) && i <= HeightAt(Levels, p, maxLevel) && start == NodeAt(order, p)
      ensures LastBefore(Levels, p', i, LowerBound(Contents, v)) && current == NodeAt(order, p')
    {
      current, p' := start, p;
      StepRight(next, value, order, Levels, Contents, maxLevel, v, p', i);
      while next[current][i] != Nil && value[next[current][i]] < v
        invariant Step(next, value, order, Levels, Contents, maxLevel, v, p', i)
        invariant current == NodeAt(order, p') && (p' == -1 || Levels[p'] >= i)
        decreases LowerBound(Contents, v) - p'
      {
        p' := NextPos(Levels, p', i);
        current := next[current][i];
        StepRight(next, value, order, Levels, Contents, maxLevel, v, p', i);
      }
    }

    /** `level` is the highest level on which the head links to a node, or 0
        when the head links to nothing. */
    lemma LevelIsHighestHeadLink()
      requires Valid()
      ensures level == 0 || next[Head][level] != Nil
      ensures forall i :: level < i <= maxLevel ==> next[Head][i] == Nil
    {
      HeadLink(level);
      if level != 0 {
        var k :| 0 <= k < |Levels| && Levels[k] == level;
      }
      forall i | level < i <= maxLevel ensures next[Head][i] == Nil {
        HeadLink(i);
      }
    }

    /** Descends from the top level to level 0, on each level moving right
        while the next value is below `v`; `update[i]` is the last node of
        level `i` before the first value `>= v`. */
    method Descend(v: int) returns (update: array<int>, ghost pos: seq<int>)
      requires Shape(next, value, order, Levels, Contents, maxLevel)
      requires level <= maxLevel && forall k :: 0 <= k < |Levels| ==> Levels[k] <= level
      ensures fresh(update) && update.Length == maxLevel + 1 && |pos| == maxLevel + 1
      ensures forall j :: 0 <= j <= level ==>
                LastBefore(Levels, pos[j], j, LowerBound(Contents, v)) && update[j] == NodeAt(order, pos[j])
    {
      ghost var q := LowerBound(Contents, v);
      update := new int[maxLevel + 1];
      pos := seq(maxLevel + 1, _ => -1);
      var current := Head;
      ghost var p := -1;
      var i: int := level;
      while i >= 0
        invariant -1 <= i <= level
        invariant |pos| == maxLevel + 1
        invariant -1 <= p < q && current == NodeAt(order, p) && (p == -1 || Levels[p] > i)
        invariant forall j :: i < j <= level ==> LastBefore(Levels, pos[j], j, q)
        invariant forall j :: i < j <= level ==> update[j] == NodeAt(order, pos[j])
      {
        current, p := Advance(current, i, v, p);
        update[i] := current;
        pos := pos[i := p];
        i := i - 1;
      }
    }

    /** Whether some node holds `v`. */
    method Search(v: int) returns (found: bool)
      requires Valid()
      ensures found <==> v in Contents
    {
      ghost var q := LowerBound(Contents, v);
      var current := Head;
      ghost var p := -1;
      var i: int := level;
      while i >= 0
        invariant -1 <= i <= level
        invariant -1 <= p < q && current == NodeAt(order, p) && (p == -1 || Levels[p] > i)
        invariant i < level ==> LastBefore(Levels, p, i + 1, q)
      {
        current, p := Advance(current, i, v, p);
        i := i - 1;
      }
      LevelZero(next, value, order, Levels, Contents, maxLevel, v, p);
      current := next[current][0];
      found := current != Nil && value[current] == v;
    }

    /** Appends a node of level `h` to the arena and links it in after
        `update[j]` on every level `j <= h`. */
    method LinkNewNode(update: array<int>, h: nat, ghost pos: seq<int>)
      requires update.Length > h && |pos| > h
      requires forall j :: 0 <= j <= h ==>
                 -1 <= pos[j] < |order| && update[j] == NodeAt(order, pos[j])
                 && 0 <= update[j] < |next| && j < |next[update[j]]|
      modifies this`next
      ensures SplicedIn(old(next), order, pos, h, next)
    {
      var n := |next|;
      next := next + [seq(h + 1, _ => Nil)];
      for i := 0 to h + 1
        invariant |next| == n + 1 && |next[n]| == h + 1
        invariant forall x :: 0 <= x < n ==> |next[x]| == |old(next)[x]|
        invariant forall j :: 0 <= j < i ==>
                    next[update[j]][j] == n && next[n][j] == old(next)[update[j]][j]
        invariant forall x, j {:trigger next[x][j]} ::
                    0 <= x < n && 0 <= j < |old(next)[x]| && !(j < i && x == update[j]) ==>
                    next[x][j] == old(next)[x][j]
      {
        next := next[n := next[n][i := next[update[i]][i]]];
        next := next[update[i] := next[update[i]][i := n]];
      }
    }

    /** Creates the node for `v` with level `h` and links it in after
        `update[j]` on each level `j <= h`; `level` has already been raised
        to cover `h`. */
    method SpliceIn(v: int, update: array<int>, h: nat, ghost pos: seq<int>, ghost lvl0: nat)
      requires Good(next, value, order, Levels, Contents, lvl0, maxLevel)
      requires h <= maxLevel && level == (if h > lvl0 then h else lvl0)
      requires update.Length > h && |pos| > h
      requires forall j :: 0 <= j <= h ==>
                 LastBefore(Levels, pos[j], j, LowerBound(Contents, v)) && update[j] == NodeAt(order, pos[j])
      modifies this`next, this`value, this`order, this`Levels, this`Contents
      ensures Valid()
      ensures var q := LowerBound(old(Contents), v);
              && Contents == InsertSorted(old(Contents), v)
              && IsInserted(old(Levels), q, h, Levels)
    {
      ghost var q := LowerBound(Contents, v);
      ghost var links := next;
      LinkNewNode(update, h, pos);
      ghost var order', Levels' := order[..q] + [|links|] + order[q..], Levels[..q] + [h] + Levels[q..];
      InsertGood(links, value, order, Levels, Contents, lvl0, maxLevel, v, h, pos, next);
      InsertedSlices(Levels, q, h);
      value, order, Levels, Contents := value + [v], order', Levels', InsertSorted(Contents, v);
      assert Good(next, value, order, Levels, Contents, level, maxLevel);
    }

    /** Points `update` at the head on each level a new node of level `h`
        adds above the current `level`, and raises `level` to `h` if it is
        higher. */
    method Raise(update: array<int>, h: nat, ghost q: nat, ghost pos: seq<int>) returns (ghost pos': seq<int>)
      requires Topmost(Levels, level) && level <= maxLevel && |order| == |Levels|
      requires h <= maxLevel && q <= |Levels|
      requires update.Length == maxLevel + 1 && |pos| == maxLevel + 1
      requires forall j :: 0 <= j <= level ==>
                 LastBefore(Levels, pos[j], j, q) && update[j] == NodeAt(order, pos[j])
      modifies update, this`level
      ensures level == if h > old(level) then h else old(level)
      ensures |pos'| == maxLevel + 1
      ensures forall j :: 0 <= j <= h ==>
                LastBefore(Levels, pos'[j], j, q) && update[j] == NodeAt(order, pos'[j])
    {
      pos' := pos;
      if h > level {
        for i := level + 1 to h + 1
          invariant |pos'| == maxLevel + 1
          invariant forall j :: 0 <= j < i ==>
                      LastBefore(Levels, pos'[j], j, q) && update[j] == NodeAt(order, pos'[j])
        {
          update[i] := Head;
          pos' := pos'[i := -1];
        }
        level := h;
      }
    }

    /** Inserts `v` in front of the first value `>= v`, as a node whose level
        is drawn from `draws`; a level above the current one raises it. */
    method Insert(v: int, draws: seq<bool>)
      requires Valid() && |draws| > maxLevel
      modifies this
      ensures Valid()
      ensures Contents == InsertSorted(old(Contents), v)
      ensures var q := LowerBound(old(Contents), v);
              && q < |Levels|
              && IsInserted(old(Levels), q, Levels[q], Levels)
              && IsDrawnLevel(draws, maxLevel, Levels[q])
              && level == if Levels[q] > old(level) then Levels[q] else old(level)
      ensures players == old(players)
    {
      ghost var q := LowerBound(Contents, v);
      ghost var oldLevel := level;
      var update, pos := Descend(v);
      var newLevel := RandomLevel(draws);
      pos := Raise(update, newLevel, q, pos);
      SpliceIn(v, update, newLevel, pos, oldLevel);
    }

    /** Unlinks node `current`, of level `h`, on every level from 0 upwards
        where its predecessor `update[i]` still points at it. */
    method Unlink(update: array<int>, current: int, ghost h: nat, ghost q: nat, ghost pos: seq<int>)
      requires h <= level && update.Length > level && |pos| > level
      requires q < |order| && current == order[q] && 0 <= current < |next| && |next[current]| == h + 1
      requires forall j :: 0 <= j <= level ==>
                 -1 <= pos[j] < |order| && update[j] == NodeAt(order, pos[j])
                 && 0 <= update[j] < |next| && j < |next[update[j]]| && update[j] != current
                 && (next[update[j]][j] == current <==> j <= h)
      modifies this`next
      ensures SplicedOut(old(next), order, pos, q, h, next)
    {
      var i := 0;
      while i <= level
        invariant 0 <= i <= h + 1
        invariant |next| == |old(next)| && forall x :: 0 <= x < |next| ==> |next[x]| == |old(next)[x]|
        invariant forall j :: 0 <= j < i ==> next[update[j]][j] == old(next)[current][j]
        invariant forall x, j {:trigger next[x][j]} ::
                    0 <= x < |next| && 0 <= j < |old(next)[x]| && !(j < i && x == update[j]) ==>
                    next[x][j] == old(next)[x][j]
      {
        if next[update[i]][i] != current {
          break;
        }
        next := next[update[i] := next[update[i]][i := next[current][i]]];
        i := i + 1;
      }
    }

    /** Lowers `level` past the levels on which the head links to nothing,
        so that it is again the highest level in use. */
    method Shrink()
      requires Shape(next, value, order, Levels, Contents, maxLevel)
      requires level <= maxLevel && forall k :: 0 <= k < |Levels| ==> Levels[k] <= level
      modifies this`level
      ensures Valid()
      ensures level <= old(level)
    {
      while level > 0 && next[Head][level] == Nil
        invariant level <= old(level)
        invariant forall k :: 0 <= k < |Levels| ==> Levels[k] <= level
      {
        HeadLink(level);
        level := level - 1;
      }
      HeadLink(level);
    }

    /** Unlinks node `current`, at position `q`, from every level it is on,
        drops it from the ghost listing and lowers `level` past the levels
        left empty. */
    method SpliceOut(update: array<int>, current: int, ghost q: nat, ghost pos: seq<int>)
      requires Valid()
      requires q < |Levels| && current == order[q]
      requires update.Length == maxLevel + 1 && |pos| == maxLevel + 1
      requires forall j :: 0 <= j <= level ==>
                 LastBefore(Levels, pos[j], j, q) && update[j] == NodeAt(order, pos[j])
      modifies this
      ensures Valid()
      ensures order == old(order)[..q] + old(order)[q + 1..]
      ensures Levels == old(Levels)[..q] + old(Levels)[q + 1..]
      ensures Contents == old(Contents)[..q] + old(Contents)[q + 1..]
      ensures level <= old(level) && value == old(value) && players == old(players)
    {
      ghost var links := next;
      PredecessorLinks(next, order, Levels, maxLevel, q, pos, level);
      Unlink(update, current, Levels[q], q, pos);
      DeleteShape(links, value, order, Levels, Contents, maxLevel, q, pos, next);
      order, Levels, Contents := order[..q] + order[q + 1..], Levels[..q] + Levels[q + 1..], Contents[..q] + Contents[q + 1..];
      Shrink();
    }

    /** Removes one node holding `v`, the first in list order, and lowers
        `level` past any levels left empty; reports whether there was one. */
    method Remove(v: int) returns (removed: bool)
      requires Valid()
      modifies this
      ensures Valid()
      ensures removed <==> v in old(Contents)
      ensures Contents == RemoveFirst(old(Contents), v)
      ensures removed ==> var q := LowerBound(old(Contents), v);
                          Levels == old(Levels)[..q] + old(Levels)[q + 1..]
      ensures !removed ==> unchanged(this)
      ensures players == old(players)
    {
      ghost var q := LowerBound(Contents, v);
      var update, pos := Descend(v);
      LevelZero(next, value, order, Levels, Contents, maxLevel, v, pos[0]);
      var current := next[update[0]][0];
      if current != Nil && value[current] == v {
        RemoveFirstAt(Contents, v, q);
        SpliceOut(update, current, q, pos);
        removed := true;
      } else {
        RemoveFirstAbsent(Contents, v, q);
        removed := false;
      }
    }

    // -------------------------------------------------------------------------
    // Leaderboard: the player map, kept in step with the skip list

    /** Adds `player` with `score`, unless the player is already in the game;
        the score goes into the skip list as well. */
    method JoinGame(player: int, score: int, draws: seq<bool>) returns (joined: bool)
      requires Valid() && |draws| > maxLevel
      modifies this
      ensures Valid()
      ensures joined <==> player !in old(players)
      ensures !joined ==> unchanged(this)
      ensures joined ==> players == old(players)[player := score] && Contents == InsertSorted(old(Contents), score)
      ensures old(Consistent()) ==> Consistent()
    {
      if player in players {
        return false;
      }
      ghost var bag, m := multiset(Contents), players;
      players := players[player := score];
      Insert(score, draws);
      if old(Consistent()) {
        TalliesAdd(bag, m, player, score);
      }
      joined := true;
    }

    /** Takes `player` out of the game, together with one node of its score;
        a player whose score is not in the skip list stays. */
    method LeaveGame(player: int) returns (left: bool)
      requires Valid()
      modifies this
      ensures Valid()
      ensures left ==> player in old(players) && players == old(players) - {player}
                       && Contents == RemoveFirst(old(Contents), old(players)[player])
      ensures !left ==> unchanged(this)
      ensures old(Consistent()) ==> (left <==> player in old(players)) && Consistent()
    {
      if player !in players {
        return false;
      }
      ghost var bag, m := multiset(Contents), players;
      var score := players[player];
      if old(Consistent()) {
        TalliesHas(bag, m, player);
      }
      var removed := Remove(score);
      if removed {
        players := players - {player};
        if old(Consistent()) {
          TalliesRemove(bag, m, player);
        }
        left := true;
      } else {
        left := false;
      }
    }

    /** The score of `player`, if the player is in the game. */
    method ViewScore(player: int) returns (score: Option<int>)
      ensures score.Some? <==> player in players
      ensures score.Some? ==> score.value == players[player]
      ensures Consistent() && score.Some? ==> score.value in Contents
    {
      if player in players {
        score := Some(players[player]);
        if Consistent() {
          TalliesHas(multiset(Contents), players, player);
        }
      } else {
        score := None;
      }
    }

    /** Moves `player` from `oldScore` to `newScore`, provided that is the
        player's current score: one node of `oldScore` leaves the skip list
        and one of `newScore` joins it. */
    method UpdateScore(player: int, oldScore: int, newScore: int, draws: seq<bool>) returns (updated: bool)
      requires Valid() && |draws| > maxLevel
      modifies this
      ensures Valid()
      ensures updated <==> player in old(players) && old(players)[player] == oldScore
      ensures !updated ==> unchanged(this)
      ensures updated ==> players == old(players)[player := newScore]
                          && Contents == InsertSorted(RemoveFirst(old(Contents), oldScore), newScore)
      ensures old(Consistent()) ==> Consistent()
    {
      if player !in players || players[player] != oldScore {
        return false;
      }
      ghost var bag, m := multiset(Contents), players;
      if old(Consistent()) {
        TalliesHas(bag, m, player);
      }
      players := players[player := newScore];
      var _ := Remove(oldScore);
      Insert(newScore, draws);
      if old(Consistent()) {
        TalliesUpdate(bag, m, player, newScore);
      }
      updated := true;
    }

    /** The `n` best players (all of them if there are fewer, none if `n` is
        not positive), highest score first; ties are listed in no particular
        order. */
    method GetTopPlayers(n: int) returns (top: seq<(int, int)>)
      ensures |top| == if n <= 0 then 0 else if n < |players| then n else |players|
      ensures forall e :: e in top ==> e.0 in players && players[e.0] == e.1
      ensures DistinctPlayers(top) && ByScoreDescending(top)
      ensures forall e, p :: e in top && p in players && (p, players[p]) !in top ==> players[p] <= e.1
    {
      var list := Entries(players);
      var sorted := SortByScore(list);
      var k := if n <= 0 then 0 else if n < |sorted| then n else |sorted|;
      top := sorted[..k];
      SortedPrefixLeads(list, players, k);
    }
  }
}
