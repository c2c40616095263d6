/** The link structure of a skip list, stated over plain sequences.

    Nodes live in an arena and are named by their index in it; the arena
    holds, per node, the successor on each level the node takes part in.
    Node `Head` is the sentinel and `Nil` is the null link. A list is
    described by `order`, the node ids in ascending (level-0) order, and by
    `L`, the level of each of those nodes: a node of level `k` is linked on
    levels `0..k`, the head on every level `0..top`. Position `-1` stands for
    the head. */
module Towers {
  import opened SeqEdits

  const Nil: int := -1
  const Head: int := 0

  /** The first position after `p` whose node takes part in level `i`, or
      `|L|` when there is none: where a level-`i` link from position `p` must
      lead. */
  function NextPos(L: seq<nat>, p: int, i: nat): (r: int)
    requires -1 <= p < |L|
    ensures p < r <= |L|
    ensures forall m :: p < m < r ==> L[m] < i
    ensures r < |L| ==> L[r] >= i
    decreases |L| - p
  {
    if p + 1 == |L| then |L|
    else if L[p + 1] >= i then p + 1
    else NextPos(L, p + 1, i)
  }

  /** The three facts that NextPos ensures determine it. */
  lemma NextPosIs(L: seq<nat>, p: int, i: nat, r: int)
    requires -1 <= p < r <= |L|
    requires forall m :: p < m < r ==> L[m] < i
    requires r < |L| ==> L[r] >= i
    ensures NextPos(L, p, i) == r
  {
  }

  /** The node at a position (the head at `-1`). */
  function NodeAt(order: seq<nat>, p: int): int
    requires -1 <= p < |order|
  {
    if p < 0 then Head else order[p]
  }

  /** The highest level the node at a position is linked on. */
  function HeightAt(L: seq<nat>, p: int, top: nat): nat
    requires -1 <= p < |L|
  {
    if p < 0 then top else L[p]
  }

  /** The node a level-`i` link from position `p` must point at. */
  function LinkTarget(order: seq<nat>, L: seq<nat>, p: int, i: nat): (t: int)
    requires |order| == |L| && -1 <= p < |L|
    ensures t == Nil <==> forall m :: p < m < |L| ==> L[m] < i
  {
    var r := NextPos(L, p, i);
    if r == |L| then Nil else order[r]
  }

  /** The arena is well formed: the head has `top + 1` links, every listed
      node is a distinct non-head arena entry with exactly `level + 1` links,
      and no level exceeds `top`. */
  ghost predicate Arena(next: seq<seq<int>>, order: seq<nat>, L: seq<nat>, top: nat) {
    && |next| > 0
    && |next[Head]| == top + 1
    && |order| == |L|
    && (forall k :: 0 <= k < |order| ==>
          0 < order[k] < |next| && |next[order[k]]| == L[k] + 1 && L[k] <= top)
    && (forall j, k :: 0 <= j < k < |order| ==> order[j] != order[k])
  }

  /** Every link of the head and of every listed node leads to the next node
      on that level. Hence level 0 runs through all nodes in order, and
      level `i` through exactly those of level `>= i`: each level is a
      subsequence of the one below. */
  ghost predicate Tower(next: seq<seq<int>>, order: seq<nat>, L: seq<nat>, top: nat) {
    && Arena(next, order, L, top)
    && forall p, i :: -1 <= p < |L| && 0 <= i <= HeightAt(L, p, top) ==>
         next[NodeAt(order, p)][i] == LinkTarget(order, L, p, i)
  }

  /** Position `p` is where a descent towards position `q` leaves level `i`:
      the last node on level `i` before `q` (the head if there is none). */
  ghost predicate LastBefore(L: seq<nat>, p: int, i: nat, q: int) {
    && -1 <= p < q <= |L|
    && (p == -1 || L[p] >= i)
    && NextPos(L, p, i) >= q
  }

  /** Two different nodes on level `i` before `q` cannot both be the last one. */
  lemma LastBeforeUnique(L: seq<nat>, p: int, p': int, i: nat, q: int)
    requires LastBefore(L, p, i, q)
    requires -1 <= p' < q && (p' == -1 || L[p'] >= i)
    requires p' != p
    ensures NextPos(L, p', i) <= p
  {
  }

  // ---------------------------------------------------------------------------
  // Splicing a node in

  /** `next1` is `next` with a new node (id `|next|`, level `h`) spliced in
      after the level-`j` predecessor `NodeAt(order, pos[j])`, `j <= h`: the
      new node takes over each predecessor's old link, and each predecessor
      now points at the new node. Nothing else changes. */
  ghost predicate SplicedIn(next: seq<seq<int>>, order: seq<nat>, pos: seq<int>, h: nat, next1: seq<seq<int>>) {
    && |pos| > h
    && (forall j :: 0 <= j <= h ==> -1 <= pos[j] < |order|)
    && |next1| == |next| + 1
    && |next1[|next|]| == h + 1
    && (forall x :: 0 <= x < |next| ==> |next1[x]| == |next[x]|)
    && (forall j :: 0 <= j <= h ==> 0 <= NodeAt(order, pos[j]) < |next| && j < |next[NodeAt(order, pos[j])]|)
    && (forall j :: 0 <= j <= h ==>
          next1[NodeAt(order, pos[j])][j] == |next| && next1[|next|][j] == next[NodeAt(order, pos[j])][j])
    && (forall x, j {:trigger next1[x][j]} ::
          0 <= x < |next| && 0 <= j < |next[x]| && !(j <= h && x == NodeAt(order, pos[j])) ==>
          next1[x][j] == next[x][j])
  }

  /** Where level-`i` links lead once a node of level `h` sits at position
      `q` of `L'`, for a position before `q`. */
  lemma NextPosInsertBefore(L: seq<nat>, L': seq<nat>, q: nat, h: nat, p: int, i: nat)
    requires IsInserted(L, q, h, L') && -1 <= p < q
    ensures var r := NextPos(L, p, i);
            NextPos(L', p, i) == if r < q then r else if h >= i then q else r + 1
  {
    var r := NextPos(L, p, i);
    if r < q {
      NextPosIs(L', p, i, r);
    } else if h >= i {
      NextPosIs(L', p, i, q);
    } else {
      forall m | p < m < r + 1 ensures L'[m] < i {
        if m > q { assert L'[m] == L[m - 1]; }
      }
      NextPosIs(L', p, i, r + 1);
    }
  }

  /** The same, for a position at or after `q`, which moves up by one. */
  lemma NextPosInsertFrom(L: seq<nat>, L': seq<nat>, q: nat, h: nat, p: int, i: nat)
    requires IsInserted(L, q, h, L') && q - 1 <= p < |L|
    ensures NextPos(L', p + 1, i) == NextPos(L, p, i) + 1
  {
    var r := NextPos(L, p, i);
    forall m | p + 1 < m < r + 1 ensures L'[m] < i {
      assert L'[m] == L[m - 1];
    }
    NextPosIs(L', p + 1, i, r + 1);
  }

  /** The facts shared by the three parts of the insertion proof: `order'`
      and `L'` have the new node `|next|` of level `h` at position `q`. */
  ghost predicate InsertStep(next: seq<seq<int>>, order: seq<nat>, L: seq<nat>, top: nat,
                             q: nat, h: nat, pos: seq<int>, next1: seq<seq<int>>,
                             order': seq<nat>, L': seq<nat>) {
    && Tower(next, order, L, top)
    && q <= |L| && h <= top && |pos| > h
    && (forall j :: 0 <= j <= h ==> LastBefore(L, pos[j], j, q))
    && SplicedIn(next, order, pos, h, next1)
    && IsInserted(order, q, |next|, order')
    && IsInserted(L, q, h, L')
  }

  /** A link the splicing did not touch still leads where it did. */
  lemma InsertUntouched(next: seq<seq<int>>, order: seq<nat>, L: seq<nat>, top: nat,
                        h: nat, pos: seq<int>, next1: seq<seq<int>>, p: int, i: nat)
    requires Tower(next, order, L, top)
    requires SplicedIn(next, order, pos, h, next1)
    requires -1 <= p < |L| && i <= HeightAt(L, p, top)
    requires !(i <= h && p == pos[i])
    ensures next1[NodeAt(order, p)][i] == LinkTarget(order, L, p, i)
  {
    var x := NodeAt(order, p);
    assert 0 <= x < |next| && i < |next[x]|;
    assert !(i <= h && x == NodeAt(order, pos[i]));
    assert next1[x][i] == next[x][i];
  }

  /** After insertion, links leaving positions before `q`. */
  lemma InsertLinkBefore(next: seq<seq<int>>, order: seq<nat>, L: seq<nat>, top: nat,
                         q: nat, h: nat, pos: seq<int>, next1: seq<seq<int>>,
                         order': seq<nat>, L': seq<nat>, p: int, i: nat)
    requires InsertStep(next, order, L, top, q, h, pos, next1, order', L')
    requires -1 <= p < q && i <= HeightAt(L, p, top)
    ensures next1[NodeAt(order', p)][i] == LinkTarget(order', L', p, i)
  {
    var x := NodeAt(order, p);
    assert NodeAt(order', p) == x;
    var r := NextPos(L, p, i);
    NextPosInsertBefore(L, L', q, h, p, i);
    if i <= h && p == pos[i] {
      assert NextPos(L', p, i) == q;
      assert next1[x][i] == |next|;
    } else {
      InsertUntouched(next, order, L, top, h, pos, next1, p, i);
      if i <= h {
        LastBeforeUnique(L, pos[i], p, i, q);
      } else if r >= q && r < |L| {
        assert order'[r + 1] == order[r];
      }
    }
  }

  /** After insertion, the links of the new node. */
  lemma InsertLinkNew(next: seq<seq<int>>, order: seq<nat>, L: seq<nat>, top: nat,
                      q: nat, h: nat, pos: seq<int>, next1: seq<seq<int>>,
                      order': seq<nat>, L': seq<nat>, i: nat)
    requires InsertStep(next, order, L, top, q, h, pos, next1, order', L')
    requires i <= h
    ensures next1[|next|][i] == LinkTarget(order', L', q, i)
  {
    var y := NodeAt(order, pos[i]);
    assert SplicedIn(next, order, pos, h, next1);
    assert next1[|next|][i] == next[y][i] == LinkTarget(order, L, pos[i], i);
    var r := NextPos(L, pos[i], i);
    forall m | q < m < r + 1 ensures L'[m] < i {
      assert L'[m] == L[m - 1];
    }
    NextPosIs(L', q, i, r + 1);
    assert r < |L| ==> order'[r + 1] == order[r];
  }

  /** After insertion, links leaving positions after the new node. */
  lemma InsertLinkAfter(next: seq<seq<int>>, order: seq<nat>, L: seq<nat>, top: nat,
                        q: nat, h: nat, pos: seq<int>, next1: seq<seq<int>>,
                        order': seq<nat>, L': seq<nat>, p: int, i: nat)
    requires InsertStep(next, order, L, top, q, h, pos, next1, order', L')
    requires q <= p < |L| && i <= L[p]
    ensures next1[order[p]][i] == LinkTarget(order', L', p + 1, i)
  {
    var x := order[p];
    assert SplicedIn(next, order, pos, h, next1);
    forall j | 0 <= j <= h ensures x != NodeAt(order, pos[j]) {
      if pos[j] >= 0 { assert order[pos[j]] != order[p]; }
    }
    assert 0 <= x < |next| && i < |next[x]|;
    assert !(i <= h && x == NodeAt(order, pos[i]));
    assert next1[x][i] == next[x][i];
    assert NodeAt(order, p) == x;
    assert next[x][i] == LinkTarget(order, L, p, i);
    NextPosInsertFrom(L, L', q, h, p, i);
    var r := NextPos(L, p, i);
    assert r < |L| ==> order'[r + 1] == order[r];
  }

  /** Adding a fresh arena entry of level `h` at position `q` of the order
      keeps the arena well formed. */
  lemma InsertArena(next: seq<seq<int>>, order: seq<nat>, L: seq<nat>, top: nat,
                    q: nat, h: nat, next1: seq<seq<int>>, order': seq<nat>, L': seq<nat>)
    requires Arena(next, order, L, top)
    requires IsInserted(order, q, |next|, order') && IsInserted(L, q, h, L') && h <= top
    requires |next1| == |next| + 1 && |next1[|next|]| == h + 1
    requires forall x :: 0 <= x < |next| ==> |next1[x]| == |next[x]|
    ensures Arena(next1, order', L', top)
  {
    var n := |next|;
    forall k | 0 <= k < |order'|
      ensures 0 < order'[k] < |next1| && |next1[order'[k]]| == L'[k] + 1 && L'[k] <= top
    {
      if k > q { assert order'[k] == order[k - 1] && L'[k] == L[k - 1]; }
    }
    forall j, k | 0 <= j < k < |order'| ensures order'[j] != order'[k] {
      if j < q && k > q { assert order[j] != order[k - 1]; }
      else if j > q { assert order[j - 1] != order[k - 1]; }
    }
  }

  /** Proof step of InsertPreservesTower, over the new order and levels
      described position by position. */
  lemma InsertTower(next: seq<seq<int>>, order: seq<nat>, L: seq<nat>, top: nat,
                    q: nat, h: nat, pos: seq<int>, next1: seq<seq<int>>, order': seq<nat>, L': seq<nat>)
    requires InsertStep(next, order, L, top, q, h, pos, next1, order', L')
    ensures Tower(next1, order', L', top)
  {
    assert SplicedIn(next, order, pos, h, next1);
    InsertArena(next, order, L, top, q, h, next1, order', L');
    forall p', i | -1 <= p' < |L'| && 0 <= i <= HeightAt(L', p', top)
      ensures next1[NodeAt(order', p')][i] == LinkTarget(order', L', p', i)
    {
      if p' < q {
        assert HeightAt(L', p', top) == HeightAt(L, p', top);
        InsertLinkBefore(next, order, L, top, q, h, pos, next1, order', L', p', i);
      } else if p' == q {
        InsertLinkNew(next, order, L, top, q, h, pos, next1, order', L', i);
      } else {
        assert L'[p'] == L[p' - 1] && order'[p'] == order[p' - 1];
        InsertLinkAfter(next, order, L, top, q, h, pos, next1, order', L', p' - 1, i);
      }
    }
  }

  /** Splicing a node of level `h` in at position `q`, after the predecessors
      a descent records, keeps the tower over the order and levels extended
      at `q`. */
  lemma InsertPreservesTower(next: seq<seq<int>>, order: seq<nat>, L: seq<nat>, top: nat,
                             q: nat, h: nat, pos: seq<int>, next1: seq<seq<int>>)
    requires Tower(next, order, L, top)
    requires q <= |L| && h <= top && |pos| > h
    requires forall j :: 0 <= j <= h ==> LastBefore(L, pos[j], j, q)
    requires SplicedIn(next, order, pos, h, next1)
    ensures Tower(next1, order[..q] + [|next|] + order[q..], L[..q] + [h] + L[q..], top)
  {
    InsertedSlices(order, q, |next|);
    InsertedSlices(L, q, h);
    InsertTower(next, order, L, top, q, h, pos, next1, order[..q] + [|next|] + order[q..], L[..q] + [h] + L[q..]);
  }

  // ---------------------------------------------------------------------------
  // Unlinking a node

  /** `next1` is `next` with the node at position `q` (of level `h`) unlinked:
      on each level `j <= h` its predecessor `NodeAt(order, pos[j])` takes
      over the node's own link. Nothing else changes. */
  ghost predicate SplicedOut(next: seq<seq<int>>, order: seq<nat>, pos: seq<int>, q: nat, h: nat, next1: seq<seq<int>>) {
    && q < |order|
    && |pos| > h
    && (forall j :: 0 <= j <= h ==> -1 <= pos[j] < |order|)
    && |next1| == |next|
    && (forall x :: 0 <= x < |next| ==> |next1[x]| == |next[x]|)
    && order[q] < |next| && h < |next[order[q]]|
    && (forall j :: 0 <= j <= h ==> 0 <= NodeAt(order, pos[j]) < |next| && j < |next[NodeAt(order, pos[j])]|)
    && (forall j :: 0 <= j <= h ==> next1[NodeAt(order, pos[j])][j] == next[order[q]][j])
    && (forall x, j {:trigger next1[x][j]} ::
          0 <= x < |next| && 0 <= j < |next[x]| && !(j <= h && x == NodeAt(order, pos[j])) ==>
          next1[x][j] == next[x][j])
  }

  /** Where level-`i` links lead once position `q` is dropped from `L`,
      for a position before `q`. */
  lemma NextPosDeleteBefore(L: seq<nat>, L': seq<nat>, q: nat, p: int, i: nat)
    requires IsDropped(L, q, L') && -1 <= p < q
    ensures var r := NextPos(L, p, i);
            NextPos(L', p, i) == if r < q then r else if r == q then NextPos(L, q, i) - 1 else r - 1
  {
    var r := NextPos(L, p, i);
    if r < q {
      NextPosIs(L', p, i, r);
    } else {
      var r' := if r == q then NextPos(L, q, i) else r;
      forall m | p < m < r' - 1 ensures L'[m] < i {
        if m >= q { assert L'[m] == L[m + 1]; }
      }
      NextPosIs(L', p, i, r' - 1);
    }
  }

  /** The same, for a position after `q`, which moves down by one. */
  lemma NextPosDeleteFrom(L: seq<nat>, L': seq<nat>, q: nat, p: int, i: nat)
    requires IsDropped(L, q, L') && q < p < |L|
    ensures NextPos(L', p - 1, i) == NextPos(L, p, i) - 1
  {
    var r := NextPos(L, p, i);
    forall m | p - 1 < m < r - 1 ensures L'[m] < i {
      assert L'[m] == L[m + 1];
    }
    assert r < |L| ==> L'[r - 1] == L[r];
    NextPosIs(L', p - 1, i, r - 1);
  }

  /** Dropping position `q` from the order keeps the arena well formed. */
  lemma DeleteArena(next: seq<seq<int>>, order: seq<nat>, L: seq<nat>, top: nat,
                    q: nat, next1: seq<seq<int>>, order': seq<nat>, L': seq<nat>)
    requires Arena(next, order, L, top)
    requires IsDropped(order, q, order') && IsDropped(L, q, L')
    requires |next1| == |next|
    requires forall x :: 0 <= x < |next| ==> |next1[x]| == |next[x]|
    ensures Arena(next1, order', L', top)
  {
    forall k | 0 <= k < |order'|
      ensures 0 < order'[k] < |next1| && |next1[order'[k]]| == L'[k] + 1 && L'[k] <= top
    {
      if k >= q { assert order'[k] == order[k + 1] && L'[k] == L[k + 1]; }
    }
    forall j, k | 0 <= j < k < |order'| ensures order'[j] != order'[k] {
      if j < q && k >= q { assert order[j] != order[k + 1]; }
      else if j >= q { assert order[j + 1] != order[k + 1]; }
    }
  }

  /** The facts shared by the parts of the deletion proof: `order'` and `L'`
      lack position `q`. */
  ghost predicate DeleteStep(next: seq<seq<int>>, order: seq<nat>, L: seq<nat>, top: nat,
                             q: nat, pos: seq<int>, next1: seq<seq<int>>, order': seq<nat>, L': seq<nat>) {
    && Tower(next, order, L, top)
    && q < |L| && |pos| > L[q]
    && (forall j :: 0 <= j <= L[q] ==> LastBefore(L, pos[j], j, q))
    && SplicedOut(next, order, pos, q, L[q], next1)
    && IsDropped(order, q, order')
    && IsDropped(L, q, L')
  }

  /** After deletion, the link of the level-`i` predecessor of the deleted
      node, which now bypasses it. */
  lemma DeleteLinkBypass(next: seq<seq<int>>, order: seq<nat>, L: seq<nat>, top: nat,
                         q: nat, pos: seq<int>, next1: seq<seq<int>>, order': seq<nat>, L': seq<nat>, i: nat)
    requires DeleteStep(next, order, L, top, q, pos, next1, order', L')
    requires i <= L[q]
    ensures next1[NodeAt(order', pos[i])][i] == LinkTarget(order', L', pos[i], i)
  {
    var p := pos[i];
    var x := NodeAt(order, p);
    assert NodeAt(order', p) == x;
    assert SplicedOut(next, order, pos, q, L[q], next1);
    assert next1[x][i] == next[order[q]][i];
    assert NodeAt(order, q) == order[q];
    assert next[order[q]][i] == LinkTarget(order, L, q, i);
    assert NextPos(L, p, i) == q;
    NextPosDeleteBefore(L, L', q, p, i);
    var r := NextPos(L, q, i);
    assert r < |L| ==> order'[r - 1] == order[r];
  }

  /** A link the unlinking did not touch still leads where it did. */
  lemma DeleteUntouched(next: seq<seq<int>>, order: seq<nat>, L: seq<nat>, top: nat,
                        q: nat, pos: seq<int>, next1: seq<seq<int>>, p: int, i: nat)
    requires Tower(next, order, L, top) && q < |L|
    requires SplicedOut(next, order, pos, q, L[q], next1)
    requires -1 <= p < q && i <= HeightAt(L, p, top)
    requires !(i <= L[q] && p == pos[i])
    ensures next1[NodeAt(order, p)][i] == LinkTarget(order, L, p, i)
  {
    var x := NodeAt(order, p);
    assert 0 <= x < |next| && i < |next[x]|;
    assert !(i <= L[q] && x == NodeAt(order, pos[i]));
    assert next1[x][i] == next[x][i];
  }

  /** After deletion, every other link leaving a position before `q`. */
  lemma DeleteLinkBefore(next: seq<seq<int>>, order: seq<nat>, L: seq<nat>, top: nat,
                         q: nat, pos: seq<int>, next1: seq<seq<int>>, order': seq<nat>, L': seq<nat>,
                         p: int, i: nat)
    requires DeleteStep(next, order, L, top, q, pos, next1, order', L')
    requires -1 <= p < q && i <= HeightAt(L, p, top)
    requires !(i <= L[q] && p == pos[i])
    ensures next1[NodeAt(order', p)][i] == LinkTarget(order', L', p, i)
  {
    DeleteUntouched(next, order, L, top, q, pos, next1, p, i);
    assert NodeAt(order', p) == NodeAt(order, p);
    var r := NextPos(L, p, i);
    NextPosDeleteBefore(L, L', q, p, i);
    if i <= L[q] {
      LastBeforeUnique(L, pos[i], p, i, q);
    } else if r > q && r < |L| {
      assert order'[r - 1] == order[r];
    }
  }

  /** After deletion, links leaving positions after `q`. */
  lemma DeleteLinkAfter(next: seq<seq<int>>, order: seq<nat>, L: seq<nat>, top: nat,
                        q: nat, pos: seq<int>, next1: seq<seq<int>>, order': seq<nat>, L': seq<nat>,
                        p: int, i: nat)
    requires DeleteStep(next, order, L, top, q, pos, next1, order', L')
    requires q < p < |L| && i <= L[p]
    ensures next1[order[p]][i] == LinkTarget(order', L', p - 1, i)
  {
    var x := order[p];
    assert SplicedOut(next, order, pos, q, L[q], next1);
    forall j | 0 <= j <= L[q] ensures x != NodeAt(order, pos[j]) {
      if pos[j] >= 0 { assert order[pos[j]] != order[p]; }
    }
    assert 0 <= x < |next| && i < |next[x]|;
    assert !(i <= L[q] && x == NodeAt(order, pos[i]));
    assert next1[x][i] == next[x][i];
    assert NodeAt(order, p) == x;
    assert next[x][i] == LinkTarget(order, L, p, i);
    NextPosDeleteFrom(L, L', q, p, i);
    var r := NextPos(L, p, i);
    assert r < |L| ==> order'[r - 1] == order[r];
  }

  /** Proof step of DeletePreservesTower, over the new order and levels
      described position by position. */
  lemma DeleteTower(next: seq<seq<int>>, order: seq<nat>, L: seq<nat>, top: nat,
                    q: nat, pos: seq<int>, next1: seq<seq<int>>, order': seq<nat>, L': seq<nat>)
    requires DeleteStep(next, order, L, top, q, pos, next1, order', L')
    ensures Tower(next1, order', L', top)
  {
    assert SplicedOut(next, order, pos, q, L[q], next1);
    DeleteArena(next, order, L, top, q, next1, order', L');
    forall p', i | -1 <= p' < |L'| && 0 <= i <= HeightAt(L', p', top)
      ensures next1[NodeAt(order', p')][i] == LinkTarget(order', L', p', i)
    {
      if p' < q {
        assert HeightAt(L', p', top) == HeightAt(L, p', top);
        if i <= L[q] && p' == pos[i] {
          DeleteLinkBypass(next, order, L, top, q, pos, next1, order', L', i);
        } else {
          DeleteLinkBefore(next, order, L, top, q, pos, next1, order', L', p', i);
        }
      } else {
        assert L'[p'] == L[p' + 1] && order'[p'] == order[p' + 1];
        DeleteLinkAfter(next, order, L, top, q, pos, next1, order', L', p' + 1, i);
      }
    }
  }

  /** Unlinking the node at position `q` from the predecessors a descent
      records keeps the tower over the order and levels shortened at `q`. */
  lemma DeletePreservesTower(next: seq<seq<int>>, order: seq<nat>, L: seq<nat>, top: nat,
                             q: nat, pos: seq<int>, next1: seq<seq<int>>)
    requires Tower(next, order, L, top)
    requires q < |L| && |pos| > L[q]
    requires forall j :: 0 <= j <= L[q] ==> LastBefore(L, pos[j], j, q)
    requires SplicedOut(next, order, pos, q, L[q], next1)
    ensures Tower(next1, order[..q] + order[q + 1..], L[..q] + L[q + 1..], top)
  {
    DroppedSlices(order, q);
    DroppedSlices(L, q);
    DeleteTower(next, order, L, top, q, pos, next1, order[..q] + order[q + 1..], L[..q] + L[q + 1..]);
  }
}
