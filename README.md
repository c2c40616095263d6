# Skip-list leaderboard, modelled in Dafny

`multiplayer_game.cpp` keeps a game's scores in a probabilistic skip list.
The skip list is an ordered multiset of `int`: equal scores may repeat.
A `head` sentinel of value `INT_MIN` has `maxLevel + 1` links. Every other
node has a random level `k` and is linked on levels `0..k`.

- `insert` descends from the current top `level` and records in `update[i]`
  the last node on level `i` whose successor is not below the value.
  It draws a level, raises `level` if needed and splices the new node in
  after each `update[i]`.
- `remove` makes the same descent. If the level-0 successor holds the value,
  it unlinks that node bottom-up and then lowers `level` past the empty
  levels.
- `search` makes the same descent without recording anything.

The same class keeps a player map, `players` (player id to score). The
leaderboard operations keep that map in step with the skip list: they are
`joinGame`, `leaveGame`, `viewScore`, `updateScore` and `getTopPlayers`.

The model is imperative, like the source. Class `SkipList`
(`skiplist.dfy`) holds:

- the nodes in an arena: `value[x]` and `next[x]` for node id `x`;
- `Nil` (-1) for the null pointer and `Head` (0) for the sentinel;
- `level`, `maxLevel` and the player map.

Each method is proved against a ghost view with three parts:

- `Contents`: the values along level 0;
- `Levels`: each node's level;
- `order`: each node's arena id.

`Valid()` says four things:

- each link leads to the next node of at least that level;
- level 0 is sorted;
- `level` is the highest level in use;
- hence each level is a subsequence of the one below it.

`Consistent()` adds that `Contents` holds exactly one score per player.

Supporting modules:

- `Towers` (`towers.dfy`) states the link structure over plain sequences. It proves that splicing a node in or out keeps the structure.
- `SortedSeqs` (`sorted_seqs.dfy`) gives the effect on `Contents`: insert before the first value `>= v`, and remove the first `v`.
- `SeqEdits` (`seq_edits.dfy`) describes position-wise insertion and deletion.
- `Ranking` (`ranking.dfy`) holds the player/score bookkeeping and the descending sort used for the top players.

## Model

| member | source | states |
|---|---|---|
| SkipLists.SkipList.constructor | multiplayer_game.cpp:45-50 | The new list has level 0, no nodes and no players; it is valid and consistent. |
| SkipLists.SkipList.RandomLevel | multiplayer_game.cpp:37-42 | The level counts the leading successful coin flips and stops at `maxLevel`, so it lies in `[0, maxLevel]`. |
| SkipLists.SkipList.HeadLink | multiplayer_game.cpp:45-50 | Each head link on a level up to `maxLevel` points at the first node of that level, or is null. |
| SkipLists.SkipList.Advance | multiplayer_game.cpp:66-68 | The inner walk stops at the last node of level `i` before the first value `>= v`. |
| SkipLists.SkipList.Descend | multiplayer_game.cpp:62-70 | `update[i]` is the last node on level `i` before the first value `>= v`, for every level up to `level`. |
| SkipLists.SkipList.Raise | multiplayer_game.cpp:74-79 | On each level the new node adds above `level`, the recorded predecessor is the head. `level` becomes the new node's level when that is higher and is otherwise unchanged. |
| SkipLists.SkipList.Search | multiplayer_game.cpp:118-129 | Returns true exactly when `v` is in the list, and changes nothing. |
| SkipLists.SkipList.LinkNewNode | multiplayer_game.cpp:81-85 | The new node takes over `update[i]`'s link and `update[i]` points at it, on exactly the levels `0..h`; no other link changes. |
| SkipLists.SkipList.SpliceIn | multiplayer_game.cpp:81-85 | After the splice the list is valid. `v` sits in front of the first value `>= v` with level `h`, and every other node keeps its value and level. |
| SkipLists.SkipList.Insert | multiplayer_game.cpp:61-86 | The contents become the old ones with one `v` before the first value `>= v`. The new node's level is the drawn one, and `level` rises to it only when it is higher. |
| SkipLists.SkipList.Unlink | multiplayer_game.cpp:102-107 | The bottom-up loop replaces each predecessor's link to the node with the node's own link, on exactly the node's levels; nothing else changes. |
| SkipLists.SkipList.Shrink | multiplayer_game.cpp:109-111 | Lowering `level` while the head's link there is null leaves it at the highest level in use, or 0. |
| SkipLists.SkipList.SpliceOut | multiplayer_game.cpp:101-114 | The node at position `q` leaves every level and the contents. The list stays valid, `level` never rises and values are untouched. |
| SkipLists.SkipList.Remove | multiplayer_game.cpp:88-117 | Returns true exactly when `v` is present and then removes one `v`, the first in ascending order. Otherwise nothing changes at all. |
| SkipLists.SkipList.LevelIsHighestHeadLink | multiplayer_game.cpp:109-111 | In a valid list the head links to a node on level `level` (unless it is 0) and to nothing on any higher level. |
| SkipLists.SkipList.JoinGame | multiplayer_game.cpp:144-156 | A player already present changes nothing. Otherwise the player is mapped to the score and one copy of it is inserted. Consistency is kept. |
| SkipLists.SkipList.LeaveGame | multiplayer_game.cpp:158-169 | On success the player leaves the map and one copy of their score leaves the list. Otherwise nothing changes. When consistent, it succeeds exactly for present players and stays consistent. |
| SkipLists.SkipList.ViewScore | multiplayer_game.cpp:171-177 | Reports a score exactly for present players, and it is their mapped score. When consistent, that score is in the list. |
| SkipLists.SkipList.UpdateScore | multiplayer_game.cpp:191-200 | A missing player or a mismatched old score changes nothing. Otherwise the map holds the new score and the list loses one `oldScore` and gains one `newScore`. Consistency is kept. |
| SkipLists.SkipList.GetTopPlayers | multiplayer_game.cpp:179-189 | Gives `min(N, players)` entries (none for `N <= 0`), each a real player with their score. No player appears twice, scores do not increase, and no player left out outscores a listed one. |
| SkipLists.InsertLists | multiplayer_game.cpp:81 | A fresh arena node placed at position `q` lists its value there. |
| SkipLists.DeleteLists | multiplayer_game.cpp:101-107 | Dropping a position from the order drops its value from the listing. |
| SkipLists.InsertTopmost | multiplayer_game.cpp:74-79 | A new node of level `h` makes the top level `max(level, h)`. |
| SkipLists.DeleteShape | multiplayer_game.cpp:102-107 | Unlinking the node at `q` keeps the tower and sorted listing, minus that node. |
| SkipLists.PredecessorLinks | multiplayer_game.cpp:102-106 | Each recorded predecessor points at the node to remove exactly on the levels that node occupies, which is why the loop may stop at the first mismatch. |
| SkipLists.StepRight | multiplayer_game.cpp:66 | A link is null exactly when no later node is on its level; otherwise its target's value is below `v` exactly when it lies before the first value `>= v`. |
| SkipLists.LevelZero | multiplayer_game.cpp:99-101 | After the descent, the level-0 successor is the first node holding a value `>= v`, or null. |
| SkipLists.InsertGood | multiplayer_game.cpp:72-85 | Splicing a new node after the recorded predecessors keeps the list valid. The listing gains `v` in sorted place and the top level becomes `max(level, h)`. |
| Towers.NextPos | multiplayer_game.cpp:66-68 | The first later position on level `i`: every position skipped is below level `i`. |
| Towers.NextPosIs | multiplayer_game.cpp:66-68 | Those facts determine the next position uniquely. |
| Towers.LinkTarget | multiplayer_game.cpp:14 | A link is null exactly when no later node reaches its level. |
| Towers.LastBeforeUnique | multiplayer_game.cpp:69 | The predecessor a descent records on a level is unique. |
| Towers.InsertPreservesTower | multiplayer_game.cpp:81-85 | Splicing a node of level `h` in at position `q`, after the predecessors a descent records, keeps every link pointing at the next node of its level over the extended order and levels. |
| Towers.DeletePreservesTower | multiplayer_game.cpp:102-107 | Unlinking the node at position `q` from the predecessors a descent records keeps every link pointing at the next node of its level over the shortened order and levels. |
| SortedSeqs.LowerBound | multiplayer_game.cpp:65-70 | The length of the leading run of values below `v`; in a sorted list every later value is `>= v`, and `v` is present exactly when the value at that position equals `v`. |
| SortedSeqs.LowerBoundIs | multiplayer_game.cpp:65-70 | Any position with only smaller values before it and a value `>= v` at it is the lower bound. |
| SortedSeqs.InsertSorted | multiplayer_game.cpp:61-86 | Inserting adds exactly one `v` to the multiset and keeps the sequence sorted. |
| SortedSeqs.RemoveFirst | multiplayer_game.cpp:88-117 | Removing takes exactly one `v` out of the multiset (none if absent) and keeps the sequence sorted; by `RemoveFirstUnique` that determines the result. Which copy of `v` goes is not visible in the values: that the node removed is the first one is stated by `SkipList.Remove`, whose `Levels` lose exactly the position at the lower bound. |
| SortedSeqs.RemoveFirstAt | multiplayer_game.cpp:99-101 | When the lower bound holds `v`, that is the occurrence removed. |
| SortedSeqs.RemoveFirstAbsent | multiplayer_game.cpp:116 | When it does not, `v` is absent and nothing is removed. |
| SortedSeqs.SortedDropped | multiplayer_game.cpp:102-107 | Dropping a position keeps a sequence sorted. |
| SortedSeqs.RemoveInsertRoundTrip | multiplayer_game.cpp:61-117 | Inserting `v` and then removing `v` gives back exactly the original sequence. |
| SortedSeqs.SortedUnique | multiplayer_game.cpp:61-117 | Two sorted sequences with the same elements are equal. |
| SortedSeqs.InsertSortedUnique | multiplayer_game.cpp:61-86 | Any sorted sequence with the old elements plus one `v` is the result of insertion. |
| SortedSeqs.RemoveFirstUnique | multiplayer_game.cpp:88-117 | Any sorted sequence with the old elements minus one `v` is the result of removal. |
| Ranking.TalliesAdd | multiplayer_game.cpp:153-154 | Mapping a new player to `v` and adding one `v` keeps one score per player. |
| Ranking.TalliesRemove | multiplayer_game.cpp:165-166 | Erasing a player and one copy of their score keeps one score per player. |
| Ranking.TalliesUpdate | multiplayer_game.cpp:196-198 | Swapping one copy of the old score for the new one, as the map changes, keeps one score per player. |
| Ranking.TalliesHas | multiplayer_game.cpp:164-165 | A present player's score is in the list, so `remove` finds a node. |
| Ranking.Entries | multiplayer_game.cpp:180 | Copying the map gives one entry per player, each with its own score, in an unspecified order. |
| Ranking.InsertByScore | multiplayer_game.cpp:181-183 | Inserting an entry keeps the list ordered by descending score. |
| Ranking.InsertByScoreBag | multiplayer_game.cpp:181-183 | Insertion adds exactly that entry. |
| Ranking.InsertByScoreDistinct | multiplayer_game.cpp:181-183 | Inserting an entry for a new player keeps the players distinct. |
| Ranking.SortByScore | multiplayer_game.cpp:181-183 | Sorting orders the entries by descending score, with the same entries and the same length; that it is a permutation is `SortByScoreBag`. |
| Ranking.SortByScoreBag | multiplayer_game.cpp:181-183 | Sorting is a permutation. |
| Ranking.SortByScoreDistinct | multiplayer_game.cpp:181-183 | Sorting keeps the players distinct. |
| Ranking.PrefixLeads | multiplayer_game.cpp:186 | Every entry in a prefix of the sorted list scores at least as much as every entry after it. |
| Ranking.SortedPrefixLeads | multiplayer_game.cpp:180-188 | The first `k` sorted entries are distinct real players, best first, and nobody left out outscores them. |

## Left out

- Console I/O, the menu loop of `main` and `display` (lines 131-142, 203 onwards). `joinGame` reads its score from the console in the source; here the score is a parameter. `viewScore` and `getTopPlayers` return their answer instead of printing it. Each operation also returns whether it acted, where the source prints a message.
- `rand`, `srand(time(0))` and the `float p` comparison. Each coin flip `rand()/RAND_MAX < p` is an element of the `draws` parameter. The expected O(log n) cost is probabilistic and not stated.
- The destructor, `~Node` and `delete current`. Memory is not modelled: a removed node stays in the arena, unreachable.
- Pointers are arena indices. The `update` array is an `array<int>` of node ids, and the head is node 0.
- `std::sort` and `unordered_map` internals. Iteration order and the order among equal scores are left unspecified. The sort is modelled by an insertion sort; the contract promises only descending order and a permutation.
- 32-bit `int`: scores and player ids are unbounded integers. Scores are only compared and never computed with, so no overflow arises. `maxLevel` has type `nat`, which drops an error path of the source: for `maxLevel < -1` the constructor's `new Node*[maxLevel + 1]` throws `std::bad_array_new_length`, and for `maxLevel == -1` the head has no links, so every later `insert`, `remove` or `search` reads past them.
- SkipLists.SkipList.UpdateScore: writes the new score into the map before the remove and the insert rather than after them. `remove` and `insert` never read the map, so the final state is the same.
- SkipLists.SkipList.LeaveGame: succeeding exactly for present players is promised only when the list is consistent. Otherwise the source's `remove` may fail, leaving the player in place, and the model does the same.
