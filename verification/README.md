# Skip list model

A Dafny model of the header-only skip list `SkipList<T, P>` in
`MSkipList.hpp`, an ordered key→value map built from towers of forward
links. Level 0 links every node in increasing key order. Each higher level
links a sparser subset of the nodes. A header sentinel starts every level.

The model is functional. A list is a value
`SkipList(maxLevel, curHeight, entries, count)`:

- `entries` are the live nodes in level-0 order as `Entry(key, value, height)`;
- `curHeight` stands for `cur_max_height_`;
- `count` stands for `count_`.

The forward links are not stored. `Towers.Link(s, p, lvl)` derives them: the
level-`lvl` link of a node leads to the next node whose tower reaches above
`lvl`. This is exactly how the source's `next_` arrays are wired while the
structure is intact. Keys are unique, so a node is named by its key
(`Ptr.Node(key)`). That keeps statements of the form "every other link is
unchanged" free of index shifts.

The class invariant is `SkipLists.Valid`:

- `maxLevel > 0`;
- `1 <= curHeight <= maxLevel`;
- level 0 is strictly sorted;
- every tower has height in `1..curHeight`;
- `count` equals the number of nodes.

The abstraction function `SkipLists.Model` maps a list to the `map<int, V>`
it represents.

Each operation is modelled as follows:

- `random_level` becomes `Sampling.RandomLevel`. It takes an oracle
  `draw: nat -> nat` for the successive values of the generator.
- The traversal of `find_node` becomes `SkipLists.Descend` and
  `SkipLists.FindNode`. They return the node reached and the predecessor
  cursor `pre_`.
- `search`, `contains` and `count` become `Search`, `Contains` and `Count`.
- `insert` becomes `Insert`. It either overwrites a value in place or splices
  in a new tower after the cursor, raising the height in use first.
- The top-down unlinking loop of `remove` becomes `Unlink` and
  `RemoveDescent`. `Remove` is the operation built on them.
- `clear` becomes `Drain` and `Clear`.

`Splicing` proves that the derived links change exactly as the source's
loops write them. `Levels` states the per-level shape. `Laws` states how a
lookup answers after each mutation. `Demo` replays the scenario of
`main.cpp` for every outcome of the sampler.

Where the documented contract of `remove` and the code differ, the model
follows the code for the unlinking. For the result and the counter it
follows the documented contract. The code's own behaviour is kept as
`Findings.RemoveAsWritten` and listed under Findings. The clear operation
follows the code: it keeps `cur_max_height_` and `max_level_`.

## Model

| member | source | states |
|---|---|---|
| Sampling.RandomLevel | MSkipList.hpp:66-74 | The height is at least 1 and at most `maxLevel`. Every draw before the last added level is even. Unless the cap was reached, the draw that stopped the loop is odd. |
| Sampling.Grow | MSkipList.hpp:69-72 | The sampling loop from a given height never lowers it and never passes the cap. It stops exactly at the first odd draw or at the cap. |
| SkipLists.New | MSkipList.hpp:124-135 | A list exists exactly when `max_level > 0`. It is valid, has height 1, count 0 and represents the empty map. |
| SkipLists.Descend | MSkipList.hpp:141-155 | The node the descent returns at level 0 is the lower bound of the key, as found by a reference linear scan of level 0. Cursor slots above the current level are left alone. |
| SkipLists.DescendCursor | MSkipList.hpp:144-153 | Every cursor slot the descent records at a level `i` precedes the key there. It is the header or a smaller key on that level, and its link is null or reaches a key not below the target. |
| SkipLists.DescendStop | MSkipList.hpp:146-150 | When the loop drops a level, the current node precedes the key at that level. At level 0 its successor is the lower bound. |
| SkipLists.NullCursor | MSkipList.hpp:140 | The cursor starts with one slot per level up to `max_level_`, and every slot is null. |
| SkipLists.FindNode | MSkipList.hpp:137-156 | `find_node` returns the first node whose key is not below the target, or null. `pre_[i]` precedes the key at each level in use. The slots above the height in use stay null, as the `memset` left them. |
| SkipLists.FindNodeLeast | MSkipList.hpp:137-156 | The returned node is the least stored key not below the target. It is null exactly when every stored key is smaller. |
| SkipLists.Search | MSkipList.hpp:233-242 | `search` succeeds exactly when the key is in the represented map and then yields its value. |
| SkipLists.Contains | MSkipList.hpp:158-166 | `contains` is true exactly when the key is in the represented map. |
| SkipLists.Count | MSkipList.hpp:168-172 | `count` is the size of the represented map. It is also the length of the level-0 chain reached from the header. |
| SkipLists.SlotAfterPredecessor | MSkipList.hpp:191-195 | The level-0 cursor node sits right before the key's lower bound, so linking after it keeps level 0 sorted. |
| SkipLists.RaiseCursor | MSkipList.hpp:185-188 | When the new tower is taller than the height in use, the slots of the newly used levels hold the header. Every other slot keeps the predecessor `find_node` recorded. |
| SkipLists.InsertNew | MSkipList.hpp:184-196 | Splicing a new tower after the cursor keeps the invariant. It places the node at the key's lower bound, raises the height to `max(old, height)` and increments the count. The map gains the key, the new tower has the sampled height, and every old node is unchanged. |
| SkipLists.Overwrite | MSkipList.hpp:177-182 | Overwriting a present key's value keeps the invariant. The map changes at that key only. The count, the height in use and the node's height stay, and every other node is unchanged. |
| SkipLists.Insert | MSkipList.hpp:174-197 | The represented map becomes the old one updated at the key. A present key keeps its count, height and tower. A new key gets a tower of the sampled height, the count rises by one, and the height in use becomes the max. Every other node is unchanged. |
| SkipLists.Unlink | MSkipList.hpp:203-227 | The unlinking loop finds the node exactly when the key is stored. Cut slots above the starting level are left alone. |
| SkipLists.UnlinkCut | MSkipList.hpp:211-226 | At each level, the loop redirects a predecessor exactly when the removed tower is on that level. That predecessor is the header or a node on that level, and its link led to the removed node. |
| SkipLists.UnlinkStep | MSkipList.hpp:211-224 | At the point where the loop stops moving right, a null link or a larger key means the key is not on this level. An equal key means the current node is its predecessor. |
| SkipLists.RemoveDescent | MSkipList.hpp:200-227 | Over all levels: the node is found exactly when the key is stored, and a level is cut exactly when the tower reaches it, at the node's level predecessor. |
| SkipLists.Remove | MSkipList.hpp:200-231 | This is the documented contract. A present key is unlinked, reported removed and counted out. An absent key is reported not removed and the list is unchanged. The map loses the key, the remaining nodes are unchanged and the invariant holds. |
| SkipLists.Unhook | MSkipList.hpp:216-229 | Unlinking the found node and counting it out keeps the invariant. The map loses exactly that key, the count drops by one, and every remaining node is unchanged. |
| SkipLists.Drain | MSkipList.hpp:56-62 | The loop of `clear` decrements the counter once per node on the level-0 chain. |
| SkipLists.Clear | MSkipList.hpp:54-63 | After `clear` the count is 0 and the map is empty. Every header link is null. `max_level_` and `cur_max_height_` are kept. |
| Edits.SetValueAtKey | MSkipList.hpp:177-182 | Overwriting a present key's value changes the map at that key only. It keeps every key, height and the order. |
| Edits.InsertAtLowerBound | MSkipList.hpp:190-196 | Splicing a new key in at its lower bound keeps level 0 sorted and adds exactly that key. Every other node is unchanged. |
| Edits.RemoveAtKey | MSkipList.hpp:216-229 | Unlinking a node keeps level 0 sorted and drops exactly its key. Every other node is unchanged. |
| Splicing.InsertNewLinks | MSkipList.hpp:191-195 | After a new-key insert, at each level below the new height, the cursor node links to the new node and the new node to the cursor node's old successor. Every other link stays, and the new node is on exactly the levels below its height. |
| Splicing.PredecessorUnique | MSkipList.hpp:191-195 | At a level, only one reference precedes a key, so the cursor names the only link the splice may change. |
| Splicing.RemoveLinks | MSkipList.hpp:216-220 | After removing a present key, the recorded predecessor at each cut level links to the removed node's old successor. Every other link of a surviving reference stays. |
| Splicing.RemoveLinkTarget | MSkipList.hpp:211-220 | Any reference whose link leads to the removed node is the predecessor the descent recorded at that level. |
| Towers.Link | MSkipList.hpp:100-104 | A forward link is null or leads to a node, never to the header. A node it reaches is stored and its tower reaches that level. |
| Towers.KeysCount | MSkipList.hpp:177-182 | A sorted level 0 holds no key twice (insert overwrites a present key instead of adding a second node), so the number of nodes is the number of keys. |
| Towers.ChainMembers | MSkipList.hpp:191-195 | Following the links of a level from a position meets exactly the later nodes whose towers reach that level. |
| Towers.ChainLink | MSkipList.hpp:100-104 | Along a level's chain each node's link is the next chain element, and the last one links to null. |
| Levels.LevelShape | MSkipList.hpp:184-196 | The header's link starts the level. Each level is strictly increasing, holds exactly the nodes whose towers reach it, and is empty at or above the height in use. |
| Levels.LevelsNested | MSkipList.hpp:191-195 | A key on level `lvl + 1` is also on level `lvl`. |
| Levels.LevelZeroCount | MSkipList.hpp:54-63 | Level 0 holds every stored key, and its length is the counter. |
| Laws.SearchAfterInsert | MSkipList.hpp:174-197 | After `insert`, `search` yields the written value. |
| Laws.SearchAfterInsertOther | MSkipList.hpp:174-197 | After `insert`, every other key answers `search` as before. |
| Laws.OverwriteKeepsKeys | MSkipList.hpp:177-182 | Overwriting a present key keeps the count and the set of keys. |
| Laws.ContainsAfterRemove | MSkipList.hpp:200-231 | After `remove`, the key is not contained. |
| Laws.SearchAfterRemoveOther | MSkipList.hpp:200-231 | After `remove`, every other key answers `search` as before. |
| Laws.RemoveUndoesInsert | MSkipList.hpp:174-231 | Removing a key that was just inserted as new restores the map and the count. |
| Laws.ContainsAfterClear | MSkipList.hpp:54-63 | After `clear`, nothing is contained and the count is 0. |
| Findings.DecrementSize | MSkipList.hpp:229 | `--count_` on a 64-bit `std::size_t` is the predecessor modulo 2^64. |
| Findings.RemoveAsWritten | MSkipList.hpp:200-231 | `remove` as written always reports success and decrements the counter modulo 2^64. Its unlinking matches the corrected version. |
| Findings.RemoveAsWrittenPresent | MSkipList.hpp:200-231 | On a present key, the as-written `remove` equals the corrected `Remove`. |
| Findings.RemoveAsWrittenAbsent | MSkipList.hpp:228-230 | On an absent key, the as-written `remove` reports success. Its counter then differs from the level-0 chain length and the invariant is broken. The corrected `Remove` reports failure and leaves the list unchanged. |
| Findings.RemoveFromEmptyWraps | MSkipList.hpp:228-230 | Removing any key from a fresh list wraps the counter to 2^64 - 1. |
| Findings.ClearAsWritten | MSkipList.hpp:54-63 | `clear` as written frees every node and zeroes the counter, but each header link still names the first node its level had. |
| Findings.ClearAsWrittenDangles | MSkipList.hpp:54-63 | After the as-written `clear` of a non-empty list, the header's level-0 link names a freed node. In the corrected `Clear` it is null. |
| Demo.Filled | main.cpp:7-12 | The three demonstration inserts into a default list yield a valid list representing exactly those three entries. |
| Demo.DemoLookups | main.cpp:14-21 | On that list the count is 3, and lookups of 12 and 98 yield the inserted strings. |
| Demo.DemoRemovals | main.cpp:22-26 | Removing 98 succeeds and leaves a count of 2 with 98 absent. A second removal of 98, which the demonstration does not perform, reports failure and keeps the count at 2. That second result is the corrected `Remove`'s: the source's `remove` as written would report success and leave the count at 1. |
| Demo.DemoSecondRemovalAsWritten | MSkipList.hpp:228-230 | A second removal of 98 with the source's `remove` as written reports success and leaves the counter at 1, while the list still holds two entries. |
| Demo.DemoScenario | main.cpp:10-26 | The whole scenario holds whatever heights the sampler draws. On the demonstration's one removal, of a present key, the source's `remove` as written gives the same result as the corrected `Remove`. |

## Left out

- The atomics and memory orderings of the link accessors (`get`, `set`, `get_no_bar`, `set_no_bar`) and the atomic `cur_max_height_` are not modelled. Links are plain values and the model is sequential.
- The random generator (`std::random_device`, `std::mt19937`, `uniform_int_distribution`) is left out. It is replaced by the oracle `draw`, and the geometric distribution of heights is not stated.
- Allocation and freeing (`new`, `delete`, `delete[]`, `alloc`, `release`) and the destructor are left out. A freed node simply leaves `entries`. The unused `SkipNode::level_` field is not modelled.
- `pre_` is a result of the traversal, not a field of the list, because no operation reads it across calls.
- Keys are `int`, as in both callers. The generic key type and its `operator<` are not modelled.
- `main.cpp` console output and the heap-allocated second list are left out. Only the scenario is kept.
- `stress.cpp`, the threaded benchmark, is not part of this model.
- Sampling.RandomLevel: the oracle may return any natural number, a superset of the generator's range `0..INT_MAX`. The draws of different inserts are separate oracles, not one shared stream.
- SkipLists.Remove: it states the documented result and counter instead of the code's. The code's behaviour is `Findings.RemoveAsWritten`.
- SkipLists.Clear: it states that the header links are null afterwards, which the code does not do. The code's behaviour is `Findings.ClearAsWritten`.
- SkipLists.Valid: the counter is an unbounded natural number, so the 64-bit wrap of `count_` appears only in `Findings`.

## Findings

| source | as written | input that shows it | evidently intended | confidence | as-written member | corrected member |
|---|---|---|---|---|---|---|
| MSkipList.hpp:228-230 | `remove` runs `--count_` and returns true even when the key is absent | any list and an absent key; from a fresh list, `remove(5)` leaves `count()` at 2^64 - 1 | return false and leave `count_` unchanged when no node was found, as the declaration's comment at MSkipList.hpp:15 says | high; not executed | Findings.RemoveAsWritten (Findings.RemoveAsWrittenAbsent, Findings.RemoveFromEmptyWraps) | SkipLists.Remove |
| MSkipList.hpp:54-63 | `clear` frees every node but never nulls the header's forward links | a list holding key 1; after `clear()` the header's level-0 link still names the freed node, so a later `insert` or `search` would follow a dangling pointer | reset every header link to null, so the cleared list is empty and usable | high; not executed | Findings.ClearAsWritten (Findings.ClearAsWrittenDangles) | SkipLists.Clear |
