# String skip map, modelled in Dafny

This project models `StringMap`, the skip-list map keyed by strings in
`collection/skipmap/skipmap_str.go`, run by a single goroutine. It covers:

- the node order (`cmp`);
- the two searches (`findNode`, `findNodeDelete`);
- the lock loops and `unlockString`;
- insertion (`Store`);
- two-phase deletion (`LoadAndDelete`, `Delete`);
- `Load`, `LoadOrStore`, `Range`, `Len` and the constructor `NewString`.

## How the model is built

- **Nodes.** All nodes live in a table `nodes: seq<Node<V>>`. Entry 0 is the header. A link (`*stringNode`) is `Ref`, either `Nil` or `Ptr(index)`. A node holds its key, score, value, `next` links and the two flags `fullyLinked` and `marked`.
- **Levels.** The ghost field `levels` lists, for each of the `MaxLevel` levels, the nodes linked there in order. The header is not listed.
- **Well-formedness.** `Levels.WellFormed` ties the levels to the `next` links and states the skip-list invariants:
  - every level is strictly ascending in `(hash(key), key)`;
  - a node is on level `i` exactly when it is on level 0 and `i < len(next)`, so each level is a sub-list of the one below;
  - the header spans every level;
  - every listed node is fully linked, and a node is marked exactly when it is no longer on level 0.
- **Class state.** `StringMap.Valid()` adds two facts: `length` counts the nodes of level 0, and no mutex is held between operations.
- **Contents.** `StringMap.Contents()` is the key/value map those nodes hold. Every operation is specified against it.
- **Mutexes.** The per-node mutexes are a ghost set `locked`. `Lock` demands that the mutex is free, since Go mutexes do not nest. `Unlock` demands that it is held.
- **Single thread.** With one goroutine, every check made under the locks passes. The retry branches therefore cannot be taken. Each one is kept as a branch whose unreachability is proved (`assert false`): a marked node met again in `Store`, and a failed validation.

Behaviour of the source that the model reproduces:

- **Search bounds.** Both searches leave `pred < key <= succ` at each level they fill, where `<` is the `(score, key)` order. The doc comments above `findNode` (line 92) and `findNodeDelete` (line 115) state the inequalities the other way round. The model follows the code.
- **`Store` stores twice on insertion.** After linking a new node, `Store` has no `return` (lines 196–199), so its loop runs again. The second pass finds the new node and stores the value into it a second time. `StringMap.Store` keeps that loop, and `StorePass` is one pass of it.
- **`LoadOrStore` returns nil after storing.** When `LoadOrStore` stores, it returns `nil, false`, not the value it stored (line 297). Its doc comment (lines 290–291) says it returns the given value. The model follows the code.
- **`Delete` duplicates `LoadAndDelete`.** `Delete` (lines 303–363) repeats the body of `LoadAndDelete` without its results. It is modelled as a call to `LoadAndDelete` that drops them.
- **Arrays passed by value.** `preds` and `succs` are Go value arrays, and `unlockString` takes a copy of them. The searches return them as sequences. Go's `var preds, succs [maxLevel]*stringNode` (line 150) start out nil and keep their entries from one pass of `Store`'s loop to the next. The model's searches return fresh sequences instead, holding the header and `Nil` at the levels below the one where `findNode` stops. Neither program reads those entries.
- **`Range`'s callback.** `Range` hands `f` the pairs in level-0 order. The model returns the sequence of pairs it handed over, so the callback's effects can be stated.

## Model

| member | source | states |
|---|---|---|
| Order.CompareStrings | collection/skipmap/skipmap_str.go:67 | `cmpstring`: a three-way answer in {-1, 0, 1}; the empty string sorts before any non-empty one |
| Order.CompareStringsZero | collection/skipmap/skipmap_str.go:67 | the string comparison answers 0 exactly for equal strings |
| Order.CompareStringsTrans | collection/skipmap/skipmap_str.go:67 | "sorts before" on strings is transitive |
| Order.Cmp | collection/skipmap/skipmap_str.go:63-70 | a larger score answers 1, a smaller one -1, and 0 exactly for the same (score, key) |
| Order.CmpMeaning | collection/skipmap/skipmap_str.go:63-70 | a negative, zero or positive answer means below, equal or above in the `(score, key)` order |
| Order.LessTotal | collection/skipmap/skipmap_str.go:63-70 | any two positions are ordered one way, or they are equal: the order is total |
| Order.LessTrans | collection/skipmap/skipmap_str.go:63-70 | the `(score, key)` order is transitive |
| Order.LessAsymmetric | collection/skipmap/skipmap_str.go:63-70 | the order is asymmetric, so a position below another is never equal to it |
| Nodes.Node.Cmp | collection/skipmap/skipmap_str.go:63-70 | `stringNode.cmp`: negative iff the node is below the target, zero iff score and key both match, positive iff it is above |
| Nodes.NewNode | collection/skipmap/skipmap_str.go:44-52 | `newStringNode`: key, value and score `hash(key)`, `level` nil links, neither flag set |
| Nodes.Node.Visible | collection/skipmap/skipmap_str.go:217 | `flags.MGet(fullyLinked\|marked, fullyLinked)`: true iff, of the two flag bits, `fullyLinked` is set and `marked` is clear |
| SkipMap.StringMap.constructor | collection/skipmap/skipmap_str.go:83-89 | `NewString`: a valid, empty map with counter 0; the header is fully linked and spans every level |
| SkipMap.StringMap.SearchLevel | collection/skipmap/skipmap_str.go:98-104 | one level of search stops at `pred < key <= succ` on that level, and never moves back past its start node |
| Search.DescentStep | collection/skipmap/skipmap_str.go:97-110 | one level extends the filled levels; meeting the key there means it is the node's top level, and the node is visible and holds the map's value for the key |
| Search.FirstMatchIsTop | collection/skipmap/skipmap_str.go:107-109 | the first (highest) level whose successor holds the key is that node's top level, and the key is in the map |
| Search.MissAbsent | collection/skipmap/skipmap_str.go:111 | if no level's successor holds the key, the key is not in the map |
| SkipMap.StringMap.FindNode | collection/skipmap/skipmap_str.go:94-112 | returns nil iff the key is absent, and then fills every level with `pred < key <= succ`; otherwise returns the linked node holding the key, found at its top level, with that level and those above filled |
| Search.SweepStep | collection/skipmap/skipmap_str.go:120-133 | one level of `findNodeDelete` keeps `lFound` the highest level whose successor holds the key so far, and that level is the node's top level |
| Search.SweepEnd | collection/skipmap/skipmap_str.go:134 | after the full descent, `lFound` is -1 exactly when the key is absent |
| SkipMap.StringMap.FindNodeDelete | collection/skipmap/skipmap_str.go:116-135 | fills every level with `pred < key <= succ`; `lFound` is -1 iff the key is absent, and otherwise the top level of the linked node holding it, which is `succs[lFound]` |
| SkipMap.HeldGrow | collection/skipmap/skipmap_str.go:172-179 | each new level adds its predecessor to the locked set; when it differs from the level below, it was not already locked |
| SkipMap.HeldRun | collection/skipmap/skipmap_str.go:172-185 | levels that repeat a predecessor lock nothing more, so the levels up to `highestLocked` lock the same set as all of them |
| Splice.PredsContiguous | collection/skipmap/skipmap_str.go:175-179 | the predecessors a search collects never interleave, so comparing with the previous one avoids locking a mutex twice |
| SkipMap.StringMap.UnlockString | collection/skipmap/skipmap_str.go:137-145 | releases exactly the distinct predecessors of levels `0..highestLevel`, each once |
| SkipMap.StringMap.Lock | collection/skipmap/skipmap_str.go:176 | `mu.Lock`: needs the mutex free and adds it to the held set, nothing else |
| SkipMap.StringMap.Unlock | collection/skipmap/skipmap_str.go:141 | `mu.Unlock`: needs the mutex held and takes it out of the held set, nothing else |
| SkipMap.StringMap.LockForInsert | collection/skipmap/skipmap_str.go:172-185 | takes exactly the mutexes of the distinct predecessors below the new height, and validation passes |
| Splice.InsertValid | collection/skipmap/skipmap_str.go:184 | after a missed search, each level's predecessor is unmarked and links to the successor, which is unmarked too |
| SkipMap.StringMap.StoreVal | collection/skipmap/skipmap_str.go:54-56 | `storeVal` on a linked node changes only its value, and the map now sends its key to the new value |
| Splice.UpdateWellFormed | collection/skipmap/skipmap_str.go:158 | replacing the value of a linked node keeps the list well formed and updates only that key |
| SkipMap.StringMap.LinkNew | collection/skipmap/skipmap_str.go:192-195 | at each level below the height, bottom up, splices the new node between `preds[layer]` and `succs[layer]`, changing only links |
| Splice.SetNext | collection/skipmap/skipmap_str.go:77-80 | `storeNext`: node `id` links to the given node at level `i`; its other links, key, score, value and flags, and every other node, are unchanged |
| Splice.GrowStep | collection/skipmap/skipmap_str.go:193-194 | one pass of the linking loop puts the new node into one more level and keeps every level linked as listed |
| Levels.LinkInsert | collection/skipmap/skipmap_str.go:193-194 | pointing the new node at the successor and then the predecessor at the new node inserts it into that level's list |
| Levels.SortedInsert | collection/skipmap/skipmap_str.go:192-195 | a node placed between a predecessor below it and a successor above it keeps the level strictly sorted |
| Levels.MapOfInsert | collection/skipmap/skipmap_str.go:191-195 | splicing in a node with a new key adds exactly that key and value to the level's map |
| Splice.InsertWellFormed | collection/skipmap/skipmap_str.go:191-196 | linking a fresh, fully linked node with an absent key below its height keeps every invariant, adds exactly its entry, and lengthens level 0 by one |
| SkipMap.StringMap.SpliceNew | collection/skipmap/skipmap_str.go:172-195 | locks the predecessors, appends a node of height `level` and links it into those levels, changing nothing else |
| SkipMap.StringMap.InsertNode | collection/skipmap/skipmap_str.go:166-198 | after a missed search: the map gains exactly `key := value`, the counter goes up by one, every lock is released, and the list stays valid |
| SkipMap.StringMap.StorePass | collection/skipmap/skipmap_str.go:152-198 | one pass of the loop: the map becomes `old[key := value]`; the pass finishes iff the key was present, and the counter grows only when it was not |
| SkipMap.StringMap.Store | collection/skipmap/skipmap_str.go:148-200 | the map becomes `old[key := value]`, and the counter grows by one iff the key was absent |
| SkipMap.StringMap.LockForDelete | collection/skipmap/skipmap_str.go:258-271 | with the victim locked, takes exactly the mutexes of the distinct predecessors of levels `0..topLayer`, and validation passes |
| Splice.DeleteValid | collection/skipmap/skipmap_str.go:270 | below the victim's height, the search found it as the successor, directly after a different, unmarked predecessor that links to it |
| SkipMap.StringMap.Unlink | collection/skipmap/skipmap_str.go:276-280 | from the top level down, points each predecessor at the victim's successor, removing it from those levels and changing only links |
| Levels.LinkRemove | collection/skipmap/skipmap_str.go:279 | pointing the predecessor past the node after it removes that node from the level's list |
| Levels.SortedRemove | collection/skipmap/skipmap_str.go:276-280 | removing a node keeps a level strictly sorted |
| Levels.MapOfRemove | collection/skipmap/skipmap_str.go:276-280 | splicing out a node drops exactly its key from the level's map |
| Splice.RemoveWellFormed | collection/skipmap/skipmap_str.go:249-280 | marking the node holding the key and unlinking it at every level of its height keeps every invariant, drops exactly its key, and shortens level 0 by one |
| SkipMap.StringMap.DeleteNode | collection/skipmap/skipmap_str.go:239-284 | the map loses exactly the key, the returned value is the one it held, the counter drops by one, and every lock, the victim's included, is released |
| SkipMap.StringMap.LoadAndDelete | collection/skipmap/skipmap_str.go:228-288 | `loaded` iff the key was present; the value returned is the one it held, or nil; the map becomes `old - {key}`, and the counter drops only when the key was present |
| SkipMap.StringMap.Delete | collection/skipmap/skipmap_str.go:303-363 | the map becomes `old - {key}`, and the counter drops by one iff the key was present |
| SkipMap.StringMap.Load | collection/skipmap/skipmap_str.go:205-224 | `ok` iff the key is present, and then the value held for it; otherwise nil |
| SkipMap.StringMap.LoadOrStore | collection/skipmap/skipmap_str.go:293-300 | a present key returns its value, `loaded`, and changes nothing; an absent key is stored, and the call returns nil (not the value) with `loaded` false |
| Walk.RangeCalls | collection/skipmap/skipmap_str.go:372-384 | the pairs handed to `f` are a prefix of the listing; `f` accepted all but the last, and a stop before the end means `f` rejected the last one |
| Walk.RangeCallsStop | collection/skipmap/skipmap_str.go:379-381 | the walk stops right after the first pair `f` rejects |
| Walk.RangeCallsAll | collection/skipmap/skipmap_str.go:374-383 | if `f` accepts every pair, the walk hands over the whole listing |
| SkipMap.StringMap.WalkLevel0 | collection/skipmap/skipmap_str.go:373-383 | walking `next[0]` from the header hands `f` the level-0 pairs in order until `f` answers false |
| SkipMap.StringMap.Range | collection/skipmap/skipmap_str.go:372-384 | the pairs handed to `f` are the level-0 listing, up to and including the first one `f` rejects |
| Walk.ItemsAscending | collection/skipmap/skipmap_str.go:365-369 | `Range`'s listing is strictly ascending in `(hash(key), key)`, so no key is visited twice |
| Walk.ItemsAreEntries | collection/skipmap/skipmap_str.go:365-366 | the listing holds exactly the map's entries, each key once, with its value |
| Search.EntriesSize | collection/skipmap/skipmap_str.go:389-391 | the map has as many entries as level 0 has nodes |
| SkipMap.StringMap.Len | collection/skipmap/skipmap_str.go:389-391 | the counter equals the number of entries in the map |
| Search.LevelFilter | collection/skipmap/skipmap_str.go:191-195 | every level is exactly the level-0 nodes taller than it, in level-0 order |
| Search.LevelSubList | collection/skipmap/skipmap_str.go:191-195 | level `i + 1` is the sub-list of level `i` formed by its nodes taller than `i + 1` |
| Levels.SortedDistinctKeys | collection/skipmap/skipmap_str.go:99 | a level sorted by `(hash(key), key)` holds no key twice |
| Levels.SortedUnique | collection/skipmap/skipmap_str.go:191-195 | two sorted levels with the same nodes are the same list |
| Search.EntryOf | collection/skipmap/skipmap_str.go:217 | a node linked at level 0 is fully linked and unmarked, and the map sends its key to its value |

## Left out

- **Concurrency.** Goroutines, `sync.Mutex` and the atomic loads and stores are not modelled. The model is single-threaded. Mutexes are a ghost set, and atomic accesses are plain reads and writes.
- **Retry paths.** The retry after meeting a marked node (line 163) and the unlock-and-retry after a failed validation (lines 186–189, 272–275) are shown unreachable rather than modelled. So is the early return when the node to delete is already marked (lines 243–247).
- **`Load`'s invisible-node branch.** The `nil, false` return for a matching node that is not visible (line 220) is shown unreachable.
- **`Range`'s skip of invisible nodes.** The skip (lines 375–377) is shown unreachable.
- **`wyhash.Sum64String`.** It is foreign code. The hash is a function `string -> Score`, with `Score` an unsigned 64-bit value, fixed when the map is built.
- **`cmpstring`.** It is not part of this model. It is taken as lexicographic comparison of character sequences, and characters stand for the string's bytes.
- **`randomLevel` and `maxLevel`.** They are not part of this model. The new node's height is a parameter of `Store` and `LoadOrStore` in `1..MaxLevel`. `MaxLevel` is 16, and the proofs rely only on it being at least 1.
- **`bitflag`.** It is not part of this model. The flags are two booleans on the node, and `Node.Flags` packs them into a word with `fullyLinked` as bit 1 and `marked` as bit 2; the values of the two constants are defined outside `skipmap_str.go`, so these bit positions are the model's own.
- **`unsafe` boxing.** The boxing of `interface{}` values (lines 54–60) is replaced by a generic value type `V`.
- **Node allocation.** A new node is appended to the node table. Memory reclamation of unlinked nodes is not modelled.
- **`length` as `int64`.** It is an unbounded integer. It cannot overflow in the model, because it equals the number of linked nodes.
- **`Range`'s callback.** `f` is a pure function. Side effects of the callback on the map are not modelled.
