# Non-linear data structures: a verified model

This project models two C++ class templates of a small containers library:

- `TreeMap`, an ordered map;
- `HashMap`, an unordered map.

It proves their operations correct against abstract specifications.

- **`TreeMap`** is an unbalanced binary search tree with parent links.
  - A new key is inserted as a leaf.
  - Removal uses the textbook three cases, and a transplant helper moves a subtree into the removed node's place.
  - Iteration is in-order: `++` goes to the successor, `--` to the predecessor.
  - `end()` is the null node.
- **`HashMap`** is a fixed table of 1000 buckets.
  - Bucket `hash(key) % 1000` holds a doubly linked chain of entries.
  - `operator[]` appends a new key at the tail of its bucket's chain.
  - Iteration runs bucket by bucket and head to tail.
  - `operator==` compares entries in iteration order, so two maps with the same pairs can compare unequal.

## Files

- `Results.dfy`: `Result<T>`, either a value or `OutOfRange`, the `std::out_of_range` exception.
- `PairMaps.dfy`: the map a sequence of pairs denotes (later pairs win), and lemmas about it.
- **Tree map**
  - `BinaryTree.dfy`: the tree as a value (`Tree`, with each node's handle, key and value). It holds:
    - the search function `SubAt`;
    - the textbook `Inserted` and `Deleted`;
    - in-order `Items` and `Pairs`;
    - a zipper (`Frame`, `Plug`) for the walks of `++` and `--`;
    - the lemmas that these meet the map specification `Map`.
  - `TreeArena.dfy`: how an arena of nodes (key, value, left, right, parent; `NIL` = -1 for `nullptr`) lays out a `Tree` (`Wired`). It also has lemmas on how the relinkings of transplant and remove reshape the tree.
  - `TreeMap.dfy`: the `TreeMap` class.
    - Fields: the arena `nodes`, `root` and `nodeCounter`, and a ghost `tree`.
    - `Valid()` says that the arena lays out `tree`, that `tree` is a search tree with distinct nodes, and that `nodeCounter` is its size.
    - `Contents()` is the stored map and `Order()` the iteration order.
    - An iterator is a node handle.
- **Hash map**
  - `HashChains.dfy`: the bucket table as `seq<seq<(K, V)>>`, one chain per bucket, head first. It defines:
    - iteration order `Flatten` and the stored map `TableMap`;
    - the `Placed` invariant (every entry in its key's bucket, no key twice);
    - iterator positions: `Cursor` is `Node(bucket, pos)` or `End`;
    - the table updates `Appended`, `Unlinked` and `Assigned`, with their lemmas.
  - `HashMap.dfy`: the `HashMap` class.
    - Fields: a `hashtable` array of 1000 chains, `counter`, and the hash function and `mapped_type()` value as constants.
    - `Valid()` says the table is placed and `counter` counts its entries.
- **Findings**
  - `TreeFindings.dfy`: the source's `transplant` as written, with concrete inputs that show how it differs from the standard transplant.
  - `HashFindings.dfy`: the source's unlink as written, on a linked-node arena, with a concrete chain that it corrupts.

The tree map's keys are mathematical integers; the source's keys are any ordered type.
The hash map is generic in its key type. Its hash function is a parameter of the constructor, standing for `std::hash<K>`.
Each map's `mapped_type()` is a `blank` value chosen at construction.

## Model

| member | source | states |
|---|---|---|
| TreeMaps.TreeMap.constructor | src/TreeMap.h:66 | a new map is valid, empty, has no root and counts 0 |
| TreeMaps.TreeMap.FindNode | src/TreeMap.h:269-284 | the search returns NIL exactly when the key is absent; otherwise the node holding the key, whose value is the stored one |
| TreeMaps.TreeMap.Leftmost | src/TreeMap.h:391-392 | following left links from a subtree's top ends at its minimum node |
| TreeMaps.TreeMap.Rightmost | src/TreeMap.h:419-420 | following right links from a subtree's top ends at its maximum node |
| TreeMaps.TreeMap.FindMin | src/TreeMap.h:297-305 | NIL when the count is 0; otherwise the minimum node, the first in iteration order |
| TreeMaps.TreeMap.Insert | src/TreeMap.h:308-335 | a new key hangs as a leaf where its search ends: the tree becomes the textbook insertion, the map gains the pair and the count grows by one |
| TreeMaps.TreeMap.SearchParent | src/TreeMap.h:321-328 | the descent of `insert` ends at the node a search for the absent key last passes, the parent of the place where the key belongs |
| TreeArena.HangWired | src/TreeMap.h:329-333 | linking the new leaf on the search side of that parent and setting its parent link lays out exactly the tree with the key inserted |
| TreeMaps.TreeMap.Index | src/TreeMap.h:126-137 | a present key changes nothing; an absent key is inserted with `mapped_type()` as a new leaf, exactly as `insert` places it, and counted; the returned node holds the key and its stored value |
| TreeMaps.TreeMap.SetValue | src/TreeMap.h:136 | assigning through the returned reference maps the node's key to the new value and leaves the shape and count alone |
| TreeMaps.TreeMap.ValueOf | src/TreeMap.h:140-150 | out_of_range exactly when the key is absent; otherwise the stored value |
| TreeMaps.TreeMap.Find | src/TreeMap.h:152-160 | `end()` exactly when the key is absent; otherwise the node holding the key, which is the one position of iteration with that key |
| TreeMaps.TreeMap.Transplant | src/TreeMap.h:254-266 | the node's parent (or the root) takes the incoming subtree and that subtree's parent link follows (standard procedure; see Findings) |
| TreeMaps.TreeMap.DetachSuccessor | src/TreeMap.h:182-187 | splicing the successor out of the right subtree and giving it that subtree leaves the right subtree without its minimum below the successor |
| TreeMaps.TreeMap.ReplaceBySuccessor | src/TreeMap.h:178-192 | in the two-children case the successor takes the node's place and the arena lays out the textbook deletion |
| TreeMaps.TreeMap.Remove | src/TreeMap.h:167-195 | `end()` raises out_of_range and changes nothing; otherwise the tree becomes the textbook deletion of the key, the map loses the key, the count drops by one and the handle leaves the tree |
| TreeMaps.TreeMap.RemoveKey | src/TreeMap.h:162-165 | removing by key: out_of_range when absent, otherwise the map loses the key and the count drops by one |
| TreeMaps.TreeMap.Begin | src/TreeMap.h:222-225 | `end()` exactly for an empty map; otherwise the first node of iteration |
| TreeMaps.TreeMap.Deref | src/TreeMap.h:447-453 | out_of_range exactly at `end()`; otherwise the node's pair, which is the stored pair of its key and of its position in iteration |
| TreeMaps.TreeMap.Next | src/TreeMap.h:384-401 | out_of_range exactly at `end()`; otherwise the handle of the next node in iteration order, or `end()` after the last |
| TreeMaps.TreeMap.ClimbFromRight | src/TreeMap.h:396-398 | climbing from a node without a right subtree reaches its in-order successor |
| TreeMaps.TreeMap.Prev | src/TreeMap.h:410-438 | out_of_range exactly for an empty map; from `end()` the last node; otherwise the previous node in iteration order, or `end()` before the first |
| TreeMaps.TreeMap.ClimbFromLeft | src/TreeMap.h:432-434 | climbing from a node without a left subtree reaches its in-order predecessor |
| TreeMaps.TreeMap.IsEmpty | src/TreeMap.h:121-124 | true exactly when the map is empty, and exactly when iteration is empty |
| TreeMaps.TreeMap.GetSize | src/TreeMap.h:197-200 | the count is the number of keys and the length of iteration |
| TreeMaps.TreeMap.Step | src/TreeMap.h:209-213 | dereferencing then advancing the i-th node gives the i-th pair and the (i+1)-th node, or `end()` after the last |
| TreeMaps.TreeMap.Equals | src/TreeMap.h:204-215 | true exactly when both iterations give the same pairs, and exactly when both maps are equal |
| TreeMaps.TreeMap.SamePairs | src/TreeMap.h:209-213 | for maps of one size, the side-by-side loop returns true exactly when the pair sequences agree |
| TreeMaps.TreeMap.RemoveTree | src/TreeMap.h:337-355 | every node is released, the map is empty and counts 0; an empty map is left as it is |
| TreeMaps.TreeMap.CopyEntry | src/TreeMap.h:78-81 | one round of the copy loop inserts the other's next pair, whose key is larger than every key copied so far, so the copy holds exactly the pairs before the advanced iterator |
| TreeMaps.TreeMap.CopyFrom | src/TreeMap.h:76-84 | inserting the pairs of another map in iteration order into an empty one yields the same map and count |
| TreeMaps.TreeMap.Copy | src/TreeMap.h:76-84 | the copy constructor gives a valid map equal to the original |
| TreeMaps.TreeMap.CopyAssign | src/TreeMap.h:95-104 | copy assignment leaves this map equal to the other; self-assignment changes nothing |
| TreeMaps.TreeMap.Move | src/TreeMap.h:86-93 | the move constructor takes over the other's tree and leaves the other empty |
| TreeMaps.TreeMap.MoveAssign | src/TreeMap.h:106-119 | move assignment releases this map's nodes, takes over the other's and leaves the other empty |
| BinaryTree.SearchCorrect | src/TreeMap.h:269-284 | in a search tree the search for a key ends at a node exactly when the key is stored, and that node carries the stored value |
| BinaryTree.InsertSpec | src/TreeMap.h:308-335 | leaf insertion of an absent key keeps the search order, adds the key with its value and grows the size by one |
| BinaryTree.DeleteSpec | src/TreeMap.h:167-195 | the three-case deletion of a present key keeps the search order, removes exactly that key and shrinks the size by one |
| BinaryTree.RemoveSuccessor | src/TreeMap.h:178-192 | replacing a two-children node by its successor keeps the order and removes exactly the node's key |
| BinaryTree.UpdateSpec | src/TreeMap.h:136 | overwriting a stored value keeps the keys, the order and the node handles and maps the key to the new value |
| BinaryTree.MinNodeLeast | src/TreeMap.h:297-305 | the leftmost node holds the least key, and the search for that key ends at it |
| BinaryTree.MinNodeFirst | src/TreeMap.h:222-225 | the leftmost node is the first in iteration |
| BinaryTree.MaxNodeLast | src/TreeMap.h:416-421 | the rightmost node is the last in iteration |
| BinaryTree.ItemsSorted | src/TreeMap.h:384-401 | iteration visits keys in strictly increasing order |
| BinaryTree.ItemsDistinct | src/TreeMap.h:384-401 | iteration visits every node once |
| BinaryTree.ItemsCover | src/TreeMap.h:384-401 | every node of the tree is visited by iteration |
| BinaryTree.PairsMap | src/TreeMap.h:76-84 | the pairs of iteration denote exactly the stored map |
| BinaryTree.SortedPairsUnique | src/TreeMap.h:204-215 | two key-sorted pair sequences that denote the same map are equal |
| BinaryTree.SameMapSamePairs | src/TreeMap.h:204-215 | two search trees iterate the same pairs exactly when they store the same map |
| BinaryTree.MapSize | src/TreeMap.h:197-200 | in a search tree the number of keys equals the number of nodes |
| BinaryTree.NextBelow | src/TreeMap.h:388-393 | with a right subtree, the successor is that subtree's leftmost node |
| BinaryTree.NextAbove | src/TreeMap.h:394-399 | without one, the successor is the first ancestor reached from a left child, or none after the maximum |
| BinaryTree.PrevBelow | src/TreeMap.h:424-429 | with a left subtree, the predecessor is that subtree's rightmost node |
| BinaryTree.PrevAbove | src/TreeMap.h:430-435 | without one, the predecessor is the first ancestor reached from a right child, or none before the minimum |
| TreeArena.TransplantWired | src/TreeMap.h:254-266 | the standard transplant substitutes the incoming subtree for the removed node's subtree in the tree the arena lays out, and fixes the root |
| TreeArena.DetachWired | src/TreeMap.h:182-187 | the relinking that detaches the successor lays out the right subtree without its minimum below the successor |
| TreeArena.SucceedWired | src/TreeMap.h:178-192 | the relinkings of the two-children case lay out the textbook deletion |
| TreeArena.OneChildWired | src/TreeMap.h:172-176 | the one-child cases' transplant lays out the textbook deletion |
| TreeArena.HandleAt | src/TreeMap.h:269-284 | every node in the tree is the one the search for its own key reaches |
| HashMaps.HashMap.constructor | src/HashMap.h:54-59 | a new map has 1000 empty buckets, is valid, empty and counts 0 |
| HashMaps.HashMap.ClearBuckets | src/HashMap.h:57-58 | the loop leaves every bucket empty, so the table stores nothing |
| HashMaps.HashMap.FindNode | src/HashMap.h:251-264 | the walk of the key's chain returns NIL exactly when the key is absent; otherwise the key's position, holding its stored value |
| HashMaps.HashMap.Index | src/HashMap.h:118-142 | a present key changes nothing; an absent key is appended with `mapped_type()` at the tail of its bucket and counted; the result is the key's entry |
| HashMaps.HashMap.SetValue | src/HashMap.h:141 | assigning through the returned reference maps the entry's key to the new value and leaves every chain's keys in place |
| HashMaps.HashMap.Insert | src/HashMap.h:297-300 | the map gains the pair; an absent key is appended at the tail of its bucket and counted; for a present key the table changes only in the value of that key's own entry, and the count stays |
| HashMaps.HashMap.ValueOf | src/HashMap.h:144-158 | out_of_range exactly when the key is absent; otherwise the stored value |
| HashMaps.HashMap.Find | src/HashMap.h:160-168 | `end()` exactly when the key is absent; otherwise the key's position in its own bucket |
| HashMaps.HashMap.Remove | src/HashMap.h:175-190 | `end()` raises out_of_range and changes nothing; otherwise the entry leaves its chain, the map loses its key and the count drops by one |
| HashMaps.HashMap.RemoveKey | src/HashMap.h:170-173 | removing by key: out_of_range when absent, otherwise the map loses the key and the count drops by one |
| HashMaps.HashMap.GetSize | src/HashMap.h:192-195 | the count is the number of keys and the length of iteration |
| HashMaps.HashMap.IsEmpty | src/HashMap.h:113-116 | true exactly when the map is empty, and exactly when iteration is empty |
| HashMaps.HashMap.EraseHashMap | src/HashMap.h:266-277 | every bucket is emptied (an empty map already is) and the count becomes 0 |
| HashMaps.HashMap.FirstNode | src/HashMap.h:281-290 | the lowest non-empty bucket, or 1000 when all are empty |
| HashMaps.HashMap.Begin | src/HashMap.h:216-226 | the iterator at position 0 of iteration, which is `end()` exactly for an empty map |
| HashMaps.HashMap.Deref | src/HashMap.h:394-400 | out_of_range exactly at `end()`; otherwise the entry at the iterator's position in iteration, which is a stored pair |
| HashMaps.HashMap.Next | src/HashMap.h:331-353 | out_of_range exactly at `end()`; otherwise the next node of the chain, or the head of the next non-empty bucket, or `end()`, which is one position further in iteration |
| HashMaps.HashMap.Prev | src/HashMap.h:362-385 | out_of_range exactly at position 0; otherwise the previous node of the chain or the tail of the nearest earlier non-empty bucket, one position back in iteration |
| HashMaps.HashMap.Step | src/HashMap.h:203-207 | dereferencing then advancing a non-end iterator gives the entry at its position and the iterator one position on |
| HashMaps.HashMap.Equals | src/HashMap.h:197-209 | true exactly when both iterations give the same entries; equal maps follow, but not conversely |
| HashMaps.HashMap.SameOrder | src/HashMap.h:202-208 | for maps of one size, the side-by-side loop returns true exactly when the iteration orders agree |
| HashMaps.HashMap.CopyFrom | src/HashMap.h:67-70 | `operator[]`-assigning the other's entries in iteration order into an empty map rebuilds the other's chains exactly |
| HashMaps.HashMap.CopyEntry | src/HashMap.h:68-69 | one round of the copy loop keeps the copy equal to the other's entries before the iterator |
| HashMaps.HashMap.CopyRest | src/HashMap.h:68-69 | the copy loop from a copied prefix on ends with the whole table copied |
| HashMaps.HashMap.Copy | src/HashMap.h:67-70 | the copy constructor gives a valid map with the same chains, count and contents |
| HashMaps.HashMap.Move | src/HashMap.h:72-78 | the move constructor copies the other's chains and then erases the other |
| HashMaps.HashMap.CopyAssign | src/HashMap.h:81-91 | copy assignment leaves this map with the other's chains; self-assignment changes nothing |
| HashMaps.HashMap.MoveAssign | src/HashMap.h:93-105 | move assignment leaves this map with the other's chains and erases the other |
| HashChains.ModHash | src/HashMap.h:292-295 | a key's bucket index is below 1000 |
| HashChains.TableLookup | src/HashMap.h:251-264 | in a placed table a key is stored exactly when its own bucket's chain holds it, with the same value |
| HashChains.TableKeys | src/HashMap.h:251-264 | a key is stored exactly when some entry of its bucket's chain carries it |
| HashChains.FlattenDistinct | src/HashMap.h:197-209 | in a placed table iteration meets no key twice |
| HashChains.TableSize | src/HashMap.h:192-195 | in a placed table the number of keys equals the number of entries |
| HashChains.EmptyTableSpec | src/HashMap.h:54-59 | 1000 empty buckets are placed and store the empty map |
| HashChains.AppendedSpec | src/HashMap.h:118-142 | appending an absent key at its bucket's tail keeps the table placed, adds the pair and one entry |
| HashChains.UnlinkedSpec | src/HashMap.h:175-190 | unlinking an entry keeps the table placed, removes exactly its key and one entry |
| HashChains.UnlinkedKeepsCursors | src/HashMap.h:175-190 | removal invalidates only the removed node: every other cursor, re-indexed, designates the same entry, and cursors into other buckets or before the removed node keep their place |
| HashChains.AssignedSpec | src/HashMap.h:141 | overwriting an entry's value keeps the table placed and the entry count, and maps the key to the value |
| HashChains.AppendedThenAssigned | src/HashMap.h:297-300 | `operator[]` on an absent key followed by the assignment puts the pair itself at the tail |
| HashChains.PositionEntry | src/HashMap.h:394-400 | the entry under a cursor is the entry at its position in iteration |
| HashChains.PositionInjective | src/HashMap.h:394-400 | distinct cursors sit at distinct positions of iteration |
| HashChains.FollowsPosition | src/HashMap.h:331-353 | `++`'s target is one position further in iteration |
| HashChains.PrecedesPosition | src/HashMap.h:362-385 | `--`'s target is one position back in iteration |
| HashChains.NoneBeforePosition | src/HashMap.h:366-373 | from a chain head or `end()`, no non-empty earlier bucket exactly when the position is 0 |
| HashChains.InsertionOrderSameMap | src/HashMap.h:297-300 | inserting two keys in either order stores the same map |
| HashChains.InsertionOrderMatters | src/HashMap.h:197-209 | two keys sharing a bucket, inserted in the two orders, iterate in opposite orders, so `operator==` tells the two maps apart |
| HashChains.CopyStart | src/HashMap.h:67-70 | an empty table is the copy of nothing before iteration starts |
| HashChains.CopyFresh | src/HashMap.h:68-69 | the entry under the copy loop's iterator is not yet in the copy |
| HashChains.CopyStep | src/HashMap.h:68-69 | appending that entry and advancing the iterator keeps the copy equal to the prefix before it |
| TreeFindings.TransplantedAsWritten | src/TreeMap.h:254-266 | the source's transplant: the root case is chosen by the missing right child, the incoming node gets the removed node's right link, its parent link is untouched, and nothing else changes |
| TreeFindings.TransplantAsWrittenDiffers | src/TreeMap.h:254-266 | for every node with a parent and no right child the source's transplant makes the incoming node the root where the standard one keeps it, and it never sets the incoming node's parent |
| TreeFindings.RemoveLeafLosesTree | src/TreeMap.h:256-257 | as written, removing a leaf without a right child empties the tree; the standard transplant only clears the parent's link |
| TreeFindings.RemoveRootKeepsParent | src/TreeMap.h:263-264 | as written, the new root keeps its parent link to the removed node; the standard transplant clears it |
| HashFindings.UnlinkAsWritten | src/HashMap.h:179-187 | the source's relinking: a predecessor's `next` and a successor's `prev` are set to the node itself, the head is replaced only when there is no predecessor, the removed node's `next` is cleared, and nothing else changes |
| HashFindings.UnlinkAsWrittenSelfLinks | src/HashMap.h:179-187 | for every chain the source's relinking leaves those two self-links where the doubly linked unlink points the predecessor at the successor and back, with the same new head |
| HashFindings.RemoveMiddleLoops | src/HashMap.h:179-186 | as written, removing a middle entry makes its predecessor point at itself and its successor's back link point at itself; the corrected unlink gives the chain without the entry |
| HashFindings.RemoveHeadSelfLinks | src/HashMap.h:179-186 | as written, removing the head of a two-entry chain leaves the new head's back link pointing at itself, and removing that entry next leaves the bucket head naming it; the corrected unlink clears the back link and then empties the bucket |

## Left out

- The hash map's initializer-list constructor (src/HashMap.h:61-65) is not modelled. It is a loop of `operator[]` assignments, which `CopyFrom` already covers.
- The tree map's initializer-list constructor (src/TreeMap.h:70-74) is not modelled. It calls `insert` on a fresh node for each pair and never looks for the key first. A list with a repeated key, such as `{{1, a}, {1, b}}`, therefore builds two nodes with key 1 and counts 2, which is no map at all.
- TreeMaps.TreeMap.Insert: requires the key to be absent. The source's `insert` does not check this, but the callers modelled here (`operator[]` and the copy loop) call it only for absent keys; the duplicate nodes of the initializer-list constructor are not modelled.
- `findMax`, `operator!=`, postfix `++` and `--`, `operator->` and `cbegin`/`cend` are not modelled. They are thin wrappers or are unused by the core.
- The const and non-const overloads are modelled once each.
- Destructors, `delete` and `removeAllNodes` are not modelled: memory is not modelled. `RemoveTree` simply leaves the map empty.
- `eraseHashMap` deletes only each chain's head node; the unreleased rest of each chain is not modelled.
- An iterator whose `tree` or `hashmap` is null, and iterators into another map, are excluded by the requires clauses. Every iterator a map hands out belongs to it.
- `std::hash` is a parameter of the hash map constructor. Copying requires both maps to use the same one.
- Copy and move between hash maps require the two tables to be different arrays. Each map allocates its own table, so only a map and itself can share one, and that case is the self-assignment check.
- Integer widths are not modelled: `size_type` counters never overflow here.
- HashMaps.HashMap.FirstNode and HashMaps.HashMap.Next test `index < 1000` before reading a bucket. The source reads `hashtable[1000]` one step past the end before testing the index.
- HashMaps.HashMap.Prev returns out_of_range at bucket 0. The source decrements the unsigned index there and reads far out of range; that path is reached only from position 0.
- HashMaps.HashMap.Prev: the iterator's state after out_of_range is not modelled. The model returns the error and leaves the cursor where it was. The source has already moved it: the bucket scan has brought `index` down to 0 (or wrapped it) before the throw, and iterator equality compares that index.
- HashMaps.HashMap.Index appends to the chain directly. The source first walks to the tail to link the new node.
- TreeMaps.TreeMap.Transplant is the standard transplant, not the source's own (see Findings), because the source's version loses or corrupts nodes.
- HashMaps.HashMap.Remove: iterators held by clients are not modelled. A cursor is a place (bucket, position), not a node, so a cursor on a later node of the same chain shifts down by one after a removal, where the source's node iterator keeps naming its node. `HashChains.Reindexed` gives that shift, and `HashChains.UnlinkedKeepsCursors` proves every other cursor still reaches its entry after it.
- HashMaps.HashMap.Remove is the standard unlink, not the source's own (see Findings), because the source's version leaves self-loops.
- `main.cpp` is a driver, not part of the model.

## Findings

| source | as written | input that shows it | evidently intended | confidence | as-written member | corrected member |
|---|---|---|---|---|---|---|
| src/TreeMap.h:256 | `transplant` takes the root case when the removed node has no right child | tree 2 with left child 1; `remove(1)` sets the root to null and loses node 2 | take the root case when the removed node has no parent | high (not executed) | TreeFindings.RemoveLeafLosesTree | TreeMaps.TreeMap.Transplant (proved by TreeArena.TransplantWired) |
| src/TreeMap.h:264 | `transplant` copies the removed node's right link into the incoming node | tree 2 with left child 1; `remove(2)` leaves the new root 1 with a parent link to the deleted node | set the incoming node's parent to the removed node's parent | high (not executed) | TreeFindings.RemoveRootKeepsParent | TreeMaps.TreeMap.Transplant (proved by TreeArena.TransplantWired) |
| src/HashMap.h:182-185 | `remove` sets the predecessor's `next` to the predecessor, and the successor's `prev` to the successor; the second assignment runs for a removed head too | chain 10, 20, 30 in one bucket: removing 20 makes 10 point at itself, so iteration never reaches 30. Chain 10, 20: removing 10 leaves 20's `prev` at 20, so a later removal of 20 takes the branch for a node with a predecessor and the bucket head still names the deleted node | link the predecessor to the successor and back, and give a new head a null `prev` | high (not executed) | HashFindings.RemoveMiddleLoops, HashFindings.RemoveHeadSelfLinks | HashMaps.HashMap.Remove (proved by HashChains.UnlinkedSpec) |
