# Verified model of four ordered C containers

The repository keeps sets and maps of keys in four unrelated structures that rewrite their nodes in
place. This project models each of them with the same fields, loops and pointer writes, and proves
that it behaves as the simple thing it stands for.

* **Adaptive radix tree** (`art.c`; files `ArtNode`, `ArtShape`, `ArtWalk`, `ArtIter`, `Art`, `ArtRuns`).
  A byte trie with four node layouts and compressed prefixes of which only ten bytes are stored. All keys
  of a tree have one length, which may be any. The tree is a finite map: search and delete, which look at
  ten bytes of a prefix and compare the rest at the leaf, answer as the map does. `ArtNode` has the layouts,
  each a map from bytes to children. `ArtShape` has the tree as a value. A node is described by `branch`,
  the string that all its leaves share, and `start`, where its compressed prefix begins, and the invariant
  makes both a function of the key set.
* **Heap-ordered bit radix tree** (`radix.c`; files `Bits`, `RadixShape`, `Radix`, `RadixRuns`).
  A key at every node, smaller than the keys below it, on the path of its bits. `RadixShape` is about the
  places of keys: only one arrangement exists for a set of keys, whatever the history. `Radix` relinks the
  nodes, with the child pointers, the parent pointer and the pointer to the parent's pointer, and the rings of
  nodes with equal keys.
* **Wide radix tree and object pool** (`radix_new.c`; files `Word`, `Pool`, `WideShape`, `WideSeek`, `Wide`,
  `WideRuns`). 256 slots a level in four groups of 64, with occupancy words. The pool hands out memory it does
  not clear, so the tree must give back only groups that are zero again; the invariant spans both. A tree of n
  levels takes a key by its n low bytes (`Low`). Inside the insert and remove loops level `j` of the tree stands
  for its own key set `ks[j]`, because the levels are brought up to date one at a time.
* **Pointer AVL tree** (`avl.c`; files `AvlShape`, `AvlOrder`, `Avl`, `AvlRuns`). Parent links, stored heights,
  rotations through link pointers. `Rising` is the invariant of the climb in `cuAvlTreeNodeRebalance`: all
  levels fit except at one node, one of whose subtrees has changed its height by at most one.

The pure modules work on snapshots of the nodes' fields; the methods of the classes are tied to them by their
contracts. `Sets` has a fact about sizes of sets that three modules need.

One property does not hold. A removal never clears bits of the root (`radix_new.c:424`), so `treeFindGEQ` can
follow a root bit to an empty node and read past the node's four pointers. `Wide.Tree.FindGeq` proves exactly
when this happens (`Strays`: nothing is stored from the query on in its own root slot, and the next root bit
belongs to no key), and exactly when a tree of one level answers wrongly (`Misses`). Over runs the root bits are
the slots of all keys that were ever inserted, so `WideRuns.Run` states both failures in terms of the map and this
set. `WideRuns.RunSafely` follows: in a run in which no removal empties a root slot, as in every run without
removals, each search is right. `WideRuns.EmptiedSlotStrays` and `WideRuns.RemovedKeyHides` are concrete runs that
fail.

A value of 0 is not refused. A key that is inserted with it is stored, sets its bits and keeps its memory, and the
next insertion of the key replaces it; searches give its 0, which their callers take for none.

`README.md:54` of the repository says that each pool object knows its pool; `objectPoolFree` searches the chain of
blocks by address, and the model follows the code. `radix_new.c:137` speaks of doubling the capacity, but every
block after the first has twice the *initial* capacity; the model has that too, and `BlockCount` gives the
resulting number of blocks.

## Model

| member | source | states |
|---|---|---|
| ArtNode.Node.FindChild | art.c:135-220 | In each of the four layouts, finds the place of the child under a byte if and only if the node's byte-to-child map has the byte. |
| ArtNode.Node.AddChild | art.c:510-523 | Adds exactly one entry to the byte-to-child map. The node itself stays if and only if it has a free place: a node4 with 4, a node16 with 16 and a node48 with 48 children is replaced by a fresh node of the next layout that keeps the prefix. |
| ArtNode.Node.AddChild4 | art.c:478-508 | The same for a node4: sorted insertion below 4 children, growth to a node16 of 5 at 4. |
| ArtNode.Node.AddChild16 | art.c:410-476 | The same for a node16, with the unsigned comparison of the portable branch: below 16 children it stays, at 16 it becomes a node48 of 17 in which the old children keep their order and the new one is last. |
| ArtNode.Node.AddChild48 | art.c:389-408 | Below 48 children the new one takes the first free slot, which there is, and nothing else moves; at 48 the node becomes a node256 of 49. |
| ArtNode.Node.AddChild256 | art.c:383-387 | The map gains the entry, with the 8-bit count correct modulo 256, even when the node becomes full. |
| ArtNode.Node.RemoveChild | art.c:760-773 | Removes exactly one entry. The node is replaced if and only if 3 children remain in a node16, 12 in a node48 or 37 in a node256, by a fresh node4, node16 or node48. |
| ArtNode.Node.RemoveChild256 | art.c:666-687 | Exactly when 37 children remain, they are packed into the first 37 slots of a node48 in the order of their bytes, with the same map. |
| ArtNode.Node.RemoveChild48 | art.c:689-711 | Exactly when 12 children remain, they go to a sorted node16 with the same map. |
| ArtNode.Node.RemoveChild16 | art.c:713-727 | Closing the gap keeps the arrays sorted and parallel; exactly when 3 children remain, they are copied to a node4. |
| ArtNode.InsertSorted | art.c:449-460 | Shifting the parallel arrays up by one and storing the new pair keeps them sorted and gives the map with the new entry. |
| ArtNode.RemoveSorted | art.c:713-717 | Shifting down over a pair keeps them sorted and gives the map without the entry. |
| ArtNode.SortedToIndexed | art.c:465-470 | A node48 filled from sorted arrays, index plus one under each byte, has the same map, injectively. |
| ArtNode.IndexedToDirect | art.c:398-402 | A node256 filled through the index table has the same map. |
| ArtNode.RemoveIndexed | art.c:690-693 | Clearing index and pointer removes the one entry and frees the one slot. |
| ArtNode.Node.FirstChild | art.c:300-313 | The child that minimum descends to is the one under the least byte, in every layout. |
| ArtNode.Node.LastChild | art.c:326-339 | The child that maximum descends to is the one under the greatest byte. |
| ArtNode.Node.ChildAt | art.c:845-877 | The iteration loops pass over exactly the bytes without a child, in ascending order, in every layout. |
| ArtNode.LowestSet | art.c:198-199 | The count of trailing zeros of the masked comparison results is the first match. |
| ArtShape.FilledOk | art.c:628-631 | A new leaf below a node that has no child for its byte keeps the invariant for one key more. |
| ArtShape.SplitOk | art.c:568-618 | A split, of a leaf or inside a compressed prefix, keeps the invariant for one key more: the new node branches where the new key leaves the others. |
| ArtShape.DroppedOk | art.c:802-807 | Removing a leaf from a node that keeps two children keeps the invariant. |
| ArtShape.CollapsedOk | art.c:735-757 | Removing a leaf from a node with two children, and joining the node with its other child, keeps the invariant. |
| ArtShape.Canonical | art.c:567-617 | Two trees with the same keys have the same skeleton: the roots correspond and every node has a counterpart with the same branching string, prefix start and child bytes. |
| ArtWalk.TwoKids | art.c:735-757 | Every inner node has two children or more. |
| Art.Tree.CheckPrefix | art.c:231-239 | The result is the first of at most ten stored bytes that differs from the key's, or their number. |
| Art.Tree.Search | art.c:262-291 | For every key of the tree's length, the result is the map's value, or null if the map does not have the key. |
| Art.Tree.Minimum | art.c:294-317 | The leaf found is the least, in byte order, of all leaves below the node. |
| Art.Tree.Maximum | art.c:320-343 | The leaf found is the greatest below the node. |
| Art.Tree.First | art.c:348-350 | Null exactly for the empty map, otherwise the entry of the lexicographically least key. |
| Art.Tree.Last | art.c:355-357 | Null exactly for the empty map, otherwise the entry of the greatest key. |
| Art.Tree.LongestCommonPrefix | art.c:367-375 | Two different keys agree up to the result and differ there. |
| Art.Tree.PrefixMismatch | art.c:528-547 | Although ten bytes are stored, the result tells, for a prefix of any length, where the key leaves the string that all leaves share, or that it does not. |
| Art.Tree.SplitLeaf | art.c:568-582 | A leaf and a new leaf go under a new node; the map gains exactly the new key. |
| Art.Tree.CutPrefix | art.c:600-612 | The split node's remaining prefix is right for lengths up to and over ten, where the lost bytes come from the least leaf; the branching byte too. |
| Art.Tree.SplitInner | art.c:594-617 | A split inside a prefix gives a linked tree again; the map gains exactly the new key. |
| Art.Tree.AddLeaf | art.c:628-631 | A leaf is added to the node or to its larger replacement; the map gains exactly the new key. |
| Art.Tree.RecursiveInsert | art.c:549-632 | Through all its branches: the map is updated at the key, or left alone for a present key without replacement, the old value comes back, and the tree stays linked. |
| Art.Tree.Insert | art.c:643-648 | The map is overwritten at the key, the old value or null is returned, and size stays the number of keys. |
| Art.Tree.InsertNoReplace | art.c:659-664 | A present key keeps its value. |
| Art.Tree.JoinPrefix | art.c:738-753 | The child of a collapsing node gets the joined prefix: its length in full, the first ten bytes stored. |
| Art.Tree.Collapse | art.c:735-757 | A node4 with one child left is replaced by the child, and the tree is linked again. |
| Art.Tree.RemoveLeaf | art.c:802-807 | With any layout change or collapse, exactly the one key leaves the map. |
| Art.Tree.RecursiveDelete | art.c:775-815 | Returns the leaf of the key if and only if it is there, and removes exactly this key, although only ten prefix bytes are compared on the way. |
| Art.Tree.Delete | art.c:825-834 | The map without the key, its old value or null, and size the number of keys. |
| Art.Tree.RecursiveIter | art.c:837-883 | Below any node, visits the entries in order without gaps, to the end or to the entry where the callback stops. |
| Art.Tree.Iter | art.c:895-897 | The whole map in lexicographic order, each key once, if the callback never stops it; otherwise all entries up to the one where it did, and its answer. |
| ArtIter.NextVisit | art.c:848-876 | One more child visited extends the ordered visit of the smaller ones, or ends the iteration in the middle. |
| ArtIter.VisitsUnique | art.c:885-897 | The sequence of entries of an iteration that was not stopped is determined by the map. |
| ArtRuns.Run | art.c:262-291 | Every run of insertions with and without replacement, deletions, searches and size queries answers as a finite map does, for every key length. |
| ArtRuns.CompressedPrefix | art.c:557-618 | In every valid tree all leaves below a node agree on its next partial_len bytes, the first min(10, partial_len) of them are stored, the children's bytes are exactly those that follow, and there are two or more. |
| ArtRuns.SkeletonIsCanonical | art.c:567-617 | Node layouts aside, two trees with the same keys correspond node by node in both directions, with the same branching bytes, prefix lengths and stored prefix bytes. |
| ArtRuns.InsertThenDelete | art.c:735-757 | Deleting a key that was just inserted restores the map and the skeleton: the nodes before and after correspond in both directions, with the same prefix lengths and stored bytes. |
| RadixShape.Canonical | radix.c:159-168 | Heap order and bit placement admit one arrangement for a set of keys. |
| RadixShape.ArriveStep | radix.c:204-208 | A key that goes down past a smaller one has a bit left: the assertion on cur_key_bit never fails. |
| RadixShape.DisplaceStep | radix.c:189-202 | A smaller key that takes a place, and the displaced key that goes on below it, keep heap order and bit placement, and lose no key. |
| RadixShape.SettleOk | radix.c:214-218 | A key that arrives at a free place, or at one with a greater key, may take it: the keys gain the one key. |
| RadixShape.StoredBelow | radix.c:184-209 | A stored key is at or below every node on its bit path whose key is not greater, so an insertion finds the ring of an existing key. |
| RadixShape.SinkStep | radix.c:277 | Swapping the node that is removed with its least child keeps everything but its own heap order, one level further down. |
| RadixShape.SinkEnd | radix.c:269-271 | Once it is a leaf it can be cut off: the keys lose exactly this one. |
| RadixShape.SeekStep | radix.c:233-248 | Each step of the search keeps the promise about the candidates, and the bit index does not underflow. |
| RadixShape.SeekEnd | radix.c:251-258 | At the end the least larger node on the path, or else the deepest right child passed by, is the least key that is not less than the query. |
| Radix.ReplaceWired | radix.c:91-111 | Replacing a node by a detached one keeps all child, parent and self-pointer links consistent. |
| Radix.ExchangeWired | radix.c:114-157 | So does swapping a node with its child. |
| Radix.AttachWired | radix.c:215-217 | So does linking a node at a free place. |
| Radix.CutWired | radix.c:270 | So does cutting off a leaf. |
| Radix.Tree.ReplaceNode | radix.c:91-111 | The pointers of every node afterwards, and that no other pointer changes. |
| Radix.Tree.SwapParentWithChild | radix.c:114-157 | All pointers after the swap in terms of those before, also where the parent is the root or children are missing. |
| Radix.ListInsert | radix.c:38-48 | The node becomes the last of the ring. |
| Radix.ListRemove | radix.c:51-60 | The ring goes on without the node, in the same order. |
| Radix.Tree.Descend | radix.c:184-209 | One round of the insert loop: only a new key displaces nodes, and the bit index stays in step with the depth. |
| Radix.Tree.Insert | radix.c:170-219 | The rings gain the node at the end of the ring of its key; heap order, bit placement, links and rings stay valid. |
| Radix.Tree.FindGeq | radix.c:222-259 | The oldest node of the least key that is not less than the query, or null if there is none. |
| Radix.Tree.RemoveFromRing | radix.c:281-290 | A node with others of its key leaves its ring, whose other nodes keep their order; if it was the linked one, the next takes its place in the tree. |
| Radix.Tree.Remove | radix.c:262-291 | The ring of the key is what was before the node and what was after it, the key goes with its last node, all other rings stay, everything stays valid, and each push-down leads one level further down, at most to key_bits. |
| RadixRuns.SameKeysSameShape | radix.c:159-168 | Two trees with the same keys have them in the same places, whatever their histories. |
| RadixRuns.InsertThenRemove | radix.c:170-219 | A node put in and taken out again leaves rings and places as they were. |
| RadixRuns.Run | radix.c:170-291 | The specification knows only the keys of the nodes in the order of insertion and which nodes were removed. In every run a query gives, of the nodes left with the least key from the query on, the one inserted first: rings are queues. |
| RadixRuns.RunAll | radix.c:69-77 | The same from an empty tree. |
| RadixRuns.DropOne | radix.c:51-60 | A ring in the order of insertion stays in this order when any of its nodes leaves. |
| Word.FirstSetBit | radix_new.c:275-286 | The result is the position of the lowest set bit, or 64 if there is none. |
| Word.ReferenceFirstSetBit | benchmark_getFirstSetBit.c:28-36 | The shift-and-count loop has the same result. |
| Word.ScansAgree | benchmark_getFirstSetBit.c:27-36 | The two scans agree on all 64-bit words. |
| Word.FirstSetBitInRange | radix_new.c:293-309 | The least set bit from the start to the end of the four words, or one past the end, also where the start is 256. |
| Word.SetHas | radix_new.c:256 | Or-ing a shifted one sets the one bit and no other. |
| Word.ClearHas | radix_new.c:429 | And-ing with its complement clears the one bit and no other. |
| Pool.SumBound | radix_new.c:119-136 | The counters of used objects fall short of the total capacity exactly when some block has a free object. |
| Pool.Block.Take | radix_new.c:163-175 | The topmost free pointer is handed out and leaves the stack; it is in the range of the block, so the range check never rejects. |
| Pool.Block.Put | radix_new.c:190-194 | The pointer goes on top of the stack. |
| Pool.ObjectPool.constructor | radix_new.c:12-53 | One clean block of the initial capacity, the current one, with nothing live and all slots on its stack in ascending order: objectPoolInit after its check of the capacity. |
| Pool.ObjectPool.Init | radix_new.c:7-54 | Fails exactly for capacity 0, and otherwise gives one clean block with nothing live. |
| Pool.ObjectPool.FindBlock | radix_new.c:119-133 | The current block if it has a free object, otherwise the first in the chain that has one, otherwise the proof that none has. |
| Pool.ObjectPool.Grow | radix_new.c:136-156 | A block of twice the initial capacity at the end of the chain, all zero, its slots on the stack in ascending order, when all are full. |
| Pool.ObjectPool.Alloc | radix_new.c:111-176 | The top of the stack of the current block if this has a free object, otherwise of the first block that has one, otherwise the last slot of a new block; this block becomes the current one and no other stack changes. The object was not live and is now, all others keep their contents, and if no free object held anything, it is zero. |
| Pool.ObjectPool.Free | radix_new.c:178-199 | The object is on top of the stack of its block, no other stack changes, the others are live with their contents, and free memory stays zero if the object was; null and pointers into no block of the pool change nothing. |
| Pool.ObjectPool.FreeThenAlloc | radix_new.c:111-199 | An object that is freed to the current block is the next one handed out, and all stacks are as before. |
| Pool.ObjectPool.Conservation | radix_new.c:38-48 | In each block the counter of used objects is the number of live ones, and used plus freeListTop is the capacity. |
| Pool.ObjectPool.BlockCount | radix_new.c:136-156 | With initial capacity c there are 1 + k blocks, for the least k with c(1 + 2k) not below the peak number of live objects. |
| WideShape.MarkSound | radix_new.c:244-256 | Allocating a missing group and setting a bit keeps the invariant, with one key more at this level. |
| WideShape.ClearSound | radix_new.c:429-433 | Clearing a bit below the root, and freeing the group when its word is zero, keeps the invariant with one key less. |
| WideShape.NodeEmpty | radix_new.c:434 | Below the root, all four words are zero exactly if no key needs the node. |
| WideShape.DroppedNodes | radix_new.c:430-433 | A node group that no key needs is all zero when it is freed. |
| WideShape.DroppedLeaves | radix_new.c:430-433 | A value group that no key needs is all zero when it is freed. |
| WideSeek.SeekUp | radix_new.c:376-381 | If no later bit is set below the root, nothing from the query on is stored under this node. |
| WideSeek.SeekFound | radix_new.c:376-381 | The next set bit is where all keys from the query on begin. |
| WideSeek.SeekDown | radix_new.c:383-390 | The first set bit of the node below leads on to the least of them. |
| Wide.Tree.constructor | radix_new.c:213-223 | As many levels as the key bits above the alignment fill bytes, an empty map, exact root bits, two clean pools of 100 node groups and 1000 value groups. |
| WideShape.LowByte | radix_new.c:235 | The byte that a level takes from any key is the one that it would take from its low bytes alone. |
| Wide.Tree.NewChild | radix_new.c:244-249 | The group that the pool hands out uncleared is an empty one that nothing points to. |
| Wide.Tree.FreeChild | radix_new.c:430-433 | Only groups that are zero go back to the pool, and both pools stay clean. |
| Wide.Tree.MarkSlot | radix_new.c:235-256 | One level of the insertion: the group is there, exactly the one bit is added, and the level stands for one key more. |
| Wide.Tree.InsertOrReturnExisting | radix_new.c:227-271 | For any key, by its low bytes, and any value: the existing value is reported and kept unless it is 0, and otherwise the key gets the value; the root gains exactly the bit of the key, and exact root bits stay exact. |
| Wide.Tree.Find | radix_new.c:319-345 | The map's value at the low bytes of any key, or 0, for any number of levels. |
| Wide.Tree.WalkDown | radix_new.c:403-414 | The way of the key as far as there are groups, and that the next one is missing where it stops early. |
| Wide.Tree.ClearSlot | radix_new.c:429-434 | One level of the clearing loop: the level stands for one key less, and the node is empty exactly if no key needs it. |
| Wide.Tree.ClearUp | radix_new.c:424-437 | The loop brings the tree to the map without the key and does not touch the root. |
| Wide.Tree.Remove | radix_new.c:395-440 | For any key, by its low bytes: the value is returned and the key deleted, also an absent one; exact root bits stay exact if and only if the key was absent or its root slot still has a key. |
| Wide.Tree.SeekDescend | radix_new.c:352-373 | A full descent finds the query itself; a break means that nothing is stored in the missing slot. |
| Wide.Tree.SeekClimb | radix_new.c:376-381 | Backtracking ends at the level where the keys from the query on begin, or proves that there are none. |
| Wide.Tree.SeekLeft | radix_new.c:383-392 | The leftmost descent reaches the least key if and only if the slot it starts from has one. |
| Wide.Tree.FindGeq | radix_new.c:347-393 | For any query, by its low bytes: the search stays within the pointers of the nodes if and only if it does not stray, and then gives the value of the least key that is not less than the query, or 0; with one level it does so if and only if it does not miss, and otherwise gives what is left at the first root bit. |
| Wide.Tree.ExactNeverStrays | radix_new.c:347-393 | With exact root bits no search strays or misses. |
| Wide.Tree.PointersAreLive | radix_new.c:244-248 | A pointer that is not null leads to a live pool object. |
| Wide.Tree.OnePointer | radix_new.c:430-433 | No two pointers lead to the same object, so none is freed twice. |
| Wide.Tree.LiveIsPointed | radix_new.c:430-433 | Every live object has a pointer to it: nothing leaks. |
| Wide.Tree.LiveIsNeeded | radix_new.c:424-437 | Below the root a group is allocated only while some stored key has a slot in it. |
| WideRuns.Run | radix_new.c:227-440 | Every run of insertions, removals, searches and successor searches answers as a map does, whatever memory is recycled; a successor search fails exactly where the map and the set of root slots used so far say so. |
| WideRuns.SafeRun | radix_new.c:424-437 | In a run in which no removal takes the last key out of its root slot, every successor search is right. |
| WideRuns.RunSafely | radix_new.c:347-440 | So it is for every such run from an empty tree. |
| WideRuns.NoRemovals | radix_new.c:227-271 | Runs that only insert and search are among these. |
| WideRuns.EmptiedSlotStrays | radix_new.c:424-437 | A run of one insertion, its removal and a search that leaves the pointers of a node. |
| WideRuns.RemovedKeyHides | radix_new.c:424-437 | A run with one level: after 1 and 2 are inserted and 1 is removed, the search from 0 finds nothing, although 2 is stored. |
| AvlShape.RotateLinked | avl.c:148-190 | A rotation keeps key order, parent links and the nodes below each node. |
| AvlShape.StepPlain | avl.c:224-225 | A node in balance gets its exact height, and the climb goes on at its parent with the invariant. |
| AvlShape.Heavy | avl.c:197-222 | At a node out of balance the difference is exactly two, and the heavy child is level only in a removal: an insertion never needs that rotation. |
| AvlShape.SingleMends | avl.c:199-217 | After a single rotation the subtree is in balance with exact heights, and the climb goes on with the invariant. |
| AvlShape.DoubleMends | avl.c:205-221 | So it is after a double rotation. |
| AvlShape.GrowLinked | avl.c:308-311 | A new leaf where its key belongs keeps the search tree. |
| AvlShape.GrowRising | avl.c:308-312 | It establishes the invariant of the climb at its parent. |
| AvlShape.SpliceLinked | avl.c:345-368 | Replacing a node that has at most one child by that child keeps the search tree. |
| AvlShape.SpliceRisingUp | avl.c:343-356 | It establishes the invariant of the climb at the parent. |
| AvlShape.SpliceRisingAt | avl.c:360-374 | Starting the climb at the child that moved up is right too. |
| AvlShape.PutLinked | avl.c:357-367 | The successor in the place of the removed node keeps the search tree. |
| AvlShape.PutRising | avl.c:350-367 | The climb's invariant survives this, although the successor's stored height is stale. |
| Avl.Tree.GetLinkPointer | avl.c:126-139 | The pointer that leads to the node; the assertion in it never fails. |
| Avl.Tree.RotateLeft | avl.c:170-190 | All pointers and heights after the rotation in terms of those before; key order and links hold. |
| Avl.Tree.RotateRight | avl.c:148-168 | The same, mirrored. |
| Avl.Tree.GetBalance | avl.c:111-119 | The difference of heights; the assertion is a precondition and is proved at every call. |
| Avl.Tree.Mend | avl.c:194-225 | One round of the loop keeps the nodes and the invariant, one level further up. A node in balance keeps its links; otherwise the inner grandchild comes up if and only if it is taller than the outer one, and the heavy child if not. |
| Avl.Tree.Rebalance | avl.c:192-227 | From any state of the climb the loop ends with every node in balance and every height exact. |
| Avl.Tree.Lower | avl.c:121-124 | In every valid tree stored heights are exact and siblings differ by at most one. |
| Avl.Tree.Find | avl.c:56-67 | The node of the key, or null if there is none. The nodes visited are the path from the root, each the child of the one before on the side of the key; there are few: Fib(visited + 2) is at most the number of nodes plus one. |
| Avl.Tree.FindGeq | avl.c:241-257 | The node of the least key that is not less than the query, or null if there is none, along the same path. |
| Avl.Tree.FindLeq | avl.c:259-275 | The node of the greatest key that is not greater, or null, along the same path. |
| Avl.Tree.InsertOrReturnExisting | avl.c:277-316 | Reports the node that has the key and then changes nothing, or adds exactly the new node; order, links, heights and balance hold. |
| Avl.Tree.Insert | avl.c:318-324 | Succeeds if and only if the key was not there, and then adds exactly the one node. |
| Avl.Tree.TakeSuccessor | avl.c:332-346 | The next node in key order is unlinked, and the removed node's place still fits its key. |
| Avl.Tree.MoveSuccessor | avl.c:331-368 | The successor node itself takes the place, and the climb starts where its invariant holds. |
| Avl.Tree.Remove | avl.c:326-386 | Exactly the one node leaves the tree, with its pointers cleared; order, links, heights and balance hold. |
| Avl.Tree.InOrderSuccessor | avl.c:414-438 | The node of the next greater key, or null for the last. |
| Avl.Tree.InOrderPredecessor | avl.c:388-412 | The node of the next smaller key, or null for the first. |
| AvlOrder.FibBound | avl.c:121-124 | A subtree of stored height h has at least Fib(h + 2) - 1 nodes. |
| AvlOrder.InOrderAscends | avl.c:388-438 | From left to right the keys go up strictly, and each node is met once. |
| AvlOrder.OneListing | avl.c:388-438 | There is only one way to list nodes with their keys going up. |
| AvlRuns.InsertInOrder | avl.c:277-316 | The in-order sequence of nodes gains exactly the one node. |
| AvlRuns.RemoveInOrder | avl.c:326-386 | It loses exactly the one node; the other nodes are the same, in the same order. |
| AvlRuns.Walk | avl.c:414-438 | Going from the first node by successors yields the whole in-order sequence. |
| AvlRuns.Run | avl.c:229-438 | Every run of insertions, removals, searches, nearest-key queries and steps to neighbours answers as a finite map does. |

## Left out

- `wide_radix.c`: a simpler insert, lookup and delete than those of `radix_new.c`, and a successor search without backtracking that supports no successor theorem.
- `art_iter_prefix` in `art.c`: it goes on below a node after a partial prefix mismatch, so it does not visit exactly the matching keys.
- Keys of different lengths in one adaptive radix tree: reading `key[depth]` is in range, and key sets are free of prefixes, because all keys have one length.
- The SSE branches of `find_child` and `add_child16`: `add_child16` compares signed bytes there; the model follows the portable branches.
- Pointer tagging, casts, byte sizes and addresses: references are a datatype, a pointer to a pointer is the root or a field of a node, and a pool object is a block with a slot number.
- Allocation failure, null-argument checks, destroy and deinitialize functions, and `free` of adaptive radix tree nodes: memory that is not used any more is left to itself.
- Ints, sizes, lengths and block counts are unbounded, apart from the 8-bit child count, the byte keys and the 64-bit occupancy words; keys of `radix.c` are numbers below 2^key_bits, keys of `radix_new.c` are any numbers, and bits of keys are taken by arithmetic.
- Art.Tree.Iter: the callback is a function of the entries seen so far; it does not change the tree. The four loops are one loop over the places of a layout.
- Art.Tree.CutPrefix: the least leaf is looked up before the node's header is written, not after the length is; the lookup does not read the header.
- ArtNode.Node.AddChild: returns the node that replaces this one, and the caller writes it to `*ref`; in the source it is written before the new child is added. `ArtNode.Node.RemoveChild` does so too.
- ArtNode.LowestSet: the 16-bit field of comparison results is a sequence of truth values.
- Radix.Tree.Remove: is a method of the tree, because the pointer to the root is a field of it; the source reaches the root through the node's self-pointer. It requires that the node is in the tree.
- Radix.Tree.Insert: requires that the node is not in the tree and that the key fits, which the source asserts.
- Radix.Tree.FindGeq: requires a query below 2^key_bits, which the source does not check. A greater query would be led by its low bits alone, so that a node it passes by could be given back although its key is less, and at the end of a path the bit index would fall below zero.
- Wide.Tree.FindGeq: the reads past the four pointers are not modelled; a result parameter says whether one happens, and then nothing is said of the value.
- Wide.Tree.constructor: requires at least one and at most 64 key bits above the alignment, as the arrays of eight levels and the 64-bit keys do; the source does not check it. The alignment changes the number of levels only: keys are not shifted by it.
- Wide.Tree.MarkSlot: a group in a pool object is a value that is read and written as a whole, so a pointer into the middle of a group is a pair of group and index. The pool's own blocks, free lists and chain are updated in place.
- Pool.ObjectPool.Free: a pointer into a block of the pool must be to a live object; freeing one twice, which the source does not notice, is excluded.
- Pool.ObjectPool.Alloc: the branch for an empty chain of blocks is left out, since there is always a first block.
- Avl.Tree.Compare: keys are numbers in their usual order, as an instance of a comparator that is a total order; the variants with a comparator argument and the print and debug functions are left out.
- Timing, benchmarks and test programs.
