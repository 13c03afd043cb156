# B-tree and B+ tree of minimum degree 2, modelled in Dafny

This project models the two in-memory search trees of the repository:

- the B-tree of `btree.c`;
- the B+ tree of `bplustree.c`.

Both use minimum degree `T = 2`. A B-tree node holds up to `2T-1` keys and `2T` children. A B+ node holds up to `2T` keys, `2T+1` children and a `next` link from leaf to leaf. The routines covered are:

- node creation and the split of a full child;
- insertion into a non-full node, and insertion at the root, which grows the tree by a level when the root is full;
- search;
- the getPred and getSucc cursors of the B-tree;
- borrowFromPrev, borrowFromNext, merge, and fill (adjustAfterDeletion in the B+ tree);
- deletion from a node, and root collapse after a deletion.

**Memory.** The nodes live in an arena, `heap: seq<Rec>`. A pointer is an index into it, and `NULL` is `-1`. malloc appends a record; free drops the reference. Each tree is a class (`BTreeArena.BTree`, `BPlusArena.BPlusTree`) whose methods change the records in place, field by field and loop by loop, as the C code does. How exactly a method's new arena is stated differs by tree. The B-tree primitives (`CreateNode`, `SplitChild`, `LeafInsert`, `BorrowFromPrev`, `BorrowFromNext`, `Merge`, `RemoveFromLeaf` and the write steps beneath them) and every B+ method are proved to leave exactly the arena described by a function of the old arena. The B-tree drivers (`InsertNonFull`, `Fill`, `DeleteNode`, `DeleteChild`, `RemoveFromNonLeaf` and the steps between them) are proved against the value model instead: afterwards the node stands for the value function of the value it stood for, and no record outside its footprint changes. `Insert` and `Delete` state the new `Model()` value and the invariant.

**The B-tree** has a value model, `Tree = Node(keys, children)` (`BTreeModel`, `BTreeDelete`). `Flat` is its in-order walk, the order printTree visits keys. A ghost footprint per node makes the pointer structure a tree with disjoint subtrees. `Stands(h, fp, p, d, t)` says the records under `p` form a pointer tree of height `d` whose value is `t`. Every heap method is proved against the value functions, and the value functions are proved:

- to keep the walk sorted;
- to insert exactly one `k`, or remove exactly one occurrence of `k`;
- to keep every node between `T-1` and `2T-1` keys, with all leaves at one depth.

**The B+ tree.** A ghost level per record (`rank`) stands in for reachability. The internal split copies `y->C[T]` into `z`, so two nodes can share a child, and the nodes need not form a tree. The arena invariant `Arena(h, rank, root, height)` says every live record:

- fits its arrays;
- is a leaf exactly at level 0, with no children;
- at internal nodes, has live children one level down, and a `next` that is NULL or a leaf;
- except for the root, holds at least `T-1` keys.

That invariant is what makes every access land on a record and every descent end. The B+ routines are modelled as written, with no claim of ordering for deletion (see "Left out").

## Model

| member | source | states |
|---|---|---|
| BTreeArena.BTree.constructor | btree.c:323 | the tree starts as a single empty leaf root: `Model() == Root(Node([], []), 0)` |
| BTreeArena.BTree.CreateNode | btree.c:16-24 | appends a record with no keys, the given leaf flag and every child NULL, returning its pointer; footprint `{p}` |
| BTreeHeap.NewRec | btree.c:16-24 | the new record fits its arrays (`2T-1` keys, `2T` children), has `n == 0`, the given leaf flag and all children NULL |
| BTreeArena.BTree.SplitChild | btree.c:27-55 | the arena becomes `SplitHeap`: z gets y's upper `T-1` keys (and `T` children when internal), y keeps `T-1`, x opens child slot `i+1` for z and key slot `i` for the median `y.keys[T-1]`, n grows by one |
| BTreeHeapInsert.SplitRefines | btree.c:27-55 | after the split, x stands for `SplitChild(X, i)` of the value it stood for; only x's footprint changes, and it gains just the new record |
| BTreeModel.SplitChildFlat | btree.c:27-55 | a split keeps the in-order walk |
| BTreeModel.SplitChildShape | btree.c:27-55 | splitting a full child of a non-full node keeps the shape; both halves hold `T-1` keys, the parent one more, and `keys[i]` is the old child's median |
| Shifts.ScanRight | btree.c:62-65 | the right-to-left shifting scan stops at the last `i` with `s[i] <= k` (all of `s[i+1..n)` exceed k), and the array becomes `ShiftR(s, i+1, n)` |
| BTreeArena.BTree.LeafInsert | btree.c:61-67 | the leaf becomes `LeafPut(x, k)`: k lands after every key at most k, n grows by one |
| BTreeHeapInsert.LeafPutKeys | btree.c:61-67 | the live keys after the leaf insert are `InsertKey(old keys, k)` |
| BTreeHeapInsert.LeafPutRefines | btree.c:61-67 | a leaf standing for X stands for `InsertNonFull(X, k, 0)` after the insert |
| BTreeArena.BTree.ScanDown | btree.c:69-71 | the internal scan stops at `i` with `i + 1 == UpperIdx(keys, k)` |
| BTreeArena.BTree.InsertNonFull | btree.c:58-80 | x stands for the value `InsertNonFull(X, k, d)` afterwards; no record outside x's footprint changes, and new records join it |
| BTreeArena.BTree.PrepareChild | btree.c:72-77 | splits child `i+1` when it is full and moves right when the promoted key is below k; the descent then equals `InsertNonFull` of the old value |
| BTreeArena.BTree.SplitFull | btree.c:72-73 | splitting a full child of x leaves x standing for `SplitChild(X, j)`, both halves with `T-1` keys |
| BTreeArena.BTree.Deeper | btree.c:78 | the recursive insert into a non-full child leaves x standing for `Descend(X, j, k, d)` |
| BTreeModel.InsertNonFullFlat | btree.c:58-80 | insertion into a non-full node inserts k into the sorted walk: `Flat(r) == InsertKey(Flat(t), k)` |
| BTreeArena.BTree.Insert | btree.c:83-95 | the model becomes `Insert(old tree, k)` at `InsertHeight`; the elements become `InsertKey(old elements, k)` and the invariant holds |
| BTreeArena.BTree.InsertTree | btree.c:84-94 | the root then stands for `Insert(t, k)` and the height is `InsertHeight(t)` |
| BTreeArena.BTree.InsertRoomyRoot | btree.c:92-94 | a root with room stands for `InsertNonFull(t, k)`, at the same height |
| BTreeArena.BTree.InsertFullRoot | btree.c:86-91 | a full root is grown and split, and the new root stands for `InsertNonFull(Grow(t), k)` one level higher |
| BTreeArena.BTree.GrowRoot | btree.c:87-90 | the new root stands for `Grow(t)`, the old root split under an empty internal node |
| BTreeArena.BTree.NewRoot | btree.c:87-89 | a fresh internal root with child 0 the old root stands for `Node([], [t])` one level higher |
| BTreeHeapInsert.GrowRefines | btree.c:87-89 | a fresh root over a tree standing for X stands for `Node([], [X])`; nothing else changes, and a full old root can be split |
| BTreeModel.InsertCorrect | btree.c:83-95 | insert keeps the tree invariant, adds exactly one k to the sorted walk, and grows the height only from a full root |
| BTreeArena.BTree.GetPred | btree.c:98-104 | the cursor loop returns `Rightmost(C[idx])` |
| BTreeSearch.PredStep | btree.c:99-102 | one cursor step: at a leaf the answer is its last key, else the last child has the same answer |
| BTreeDelete.RightmostLast | btree.c:98-104 | getPred's key is the last key of the left child's walk |
| BTreeArena.BTree.GetSucc | btree.c:107-113 | the cursor loop returns `Leftmost(C[idx+1])` |
| BTreeSearch.SuccStep | btree.c:108-111 | one cursor step: at a leaf the answer is its first key, else the first child has the same answer |
| BTreeDelete.LeftmostFirst | btree.c:107-113 | getSucc's key is the first key of the right child's walk |
| BTreeArena.BTree.PrevChildWrite | btree.c:120-134 | the child becomes `PrevChild`: keys and internal children shift right by one, the separator goes into slot 0, and slot 0 takes the sibling's last child when the parent is internal |
| BTreeArena.BTree.BorrowFromPrev | btree.c:116-139 | the arena becomes `PrevHeap`, and x stands for the value `BorrowFromPrev(X, idx)`; nothing outside x's footprint changes |
| BTreeHeapDelete.PrevRefines | btree.c:116-139 | borrowFromPrev rewrites the arena so that x stands for `BorrowFromPrev(X, idx)` inside its footprint |
| BTreeDelete.BorrowFromPrevFlat | btree.c:116-139 | the rotation through the parent keeps the walk |
| BTreeDelete.BorrowFromPrevShape | btree.c:116-139 | the rotation keeps the shape: the child gains a key, the sibling loses one, the parent keeps its count |
| BTreeArena.BTree.NextChildWrite | btree.c:146-150 | the child gains the separator at slot n and, when internal, the sibling's first child at slot n+1 |
| BTreeArena.BTree.NextSibWrite | btree.c:154-162 | the sibling's keys and children shift left by one |
| BTreeArena.BTree.BorrowFromNext | btree.c:142-166 | the arena becomes `NextHeap`, and x stands for `BorrowFromNext(X, idx)`; nothing outside x's footprint changes |
| BTreeHeapDelete.NextRefines | btree.c:142-166 | borrowFromNext rewrites the arena so that x stands for `BorrowFromNext(X, idx)` |
| BTreeDelete.BorrowFromNextFlat | btree.c:142-166 | the mirrored rotation keeps the walk |
| BTreeDelete.BorrowFromNextShape | btree.c:142-166 | the mirrored rotation keeps the shape, with the same count changes |
| BTreeArena.BTree.MergeChildWrite | btree.c:173-183 | the child becomes `MergeChild`: the separator at `T-1`, then the sibling's keys and, when internal, its children from slot T |
| BTreeArena.BTree.MergeParentWrite | btree.c:185-194 | the parent closes key slot idx and child slot idx+1, and n drops by one |
| BTreeArena.BTree.Merge | btree.c:169-197 | the arena becomes `MergeHeap`, and x stands for `Merge(X, idx)`, the child joined with the separator and the sibling |
| BTreeHeapDelete.MergeRefines | btree.c:169-197 | merge rewrites the arena so that x stands for `Merge(X, idx)` |
| BTreeDelete.MergeFlat | btree.c:169-197 | a merge keeps the walk |
| BTreeDelete.MergeShape | btree.c:169-197 | merging two children that fit keeps the shape; the merged child holds both counts plus one, and the parent one key fewer |
| BTreeArena.BTree.Fill | btree.c:200-212 | x stands for `Fill(X, idx)`: borrow from prev, else from next, else merge with next, or with prev at the last child |
| BTreeDelete.FillShape | btree.c:200-212 | fill keeps the shape, the parent loses at most one key, and the child deleteNode descends into holds at least T keys |
| BTreeDelete.FillFlat | btree.c:200-212 | fill keeps the walk |
| BTreeDelete.FillBracket | btree.c:260-269 | after fill, the keys around the child picked by the `flag && idx > x->n` test still bracket k strictly |
| BTreeArena.BTree.RemoveFromLeaf | btree.c:235-240 | the leaf becomes `DropKey(x, idx)` and stands for `RemoveFromLeaf(X, idx)`, key idx gone |
| BTreeHeapDelete.DropRefines | btree.c:235-240 | a leaf with key idx closed up stands for `RemoveFromLeaf(X, idx)`; nothing else changes |
| BTreeHeapDelete.RekeyRefines | btree.c:222 | `x->keys[idx] = v` leaves x standing for its value with key idx replaced, over the same children |
| BTreeArena.BTree.RemoveFromNonLeaf | btree.c:217-232 | x stands for `RemoveFromNonLeaf(X, idx)`: replace by pred when `C[idx]` has T keys, else by succ, else merge and delete from the merged child |
| BTreeArena.BTree.ScanUp | btree.c:244-247 | the scan stops at `LowerIdx(keys, k)`, the first key not below k |
| BTreeArena.BTree.DeleteNode | btree.c:243-271 | x stands for the value `DeleteNode(X, k)`: the arena keeps its size, and nothing outside x's footprint changes |
| BTreeArena.BTree.DeleteChild | btree.c:266-268 | the recursive delete in a child with at least T keys leaves x standing for `DeleteChild(X, j, k)` |
| BTreeDelete.DeleteFlat | btree.c:243-271 | deleteNode removes one occurrence of k from the sorted walk, and none when k is absent |
| BTreeArena.BTree.Delete | btree.c:274-290 | the model becomes `Delete(old model, k)` and the elements become `RemoveOne(old elements, k)`; a NULL root is left alone |
| BTreeArena.BTree.CollapseRoot | btree.c:281-289 | a root left with no keys gives way to C[0], or to NULL when it is a leaf; the model becomes `Shrink(t)` |
| BTreeDelete.ShrinkCorrect | btree.c:281-289 | the replaced root keeps the invariant and the walk, with the height at most one lower |
| BTreeDelete.DeleteCorrect | btree.c:274-290 | delete keeps the invariant and removes exactly one k when present; the walk is unchanged when k is absent, and the height drops by at most one |
| BTreeSearch.Search | btree.c:293-306 | a found result names a node and an index within its n whose key is k |
| BTreeSearch.SearchCorrect | btree.c:293-306 | search finds a node exactly when k is in the tree's walk, and that node lies inside the tree |
| BTreeModel.SearchStep | btree.c:298-305 | where the scan stops without a match, a leaf does not hold k, and an internal node holds k exactly when the child at the stop does |
| BPlusArena.BPlusTree.constructor | bplustree.c:301 | the tree starts as one empty leaf root, with the arena invariant at height 0 |
| BPlusArena.BPlusTree.CreateNode | bplustree.c:17-26 | appends a record with no keys, the given leaf flag, every child NULL and next NULL |
| BPlusHeap.NewRec | bplustree.c:17-26 | the new record fits its arrays (`2T` keys, `2T+1` children), has `n == 0` and next NULL, and all children NULL |
| BPlusArena.BPlusTree.NewHalf | bplustree.c:30-41 | appends z: y's upper T keys and, when internal, its upper `T+1` children, `C[T]` included |
| BPlusArena.BPlusTree.OpenParent | bplustree.c:45-56 | x opens child slot `i+1` for z and key slot `i` for the median, and n grows by one |
| BPlusArena.BPlusTree.SplitChild | bplustree.c:29-62 | the arena becomes `SplitHeap`, and the new record takes y's level |
| BPlusInsert.SplitEffect | bplustree.c:29-56 | y keeps T keys; z holds y's keys `[T..2T)`, and when internal `C[T..2T]`, sharing `C[T]` with y; x gets y's `keys[T]` at i and z at child `i+1`, so `x.keys[i] == z.keys[0]`; no other record changes |
| BPlusInsert.SplitLinks | bplustree.c:58-61 | a leaf split splices z after y in the leaf chain (`z.next == old y.next`, `y.next == z`); an internal split links nothing, and no other next changes |
| BPlusInsert.SplitKeeps | bplustree.c:29-62 | the split keeps the arena invariant, with z at y's level |
| BPlusArena.BPlusTree.LeafInsert | bplustree.c:68-74 | the leaf becomes `LeafPut(x, k)` |
| BPlusInsert.LeafPutKeys | bplustree.c:68-74 | the live keys become `InsertKey(old keys, k)`: one more k, and still sorted when they were |
| BPlusArena.BPlusTree.ScanDown | bplustree.c:76-78 | the internal scan stops at `i` with `i + 1 == UpperIdx(keys, k)` |
| BPlusArena.BPlusTree.PrepareChild | bplustree.c:79-84 | splits child `i+1` when it holds 2T keys and moves right when the promoted key is below k; the child picked has room, is one level down, and continuing there gives the same `InsertHeap` |
| BPlusArena.BPlusTree.InsertNonFull | bplustree.c:65-87 | the arena and levels become `InsertHeap(old, x, k)` |
| BPlusInsert.InsertKeeps | bplustree.c:65-87 | insertNonFull keeps the arena invariant and every level and leaf flag, changes no record at x's level or above but x, and x loses no keys |
| BPlusInsert.InsertLands | bplustree.c:65-87 | the descent reaches a live leaf with room (`Landing`); insertNonFull is storing k into that leaf of the records as they are just before, so its live keys become `InsertKey` of what it held then, and its multiset gains exactly one k |
| BPlusInsert.LandingReached | bplustree.c:65-87 | the descent, splits included, keeps the invariant and ends at a live leaf with room, and insertNonFull's result is that leaf's `LeafPut` and nothing more |
| BPlusArena.BPlusTree.GrowRoot | bplustree.c:94-97 | a fresh internal root over the old root, split at once (`SplitHeap(GrowHeap(h), s, 0)`), with the invariant one level higher |
| BPlusHeap.GrowArena | bplustree.c:94-96 | a fresh empty internal root whose child 0 is the old root keeps the invariant one level higher |
| BPlusInsert.InsertRoot | bplustree.c:90-102 | the result keeps the arena invariant, and its root holds a key or is a leaf |
| BPlusArena.BPlusTree.Insert | bplustree.c:90-102 | the state becomes `InsertRoot(old, k)`; the height grows by one exactly when the old root held 2T keys, and stays otherwise |
| BPlusInsert.InsertGrowth | bplustree.c:90-102 | the tree grows only from a root with 2T keys; then the new root holds one key, the old root's `keys[T]`, between the old root and its new sibling; otherwise the root is unchanged |
| BPlusSearch.Scan | bplustree.c:106-109 | the scan stops at the first live key not below k, or at n |
| BPlusSearch.Search | bplustree.c:105-118 | a found result names a node and an index within its n whose key is k |
| BPlusArena.BPlusTree.Search | bplustree.c:105-118 | the recursive search returns `BPlusSearch.Search` of the arena |
| BPlusSearch.SearchFirst | bplustree.c:105-118 | search succeeds exactly when, at some node on the scan's path, the scan stops on a key equal to k (`Hit`); it returns the first such node, even an internal one, and the index where the scan stops |
| BPlusSearch.HitSorted | bplustree.c:106-110 | on a node with sorted live keys, the scan stops on k exactly when k is among them |
| BPlusArena.BPlusTree.RemoveFromLeaf | bplustree.c:121-126 | the record becomes `DropKey(x, idx)` |
| BPlusDelete.DropKeyKeys | bplustree.c:121-126 | key idx is gone from the live keys, and the rest keep their order |
| BPlusDelete.DropKeyRemoves | bplustree.c:229-236 | removing the key the scan finds equal to k removes one k: one fewer in the multiset, and still sorted when they were |
| BPlusArena.BPlusTree.PrevChildWrite | bplustree.c:133-147 | the child becomes `PrevChild`: keys and internal children shift right, the separator goes into slot 0, and slot 0 takes the sibling's last child whenever the parent is internal |
| BPlusArena.BPlusTree.BorrowFromPrev | bplustree.c:129-152 | the arena becomes `PrevHeap` |
| BPlusDelete.PrevEffect | bplustree.c:129-152 | the child gains the separator in front; internal children also gain the sibling's last child; the parent's key `idx-1` becomes the sibling's last key; the sibling loses a key; no next link and no other record changes |
| BPlusDelete.PrevArena | bplustree.c:129-152 | with a thin child and a sibling of at least T keys, borrowFromPrev may run and keeps the invariant |
| BPlusArena.BPlusTree.NextChildWrite | bplustree.c:159-163 | the child gains the separator at slot n and, when internal, the sibling's first child at slot n+1 |
| BPlusArena.BPlusTree.NextSibWrite | bplustree.c:167-175 | the sibling's keys and children shift left by one |
| BPlusArena.BPlusTree.BorrowFromNext | bplustree.c:155-179 | the arena becomes `NextHeap` |
| BPlusDelete.NextEffect | bplustree.c:155-179 | the child gains the separator at its end; the parent's key idx becomes the sibling's first key; the sibling's keys and children close up; no next link and no other record changes |
| BPlusDelete.NextArena | bplustree.c:155-179 | with a thin child and a next sibling of at least T keys, borrowFromNext may run and keeps the invariant |
| BPlusArena.BPlusTree.MergeChildWrite | bplustree.c:186-196 | the child becomes `MergeChild`: the separator at `T-1`, then the sibling's keys, and when internal its children from slot T |
| BPlusArena.BPlusTree.MergeParentWrite | bplustree.c:198-207 | the parent's keys `[idx+1..n)` and children `[idx+2..n]` move one slot left, and n drops by one |
| BPlusArena.BPlusTree.Merge | bplustree.c:182-210 | the arena becomes `MergeHeap` |
| BPlusDelete.MergeEffect | bplustree.c:182-210 | the child becomes child, separator, sibling; the parent closes key idx and child `idx+1` and drops a key; the freed sibling's record, when it is not the child, is untouched; every next link is left as it was, so a leaf that linked to the sibling still does |
| BPlusDelete.MergeArena | bplustree.c:182-210 | with both children thin, merge may run and keeps the invariant |
| BPlusArena.BPlusTree.AdjustAfterDeletion | bplustree.c:213-225 | the arena becomes `AdjustHeap` |
| BPlusDelete.AdjustKeeps | bplustree.c:213-225 | the priority order: borrow from prev when it has T keys, else from next when it has T keys, else merge; x loses a key exactly when it merges; the invariant holds and the child deleteNode descends into holds at least T keys |
| BPlusDelete.Descend | bplustree.c:245-254 | the descent goes to child idx, or to `idx-1` only when x lost a key |
| BPlusArena.BPlusTree.ScanUp | bplustree.c:229-232 | the scan stops at `LowerIdx(keys, k)` |
| BPlusArena.BPlusTree.DeleteNode | bplustree.c:228-256 | the arena becomes `DeleteHeap(old, x, k)` |
| BPlusDelete.DeleteKeeps | bplustree.c:228-256 | deleteNode keeps the invariant, the arena's size and every level and leaf flag; it changes no record at x's level or above but x, and x loses at most one key |
| BPlusDelete.DeleteAtLeaf | bplustree.c:234-243 | at a sorted leaf, deleteNode removes one k when present (one fewer in the multiset, still sorted) and leaves the arena as it was when k is absent |
| BPlusDelete.DeleteAtInternalHit | bplustree.c:234-239 | whenever the scan at an internal node stops on k, in any key order, deleteNode changes nothing at all |
| BPlusArena.BPlusTree.Delete | bplustree.c:259-275 | a NULL root is left alone; otherwise the arena becomes `DeleteHeap` from the root; a root left with no keys gives way to NULL when it is a leaf, or to its C[0] one level lower |
| BPlusHeap.CollapseArena | bplustree.c:266-274 | an internal root with no keys collapses into its child C[0], and the invariant holds one level lower |

## Left out

These apply to both trees.

- Memory is an arena of records, not malloc'd nodes. A pointer is an index and `NULL` is `-1`. Allocation failure is not modelled.
- `free` only drops the reference. The freed record stays in the arena, unchanged and unreachable. Use after free is therefore not modelled.
- createNode leaves the key slots unset in C. Here they hold 0 (`BTreeHeap.NewRec`, `BPlusHeap.NewRec`). No routine reads a key slot before writing it, within the cases modelled.
- Integers are unbounded. No key arithmetic is done, so `int` overflow cannot arise.
- Duplicate keys are kept, as in the source. `Sorted` is non-strict, and delete removes one occurrence.
- printTree and main (btree.c:309-346, bplustree.c:278-326) print; they are not modelled. The constructors model main's first line, `createNode(1)`.
- BTreeArena.BTree.Insert: requires a non-NULL root, because insert dereferences `*root` (btree.c:84-86). BPlusArena.BPlusTree.Insert requires the same (bplustree.c:91-93).

B-tree:

- BTreeArena.BTree.PrevChildWrite: modelled as written at btree.c:132, which tests `!x->leaf` and not `!child->leaf`. The write happens whenever the parent is internal. A leaf child then gets the sibling's `C[sibling->n]` in slot 0, which is NULL.

B+ tree:

- BPlusArena.BPlusTree.OpenParent: the key loop runs down to `j == i` (bplustree.c:51-53), so at `i == 0` it reads `x->keys[-1]`. Line 55 overwrites slot `i` at once. The model leaves out that read and its write, so it does not model the out-of-bounds read.
- BPlusArena.BPlusTree.DeleteNode: when the scan at an internal node stops on k, the key is not deleted from anywhere (the branch at bplustree.c:237-239 is empty). `DeleteAtInternalHit` proves nothing changes, and the copy in the leaf stays.
- BPlusSearch.SearchFirst: the search may stop at an internal node that holds a separator copy of k (bplustree.c:110-112), and does not go on to the leaf. `SearchFirst` states this.
- The deletion routines are the B-tree's, run on B+ nodes. A borrow or merge at the leaf level moves the parent's separator into a leaf as a key, and drops a leaf key into the parent. Merge leaves `next` untouched, so the leaf chain still runs through the freed sibling. The model keeps all of this as written. It proves only the arena invariant, which gives memory safety and termination, and the local effects above.
- Left out for the B+ tree: any ordering, key-set or leaf-chain invariant for deletion. Such an invariant does not hold for the code as written.
- BPlusArena.BPlusTree.Merge: when a borrow has put one shared child into two adjacent slots, the child and the sibling can be the same record. `MergeEffect` covers that case, but `free(sibling)` would then free the live child. That is not modelled, since free drops only the reference.
- BPlusArena.BPlusTree.DeleteNode: requires the node to have room (`Roomy`): a non-root node must hold at least T keys. This is what the descent itself ensures: the root is called from delete, and every child only after adjustment.
- No ordering invariant is claimed for B+ insertion beyond `LeafPutKeys` and `InsertLands`. The separators are copies, and ordering over a shared child there is left out.
