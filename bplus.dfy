// The B+ tree of bplustree.c as a class over an arena of node records:
// every routine of the core is a method that changes the records in place,
// loop by loop, and is proved to leave exactly the records the functions of
// bplus_insert.dfy, bplus_delete.dfy and bplus_search.dfy describe, with the
// arena invariant of bplus_heap.dfy kept throughout.
module BPlusArena {
  import opened Shifts
  import opened SortedSeqs
  import opened BPlusHeap
  import opened BPlusInsert
  import opened BPlusDelete
  import opened BPlusSearch

  /** The nodes malloc has handed out (heap[p] is the node p points to),
      the *root variable that insert and delete take by reference, and the
      ghost levels of the nodes and height of the tree. */
  class BPlusTree {
    var heap: Heap
    var root: Ptr
    ghost var rank: seq<nat>
    ghost var height: nat

    /** root is NULL, or the arena invariant holds with root at the top,
        and the root holds a key unless it is a leaf. */
    ghost predicate Valid()
      reads this
    {
      && |rank| == |heap|
      && (root != NULL ==> Arena(heap, rank, root, height) && (heap[root].leaf || heap[root].n >= 1))
    }

    /** The start of main (bplustree.c:301): root = createNode(1), an empty
        leaf. */
    constructor ()
      ensures Valid() && root == 0 && heap == [NewRec(true)] && height == 0
    {
      heap, rank, root, height := [], [], NULL, 0;
      new;
      var r := CreateNode(true);
      root := r;
      rank := [0];
      assert Good(heap, rank, root, height, 0);
    }

    // -------------------------------------------------------------------
    // Writes to one field of one record
    // -------------------------------------------------------------------

    method SetKey(p: Ptr, j: int, v: int)
      requires 0 <= p < |heap| && Fits(heap[p]) && 0 <= j < 2 * T
      modifies this
      ensures heap == old(heap)[p := old(heap)[p].(keys := old(heap)[p].keys[j := v])]
      ensures rank == old(rank) && root == old(root) && height == old(height)
    {
      heap := heap[p := heap[p].(keys := heap[p].keys[j := v])];
    }

    method SetChild(p: Ptr, j: int, c: Ptr)
      requires 0 <= p < |heap| && Fits(heap[p]) && 0 <= j < 2 * T + 1
      modifies this
      ensures heap == old(heap)[p := old(heap)[p].(C := old(heap)[p].C[j := c])]
      ensures rank == old(rank) && root == old(root) && height == old(height)
    {
      heap := heap[p := heap[p].(C := heap[p].C[j := c])];
    }

    method SetN(p: Ptr, m: int)
      requires 0 <= p < |heap| && Fits(heap[p]) && 0 <= m <= 2 * T
      modifies this
      ensures heap == old(heap)[p := old(heap)[p].(n := m)]
      ensures rank == old(rank) && root == old(root) && height == old(height)
    {
      heap := heap[p := heap[p].(n := m)];
    }

    method SetNext(p: Ptr, q: Ptr)
      requires 0 <= p < |heap|
      modifies this
      ensures heap == old(heap)[p := old(heap)[p].(next := q)]
      ensures rank == old(rank) && root == old(root) && height == old(height)
    {
      heap := heap[p := heap[p].(next := q)];
    }

    /** createNode(leaf) (bplustree.c:17-26): a fresh record with no keys,
        every child slot NULL and no next leaf. Its level is set by the
        caller. */
    method CreateNode(leaf: bool) returns (p: Ptr)
      modifies this
      ensures p == |old(heap)| && heap == old(heap) + [NewRec(leaf)]
      ensures rank == old(rank) && root == old(root) && height == old(height)
    {
      var c: seq<Ptr> := [];
      for i := 0 to 2 * T + 1
        invariant c == seq(i, _ => NULL)
      {
        c := c + [NULL];
      }
      p := |heap|;
      heap := heap + [Rec(seq(2 * T, _ => 0), c, 0, leaf, NULL)];
    }

    // -------------------------------------------------------------------
    // The index loops (bplustree.c:33-53, 121-123, 133-141, 167-175,
    // 188-204)
    // -------------------------------------------------------------------

    /** for (i = hi - 1; i >= lo; i--) p->keys[i + 1] = p->keys[i]; the
        loops here work on the node's array and store it back at the end. */
    method ShiftKeysRight(p: Ptr, lo: int, hi: int)
      requires 0 <= p < |heap| && Fits(heap[p]) && 0 <= lo <= hi < 2 * T
      modifies this
      ensures heap == old(heap)[p := old(heap)[p].(keys := ShiftR(old(heap)[p].keys, lo, hi))]
      ensures rank == old(rank) && root == old(root) && height == old(height)
    {
      var a := heap[p].keys;
      ghost var s := a;
      var j := hi - 1;
      while j >= lo
        modifies {}
        invariant lo - 1 <= j <= hi - 1 && |a| == |s|
        invariant forall t {:trigger a[t]} :: 0 <= t <= j + 1 ==> a[t] == s[t]
        invariant forall t {:trigger a[t]} :: j + 1 < t <= hi ==> a[t] == s[t - 1]
        invariant forall t {:trigger a[t]} :: hi < t < |s| ==> a[t] == s[t]
      {
        a := a[j + 1 := a[j]];
        j := j - 1;
      }
      assert a == ShiftR(s, lo, hi);
      heap := heap[p := heap[p].(keys := a)];
    }

    /** for (i = hi - 1; i >= lo; i--) p->C[i + 1] = p->C[i]. */
    method ShiftChildrenRight(p: Ptr, lo: int, hi: int)
      requires 0 <= p < |heap| && Fits(heap[p]) && 0 <= lo <= hi < 2 * T + 1
      modifies this
      ensures heap == old(heap)[p := old(heap)[p].(C := ShiftR(old(heap)[p].C, lo, hi))]
      ensures rank == old(rank) && root == old(root) && height == old(height)
    {
      var a := heap[p].C;
      ghost var s := a;
      var j := hi - 1;
      while j >= lo
        modifies {}
        invariant lo - 1 <= j <= hi - 1 && |a| == |s|
        invariant forall t {:trigger a[t]} :: 0 <= t <= j + 1 ==> a[t] == s[t]
        invariant forall t {:trigger a[t]} :: j + 1 < t <= hi ==> a[t] == s[t - 1]
        invariant forall t {:trigger a[t]} :: hi < t < |s| ==> a[t] == s[t]
      {
        a := a[j + 1 := a[j]];
        j := j - 1;
      }
      assert a == ShiftR(s, lo, hi);
      heap := heap[p := heap[p].(C := a)];
    }

    /** for (i = lo + 1; i < hi; i++) p->keys[i - 1] = p->keys[i]. */
    method ShiftKeysLeft(p: Ptr, lo: int, hi: int)
      requires 0 <= p < |heap| && Fits(heap[p]) && 0 <= lo < hi <= 2 * T
      modifies this
      ensures heap == old(heap)[p := old(heap)[p].(keys := ShiftL(old(heap)[p].keys, lo, hi))]
      ensures rank == old(rank) && root == old(root) && height == old(height)
    {
      var a := heap[p].keys;
      ShiftLNone(a, lo);
      for j := lo + 1 to hi
        modifies {}
        invariant a == ShiftL(heap[p].keys, lo, j)
      {
        ShiftLStep(heap[p].keys, lo, j);
        a := a[j - 1 := a[j]];
      }
      heap := heap[p := heap[p].(keys := a)];
    }

    /** for (i = lo + 1; i < hi; i++) p->C[i - 1] = p->C[i]. */
    method ShiftChildrenLeft(p: Ptr, lo: int, hi: int)
      requires 0 <= p < |heap| && Fits(heap[p]) && 0 <= lo < hi <= 2 * T + 1
      modifies this
      ensures heap == old(heap)[p := old(heap)[p].(C := ShiftL(old(heap)[p].C, lo, hi))]
      ensures rank == old(rank) && root == old(root) && height == old(height)
    {
      var a := heap[p].C;
      ShiftLNone(a, lo);
      for j := lo + 1 to hi
        modifies {}
        invariant a == ShiftL(heap[p].C, lo, j)
      {
        ShiftLStep(heap[p].C, lo, j);
        a := a[j - 1 := a[j]];
      }
      heap := heap[p := heap[p].(C := a)];
    }

    /** for (j = 0; j < m; j++) p->keys[at + j] = q->keys[from + j]. The
        loop reads q as it was before the loop; that is what C does too,
        since the slots it reads are never the ones it writes. */
    method CopyKeys(p: Ptr, at: int, q: Ptr, from: int, m: int)
      requires 0 <= p < |heap| && 0 <= q < |heap| && Fits(heap[p]) && Fits(heap[q])
      requires 0 <= at && 0 <= m && at + m <= 2 * T && 0 <= from && from + m <= 2 * T
      requires p != q || from + m <= at
      modifies this
      ensures heap == old(heap)[p := old(heap)[p].(keys := Blit(old(heap)[p].keys, at, old(heap)[q].keys, from, m))]
      ensures rank == old(rank) && root == old(root) && height == old(height)
    {
      var a := heap[p].keys;
      BlitNone(a, at, heap[q].keys, from);
      for j := 0 to m
        modifies {}
        invariant a == Blit(heap[p].keys, at, heap[q].keys, from, j)
      {
        BlitStep(heap[p].keys, at, heap[q].keys, from, j);
        a := a[at + j := heap[q].keys[from + j]];
      }
      heap := heap[p := heap[p].(keys := a)];
    }

    /** for (j = 0; j < m; j++) p->C[at + j] = q->C[from + j]. */
    method CopyChildren(p: Ptr, at: int, q: Ptr, from: int, m: int)
      requires 0 <= p < |heap| && 0 <= q < |heap| && Fits(heap[p]) && Fits(heap[q])
      requires 0 <= at && 0 <= m && at + m <= 2 * T + 1 && 0 <= from && from + m <= 2 * T + 1
      requires p != q || from + m <= at
      modifies this
      ensures heap == old(heap)[p := old(heap)[p].(C := Blit(old(heap)[p].C, at, old(heap)[q].C, from, m))]
      ensures rank == old(rank) && root == old(root) && height == old(height)
    {
      var a := heap[p].C;
      BlitNone(a, at, heap[q].C, from);
      for j := 0 to m
        modifies {}
        invariant a == Blit(heap[p].C, at, heap[q].C, from, j)
      {
        BlitStep(heap[p].C, at, heap[q].C, from, j);
        a := a[at + j := heap[q].C[from + j]];
      }
      heap := heap[p := heap[p].(C := a)];
    }

    /** The scan of search and deleteNode (bplustree.c:107-109, 229-232):
        idx goes up past every key below k. */
    method ScanUp(x: Ptr, k: int) returns (idx: int)
      requires 0 <= x < |heap| && Fits(heap[x])
      ensures idx == LowerIdx(heap[x].keys[..heap[x].n], k) && 0 <= idx <= heap[x].n
    {
      ghost var s := heap[x].keys[..heap[x].n];
      idx := 0;
      while idx < heap[x].n && heap[x].keys[idx] < k
        invariant 0 <= idx <= heap[x].n
        invariant forall t :: 0 <= t < idx ==> s[t] < k
      {
        idx := idx + 1;
      }
      LowerIdxAt(s, k, idx);
    }

    // -------------------------------------------------------------------
    // Insertion (bplustree.c:29-102)
    // -------------------------------------------------------------------

    /** bplustree.c:30-41: z = createNode(y->leaf) takes over the upper T
        keys of y and, when y is internal, its upper T+1 children. */
    method NewHalf(y: Ptr) returns (z: Ptr)
      requires 0 <= y < |heap| && Fits(heap[y])
      modifies this
      ensures z == |old(heap)| && heap == old(heap) + [SplitZ(old(heap)[y])]
      ensures rank == old(rank) && root == old(root) && height == old(height)
    {
      z := CreateNode(heap[y].leaf);
      SetN(z, T);
      CopyKeys(z, 0, y, T, T);
      if !heap[y].leaf {
        CopyChildren(z, 0, y, T, T + 1);
      }
    }

    /** bplustree.c:45-56: x opens child slot i+1 for z and key slot i for
        the median m. */
    method OpenParent(x: Ptr, i: int, z: Ptr, m: int)
      requires 0 <= x < |heap| && Fits(heap[x]) && heap[x].n < 2 * T && 0 <= i <= heap[x].n
      modifies this
      ensures heap == old(heap)[x := SplitX(old(heap)[x], i, z, m)]
      ensures rank == old(rank) && root == old(root) && height == old(height)
    {
      var n := heap[x].n;
      ShiftChildrenRight(x, i + 1, n + 1);
      SetChild(x, i + 1, z);
      ShiftKeysRight(x, i, n);
      SetKey(x, i, m);
      SetN(x, n + 1);
    }

    /** splitChild(x, i, x->C[i]) (bplustree.c:29-62): the records become
        SplitHeap, and z gets y's level. */
    method SplitChild(x: Ptr, i: int)
      requires |rank| == |heap| && CanSplit(heap, x, i)
      modifies this
      ensures heap == SplitHeap(old(heap), x, i) && rank == old(rank) + [old(rank)[old(heap)[x].C[i]]]
      ensures root == old(root) && height == old(height)
    {
      ghost var h0 := heap;
      var y := heap[x].C[i];
      var z := NewHalf(y);
      SetN(y, T);
      OpenParent(x, i, z, heap[y].keys[T]);
      assert heap == SplitCore(h0, x, i);
      if heap[y].leaf {
        SetNext(z, heap[y].next);
        SetNext(y, z);
      }
      rank := rank + [rank[y]];
    }

    /** The leaf branch of insertNonFull (bplustree.c:68-74): scanning from
        the right, every key greater than k moves one slot right, and k goes
        into the gap. */
    method LeafInsert(x: Ptr, k: int)
      requires 0 <= x < |heap| && Fits(heap[x]) && heap[x].n < 2 * T
      modifies this
      ensures heap == old(heap)[x := LeafPut(old(heap)[x], k)]
      ensures rank == old(rank) && root == old(root) && height == old(height)
    {
      ghost var r := heap[x];
      var a, i := ScanRight(heap[x].keys, heap[x].n, k);
      LeafPutIs(r, i + 1, k);
      heap := heap[x := heap[x].(keys := a)];
      SetKey(x, i + 1, k);
      SetN(x, heap[x].n + 1);
    }

    /** The scan of the internal branch (bplustree.c:76-78): i goes down
        past every key greater than k, and i + 1 is the child k belongs in. */
    method ScanDown(x: Ptr, k: int) returns (i: int)
      requires 0 <= x < |heap| && Fits(heap[x])
      ensures -1 <= i < heap[x].n && i + 1 == UpperIdx(heap[x].keys[..heap[x].n], k)
    {
      ghost var s := heap[x].keys[..heap[x].n];
      i := heap[x].n - 1;
      while i >= 0 && heap[x].keys[i] > k
        invariant -1 <= i <= heap[x].n - 1
        invariant forall t :: i < t < heap[x].n ==> s[t] > k
      {
        i := i - 1;
      }
      UpperIdxAt(s, k, i + 1);
    }

    /** insertNonFull(x, k) (bplustree.c:65-87) on a live node with room:
        the records and levels become InsertHeap. */
    method InsertNonFull(x: Ptr, k: int)
      requires Arena(heap, rank, root, height) && Live(heap, rank, height, x) && heap[x].n < 2 * T
      modifies this
      ensures root == old(root) && height == old(height)
      ensures (heap, rank) == InsertHeap(old(heap), old(rank), old(root), old(height), x, k)
      decreases rank[x]
    {
      LiveOk(heap, rank, root, height, x);
      if heap[x].leaf {
        LeafInsert(x, k);
      } else {
        var i := ScanDown(x, k);
        var c := PrepareChild(x, k, i);
        InsertNonFull(c, k);
      }
    }

    /** bplustree.c:79-85: the child C[i+1] that k belongs in is split first
        when it is full, and c is the child insertNonFull goes on to. */
    method PrepareChild(x: Ptr, k: int, i: int) returns (c: Ptr)
      requires Arena(heap, rank, root, height) && Live(heap, rank, height, x) && heap[x].n < 2 * T
      requires Fits(heap[x]) && !heap[x].leaf
      requires -1 <= i < heap[x].n && i + 1 == UpperIdx(heap[x].keys[..heap[x].n], k)
      modifies this
      ensures root == old(root) && height == old(height)
      ensures Arena(heap, rank, root, height) && Live(heap, rank, height, c) && heap[c].n < 2 * T
      ensures rank[c] + 1 == old(rank)[x]
      ensures InsertHeap(old(heap), old(rank), root, height, x, k) == InsertHeap(heap, rank, root, height, c, k)
    {
      Kid(heap, rank, root, height, x, i + 1);
      if heap[heap[x].C[i + 1]].n == 2 * T {
        SplitStep(heap, rank, root, height, x, i + 1, k);
        SplitChild(x, i + 1);
        var j := i + 1;
        if heap[x].keys[i + 1] < k {
          j := i + 2;
        }
        c := heap[x].C[j];
      } else {
        c := heap[x].C[i + 1];
      }
    }

    /** insert(root, k) (bplustree.c:90-102): a root with 2T keys first
        gets a new root s above it, which splits it; then k goes in. The
        records, levels, root and height become InsertRoot, so the tree grows
        a level exactly when the root was full. */
    method Insert(k: int)
      requires Valid() && root != NULL
      modifies this
      ensures Valid() && root != NULL
      ensures (heap, rank, root, height) == InsertRoot(old(heap), old(rank), old(root), old(height), k)
      ensures height == old(height) + 1 <==> old(heap)[old(root)].n == 2 * T
      ensures height == old(height) <==> old(heap)[old(root)].n < 2 * T
    {
      InsertGrowth(heap, rank, root, height, k);
      var r := root;
      if heap[r].n == 2 * T {
        GrowRoot(k);
        InsertNonFull(root, k);
      } else {
        InsertNonFull(r, k);
      }
    }

    /** bplustree.c:93-96: s = createNode(0), *root = s, s->C[0] = r and
        splitChild(s, 0, r); s is one level above r. The key k about to go
        in plays no part here. */
    method GrowRoot(ghost k: int)
      requires Valid() && root != NULL && heap[root].n == 2 * T
      modifies this
      ensures root == |old(heap)| && height == old(height) + 1
      ensures var h1 := GrowHeap(old(heap), old(root));
        && CanSplit(h1, root, 0)
        && heap == SplitHeap(h1, root, 0)
        && rank == GrowRank(old(rank), old(height)) + [GrowRank(old(rank), old(height))[old(root)]]
      ensures Arena(heap, rank, root, height) && Live(heap, rank, height, root) && heap[root].n < 2 * T
    {
      var r := root;
      GrowArena(heap, rank, r, height);
      ghost var h0 := heap;
      var s := CreateNode(false);
      root := s;
      SetChild(s, 0, r);
      assert heap == GrowHeap(h0, r);
      rank := GrowRank(rank, height);
      height := height + 1;
      SplitStep(heap, rank, s, height, s, 0, k);
      SplitChild(s, 0);
    }

    /** search(x, k, &index) (bplustree.c:105-118): the node and index of the
        first node on the way down from x that holds k, or Missing. */
    method Search(x: Ptr, k: int) returns (r: Found)
      requires Valid() && root != NULL && Live(heap, rank, height, x)
      ensures r == BPlusSearch.Search(heap, rank, root, height, x, k)
      decreases rank[x]
    {
      LiveOk(heap, rank, root, height, x);
      var i := ScanUp(x, k);
      if i < heap[x].n && k == heap[x].keys[i] {
        r := Found(x, i);
      } else if heap[x].leaf {
        r := Missing;
      } else {
        Kid(heap, rank, root, height, x, i);
        r := Search(heap[x].C[i], k);
      }
    }

    // -------------------------------------------------------------------
    // Deletion (bplustree.c:121-275)
    // -------------------------------------------------------------------

    /** removeFromLeaf(x, idx) (bplustree.c:121-126). */
    method RemoveFromLeaf(x: Ptr, idx: int)
      requires 0 <= x < |heap| && Fits(heap[x]) && 0 <= idx < heap[x].n
      modifies this
      ensures heap == old(heap)[x := DropKey(old(heap)[x], idx)]
      ensures rank == old(rank) && root == old(root) && height == old(height)
    {
      ShiftKeysLeft(x, idx, heap[x].n);
      SetN(x, heap[x].n - 1);
    }

    /** bplustree.c:133-150 on the child c: its keys and, when it is
        internal, its children move one slot right, the separator m goes
        into key slot 0 and, when the parent is internal, g into child slot
        0. */
    method PrevChildWrite(c: Ptr, m: int, g: Ptr, xleaf: bool)
      requires 0 <= c < |heap| && Fits(heap[c]) && heap[c].n < 2 * T
      modifies this
      ensures heap == old(heap)[c := PrevChild(old(heap)[c], m, g, xleaf)]
      ensures rank == old(rank) && root == old(root) && height == old(height)
    {
      var n := heap[c].n;
      ShiftKeysRight(c, 0, n);
      if !heap[c].leaf {
        ShiftChildrenRight(c, 0, n + 1);
      }
      SetKey(c, 0, m);
      if !xleaf {
        SetChild(c, 0, g);
      }
      SetN(c, n + 1);
    }

    /** borrowFromPrev(x, idx) (bplustree.c:129-152): the records become
        PrevHeap. */
    method BorrowFromPrev(x: Ptr, idx: int)
      requires CanPrev(heap, x, idx)
      modifies this
      ensures heap == PrevHeap(old(heap), x, idx)
      ensures rank == old(rank) && root == old(root) && height == old(height)
    {
      var c, s := heap[x].C[idx], heap[x].C[idx - 1];
      PrevChildWrite(c, heap[x].keys[idx - 1], heap[s].C[heap[s].n], heap[x].leaf);
      SetKey(x, idx - 1, heap[s].keys[heap[s].n - 1]);
      SetN(s, heap[s].n - 1);
    }

    /** bplustree.c:159-163 and 177 on the child c: the separator m goes
        after its keys and, when it is internal, g after its children. */
    method NextChildWrite(c: Ptr, m: int, g: Ptr)
      requires 0 <= c < |heap| && Fits(heap[c]) && heap[c].n < 2 * T
      modifies this
      ensures heap == old(heap)[c := NextChild(old(heap)[c], m, g)]
      ensures rank == old(rank) && root == old(root) && height == old(height)
    {
      var n := heap[c].n;
      SetKey(c, n, m);
      if !heap[c].leaf {
        SetChild(c, n + 1, g);
      }
      SetN(c, n + 1);
    }

    /** bplustree.c:167-175 and 178 on the sibling s: it closes up over its
        first key and, when it is internal, its first child. */
    method NextSibWrite(s: Ptr)
      requires 0 <= s < |heap| && Fits(heap[s]) && heap[s].n >= 1
      modifies this
      ensures heap == old(heap)[s := NextSib(old(heap)[s])]
      ensures rank == old(rank) && root == old(root) && height == old(height)
    {
      var n := heap[s].n;
      ShiftKeysLeft(s, 0, n);
      if !heap[s].leaf {
        ShiftChildrenLeft(s, 0, n + 1);
      }
      SetN(s, n - 1);
    }

    /** borrowFromNext(x, idx) (bplustree.c:155-179): the records become
        NextHeap. */
    method BorrowFromNext(x: Ptr, idx: int)
      requires CanNext(heap, x, idx)
      modifies this
      ensures heap == NextHeap(old(heap), x, idx)
      ensures rank == old(rank) && root == old(root) && height == old(height)
    {
      var c, s := heap[x].C[idx], heap[x].C[idx + 1];
      NextChildWrite(c, heap[x].keys[idx], heap[s].C[0]);
      SetKey(x, idx, heap[s].keys[0]);
      NextSibWrite(s);
    }

    /** bplustree.c:186-196 and 206 on the child c: the separator m goes
        into key slot T-1, then the keys and, when c is internal, the
        children of s follow. c and s may be the same record; the copy then
        reads slots below T-1 only. */
    method MergeChildWrite(c: Ptr, m: int, s: Ptr)
      requires 0 <= c < |heap| && 0 <= s < |heap| && Fits(heap[c]) && Fits(heap[s])
      requires heap[c].n < T && heap[s].n < T
      modifies this
      ensures heap == old(heap)[c := MergeChild(old(heap)[c], m, old(heap)[s])]
      ensures rank == old(rank) && root == old(root) && height == old(height)
    {
      ghost var h0 := heap;
      var sn := heap[s].n;
      SetKey(c, T - 1, m);
      assert heap[s].keys[0..sn] == h0[s].keys[0..sn];
      BlitSrc(heap[c].keys, T, heap[s].keys, h0[s].keys, 0, sn);
      CopyKeys(c, T, s, 0, sn);
      if !heap[c].leaf {
        CopyChildren(c, T, s, 0, sn + 1);
      }
      SetN(c, heap[c].n + sn + 1);
    }

    /** bplustree.c:198-204 and 207: x closes up over key idx and child
        idx+1. */
    method MergeParentWrite(x: Ptr, idx: int)
      requires 0 <= x < |heap| && Fits(heap[x]) && 0 <= idx < heap[x].n
      modifies this
      ensures heap == old(heap)[x := MergeParent(old(heap)[x], idx)]
      ensures rank == old(rank) && root == old(root) && height == old(height)
    {
      var n := heap[x].n;
      ShiftKeysLeft(x, idx, n);
      ShiftChildrenLeft(x, idx + 1, n + 1);
      SetN(x, n - 1);
    }

    /** merge(x, idx) (bplustree.c:182-210): the records become MergeHeap;
        free(sibling) drops the pointer and leaves the record. */
    method Merge(x: Ptr, idx: int)
      requires CanMerge(heap, x, idx)
      modifies this
      ensures heap == MergeHeap(old(heap), x, idx)
      ensures rank == old(rank) && root == old(root) && height == old(height)
    {
      var c, s := heap[x].C[idx], heap[x].C[idx + 1];
      MergeChildWrite(c, heap[x].keys[idx], s);
      MergeParentWrite(x, idx);
    }

    /** adjustAfterDeletion(x, idx) (bplustree.c:213-225) on a thin child:
        the records become AdjustHeap. */
    method AdjustAfterDeletion(x: Ptr, idx: int)
      requires Thin(heap, rank, root, height, x, idx)
      modifies this
      ensures heap == AdjustHeap(old(heap), old(rank), old(root), old(height), x, idx)
      ensures rank == old(rank) && root == old(root) && height == old(height)
    {
      ghost var h0 := heap;
      if idx != 0 && Rich(heap, heap[x].C[idx - 1]) {
        PrevCan(heap, rank, root, height, x, idx);
        BorrowFromPrev(x, idx);
        assert heap == PrevHeap(h0, x, idx);
      } else if idx != heap[x].n && Rich(heap, heap[x].C[idx + 1]) {
        NextCan(heap, rank, root, height, x, idx);
        BorrowFromNext(x, idx);
        assert heap == NextHeap(h0, x, idx);
      } else if idx != heap[x].n {
        MergeNext(heap, rank, root, height, x, idx);
        Merge(x, idx);
        assert heap == MergeHeap(h0, x, idx);
      } else {
        MergePrev(heap, rank, root, height, x, idx);
        Merge(x, idx - 1);
        assert heap == MergeHeap(h0, x, idx - 1);
      }
    }

    /** deleteNode(x, k) (bplustree.c:228-256) on a live node that can lose
        a key: the records become DeleteHeap. */
    method DeleteNode(x: Ptr, k: int)
      requires Arena(heap, rank, root, height) && Live(heap, rank, height, x) && Fits(heap[x]) && Roomy(heap, root, x)
      modifies this
      ensures heap == DeleteHeap(old(heap), old(rank), old(root), old(height), x, k)
      ensures rank == old(rank) && root == old(root) && height == old(height)
      decreases rank[x]
    {
      var idx := ScanUp(x, k);
      if idx < heap[x].n && heap[x].keys[idx] == k {
        if heap[x].leaf {
          RemoveFromLeaf(x, idx);
        }
      } else {
        if heap[x].leaf {
          return;
        }
        var flag := idx == heap[x].n;
        Kid(heap, rank, root, height, x, idx);
        if heap[heap[x].C[idx]].n < T {
          AdjustKeeps(heap, rank, root, height, x, idx);
          AdjustAfterDeletion(x, idx);
        }
        var c;
        if flag && idx > heap[x].n {
          c := heap[x].C[idx - 1];
        } else {
          c := heap[x].C[idx];
        }
        LiveOk(heap, rank, root, height, c);
        DeleteNode(c, k);
      }
    }

    /** delete(root, k) (bplustree.c:259-275): nothing on an empty tree;
        otherwise deleteNode from the root, and a root left without keys
        gives way to NULL when it is a leaf and to its first child when it
        is internal, the tree then one level lower. */
    method Delete(k: int)
      requires Valid()
      modifies this
      ensures Valid() && rank == old(rank)
      ensures old(root) == NULL ==> heap == old(heap) && root == NULL
      ensures old(root) != NULL ==>
        && heap == DeleteHeap(old(heap), old(rank), old(root), old(height), old(root), k)
        && 0 <= old(root) < |heap| && Fits(heap[old(root)])
        && (heap[old(root)].n != 0 ==> root == old(root) && height == old(height))
        && (heap[old(root)].n == 0 && heap[old(root)].leaf ==> root == NULL)
        && (heap[old(root)].n == 0 && !heap[old(root)].leaf ==> root == heap[old(root)].C[0] && height == old(height) - 1)
    {
      if root == NULL {
        return;
      }
      LiveOk(heap, rank, root, height, root);
      DeleteKeeps(heap, rank, root, height, root, k);
      DeleteNode(root, k);
      if heap[root].n == 0 {
        if heap[root].leaf {
          root := NULL;
        } else {
          CollapseArena(heap, rank, root, height);
          root := heap[root].C[0];
          height := height - 1;
        }
      }
    }
  }
}
