// The B-tree of btree.c as a class over an arena of node records: every
// routine of the core is a method that changes the records in place, loop by
// loop, and is proved to leave the tree the value model of btree_model.dfy
// and btree_delete.dfy says it should.
module BTreeArena {
  import opened Shifts
  import opened SortedSeqs
  import opened BTreeModel
  import opened BTreeDelete
  import opened BTreeHeap
  import opened BTreeHeapInsert
  import opened BTreeHeapDelete
  import opened BTreeSearch

  /** The nodes malloc has handed out (heap[p] is the node p points to) and
      the *root variable that insert and delete take by reference. */
  class BTree {
    var heap: Heap
    var root: Ptr
    ghost var fp: seq<set<Ptr>>
    ghost var height: nat

    /** root is NULL, or a tidy pointer tree whose value is a valid B-tree
        of the recorded height. */
    ghost predicate Valid()
      reads this
    {
      && |fp| == |heap|
      && (root != NULL ==> Tidy(heap, fp, root, height) && RootOk(Abs(heap, root, height), height))
    }

    /** The tree the arena stands for. */
    ghost function Model(): (m: Handle)
      reads this
      requires Valid()
      ensures ValidHandle(m) && (m.Null? <==> root == NULL)
    {
      if root == NULL then Null else Root(Abs(heap, root, height), height)
    }

    /** The start of main: root = createNode(1), an empty leaf. */
    constructor ()
      ensures Valid() && Model() == Root(Node([], []), 0)
    {
      heap, fp, root, height := [], [], NULL, 0;
      new;
      var r := CreateNode(true);
      root := r;
      Build(heap, fp, r, 0, []);
    }

    // -------------------------------------------------------------------
    // Writes to one field of one record
    // -------------------------------------------------------------------

    method SetKey(p: Ptr, j: int, v: int)
      requires 0 <= p < |heap| && Fits(heap[p]) && 0 <= j < 2 * T - 1
      modifies this
      ensures heap == old(heap)[p := old(heap)[p].(keys := old(heap)[p].keys[j := v])]
      ensures fp == old(fp) && root == old(root) && height == old(height)
    {
      heap := heap[p := heap[p].(keys := heap[p].keys[j := v])];
    }

    method SetChild(p: Ptr, j: int, c: Ptr)
      requires 0 <= p < |heap| && Fits(heap[p]) && 0 <= j < 2 * T
      modifies this
      ensures heap == old(heap)[p := old(heap)[p].(C := old(heap)[p].C[j := c])]
      ensures fp == old(fp) && root == old(root) && height == old(height)
    {
      heap := heap[p := heap[p].(C := heap[p].C[j := c])];
    }

    method SetN(p: Ptr, m: int)
      requires 0 <= p < |heap| && Fits(heap[p]) && 0 <= m <= 2 * T - 1
      modifies this
      ensures heap == old(heap)[p := old(heap)[p].(n := m)]
      ensures fp == old(fp) && root == old(root) && height == old(height)
    {
      heap := heap[p := heap[p].(n := m)];
    }

    /** createNode(leaf) (btree.c:16-24): a fresh record with no keys and
        every child slot NULL; it owns only itself. */
    method CreateNode(leaf: bool) returns (p: Ptr)
      modifies this
      ensures p == |old(heap)| && heap == old(heap) + [NewRec(leaf)]
      ensures fp == old(fp) + [{p}] && root == old(root) && height == old(height)
    {
      var c: seq<Ptr> := [];
      for i := 0 to 2 * T
        invariant c == seq(i, _ => NULL)
      {
        c := c + [NULL];
      }
      p := |heap|;
      heap := heap + [Rec(seq(2 * T - 1, _ => 0), c, 0, leaf)];
      fp := fp + [{p}];
    }

    // -------------------------------------------------------------------
    // The index loops (btree.c:31-52, 62-66, 119-127, 153-161, 175-190, 236-238)
    // -------------------------------------------------------------------

    /** for (j = hi - 1; j >= lo; j--) p->keys[j + 1] = p->keys[j]; the
        loops here work on the node's array and store it back at the end. */
    method ShiftKeysRight(p: Ptr, lo: int, hi: int)
      requires 0 <= p < |heap| && Fits(heap[p]) && 0 <= lo <= hi < 2 * T - 1
      modifies this
      ensures heap == old(heap)[p := old(heap)[p].(keys := ShiftR(old(heap)[p].keys, lo, hi))]
      ensures fp == old(fp) && root == old(root) && height == old(height)
    {
      var a := heap[p].keys;
      ghost var s := a;
      var j := hi - 1;
      while j >= lo
        modifies {}
        invariant lo - 1 <= j <= hi - 1 && |a| == |s|
        invariant forall t {:trigger a[t]} :: 0 <= t <= j + 1 ==> a[t] == s[t]
        invariant forall t {:trigger a[t]} :: j + 1 < t <= hi ==> a[t] == s[t - 1]
        invariant forall t {:trigger a[t]} :: hi < t < |s| ==> a[t] == s[t]
      {
        a := a[j + 1 := a[j]];
        j := j - 1;
      }
      assert a == ShiftR(s, lo, hi);
      heap := heap[p := heap[p].(keys := a)];
    }

    /** for (j = hi - 1; j >= lo; j--) p->C[j + 1] = p->C[j]. */
    method ShiftChildrenRight(p: Ptr, lo: int, hi: int)
      requires 0 <= p < |heap| && Fits(heap[p]) && 0 <= lo <= hi < 2 * T
      modifies this
      ensures heap == old(heap)[p := old(heap)[p].(C := ShiftR(old(heap)[p].C, lo, hi))]
      ensures fp == old(fp) && root == old(root) && height == old(height)
    {
      var a := heap[p].C;
      ghost var s := a;
      var j := hi - 1;
      while j >= lo
        modifies {}
        invariant lo - 1 <= j <= hi - 1 && |a| == |s|
        invariant forall t {:trigger a[t]} :: 0 <= t <= j + 1 ==> a[t] == s[t]
        invariant forall t {:trigger a[t]} :: j + 1 < t <= hi ==> a[t] == s[t - 1]
        invariant forall t {:trigger a[t]} :: hi < t < |s| ==> a[t] == s[t]
      {
        a := a[j + 1 := a[j]];
        j := j - 1;
      }
      assert a == ShiftR(s, lo, hi);
      heap := heap[p := heap[p].(C := a)];
    }

    /** for (j = lo + 1; j < hi; j++) p->keys[j - 1] = p->keys[j]. */
    method ShiftKeysLeft(p: Ptr, lo: int, hi: int)
      requires 0 <= p < |heap| && Fits(heap[p]) && 0 <= lo < hi <= 2 * T - 1
      modifies this
      ensures heap == old(heap)[p := old(heap)[p].(keys := ShiftL(old(heap)[p].keys, lo, hi))]
      ensures fp == old(fp) && root == old(root) && height == old(height)
    {
      var a := heap[p].keys;
      ShiftLNone(a, lo);
      for j := lo + 1 to hi
        modifies {}
        invariant a == ShiftL(heap[p].keys, lo, j)
      {
        ShiftLStep(heap[p].keys, lo, j);
        a := a[j - 1 := a[j]];
      }
      heap := heap[p := heap[p].(keys := a)];
    }

    /** for (j = lo + 1; j < hi; j++) p->C[j - 1] = p->C[j]. */
    method ShiftChildrenLeft(p: Ptr, lo: int, hi: int)
      requires 0 <= p < |heap| && Fits(heap[p]) && 0 <= lo < hi <= 2 * T
      modifies this
      ensures heap == old(heap)[p := old(heap)[p].(C := ShiftL(old(heap)[p].C, lo, hi))]
      ensures fp == old(fp) && root == old(root) && height == old(height)
    {
      var a := heap[p].C;
      ShiftLNone(a, lo);
      for j := lo + 1 to hi
        modifies {}
        invariant a == ShiftL(heap[p].C, lo, j)
      {
        ShiftLStep(heap[p].C, lo, j);
        a := a[j - 1 := a[j]];
      }
      heap := heap[p := heap[p].(C := a)];
    }

    /** for (j = 0; j < m; j++) p->keys[at + j] = q->keys[from + j], reading
        q as it was before the loop (q is another node at every call). */
    method CopyKeys(p: Ptr, at: int, q: Ptr, from: int, m: int)
      requires 0 <= p < |heap| && 0 <= q < |heap| && Fits(heap[p]) && Fits(heap[q])
      requires 0 <= at && 0 <= m && at + m <= 2 * T - 1 && 0 <= from && from + m <= 2 * T - 1
      modifies this
      ensures heap == old(heap)[p := old(heap)[p].(keys := Blit(old(heap)[p].keys, at, old(heap)[q].keys, from, m))]
      ensures fp == old(fp) && root == old(root) && height == old(height)
    {
      var a := heap[p].keys;
      BlitNone(a, at, heap[q].keys, from);
      for j := 0 to m
        modifies {}
        invariant a == Blit(heap[p].keys, at, heap[q].keys, from, j)
      {
        BlitStep(heap[p].keys, at, heap[q].keys, from, j);
        a := a[at + j := heap[q].keys[from + j]];
      }
      heap := heap[p := heap[p].(keys := a)];
    }

    /** for (j = 0; j < m; j++) p->C[at + j] = q->C[from + j]. */
    method CopyChildren(p: Ptr, at: int, q: Ptr, from: int, m: int)
      requires 0 <= p < |heap| && 0 <= q < |heap| && Fits(heap[p]) && Fits(heap[q])
      requires 0 <= at && 0 <= m && at + m <= 2 * T && 0 <= from && from + m <= 2 * T
      modifies this
      ensures heap == old(heap)[p := old(heap)[p].(C := Blit(old(heap)[p].C, at, old(heap)[q].C, from, m))]
      ensures fp == old(fp) && root == old(root) && height == old(height)
    {
      var a := heap[p].C;
      BlitNone(a, at, heap[q].C, from);
      for j := 0 to m
        modifies {}
        invariant a == Blit(heap[p].C, at, heap[q].C, from, j)
      {
        BlitStep(heap[p].C, at, heap[q].C, from, j);
        a := a[at + j := heap[q].C[from + j]];
      }
      heap := heap[p := heap[p].(C := a)];
    }

    // -------------------------------------------------------------------
    // Insertion (btree.c:27-95)
    // -------------------------------------------------------------------

    /** btree.c:29-38: z = createNode(y->leaf) takes over the upper T-1 keys
        of y and, when y is internal, its upper T children. */
    method NewHalf(y: Ptr) returns (z: Ptr)
      requires 0 <= y < |heap| && Fits(heap[y])
      modifies this
      ensures z == |old(heap)| && heap == old(heap) + [SplitZ(old(heap)[y])]
      ensures fp == old(fp) + [{z}] && root == old(root) && height == old(height)
    {
      z := CreateNode(heap[y].leaf);
      SetN(z, T - 1);
      CopyKeys(z, 0, y, T, T - 1);
      if !heap[y].leaf {
        CopyChildren(z, 0, y, T, T);
      }
    }

    /** btree.c:43-54: x opens child slot i+1 for z and key slot i for the
        median m. */
    method OpenParent(x: Ptr, i: int, z: Ptr, m: int)
      requires 0 <= x < |heap| && Fits(heap[x]) && heap[x].n < 2 * T - 1 && 0 <= i <= heap[x].n
      modifies this
      ensures heap == old(heap)[x := SplitX(old(heap)[x], i, z, m)]
      ensures fp == old(fp) && root == old(root) && height == old(height)
    {
      var n := heap[x].n;
      ShiftChildrenRight(x, i + 1, n + 1);
      SetChild(x, i + 1, z);
      ShiftKeysRight(x, i, n);
      SetKey(x, i, m);
      SetN(x, n + 1);
    }

    /** splitChild(x, i, x->C[i]) (btree.c:27-55). */
    method SplitChild(x: Ptr, i: int)
      requires |fp| == |heap| && CanSplit(heap, x, i)
      modifies this
      ensures heap == SplitHeap(old(heap), x, i) && fp == SplitFp(old(heap), old(fp), x, i)
      ensures root == old(root) && height == old(height)
    {
      ghost var h0, fp0 := heap, fp;
      var y := heap[x].C[i];
      var z := NewHalf(y);
      SetN(y, T - 1);
      OpenParent(x, i, z, heap[y].keys[T - 1]);
      fp := SplitFp(h0, fp0, x, i);
    }

    /** The leaf branch of insertNonFull (btree.c:61-67): scanning from the
        right, every key greater than k moves one slot right, and k goes into
        the gap. */
    method LeafInsert(x: Ptr, k: int)
      requires 0 <= x < |heap| && Fits(heap[x]) && heap[x].n < 2 * T - 1
      modifies this
      ensures heap == old(heap)[x := LeafPut(old(heap)[x], k)]
      ensures fp == old(fp) && root == old(root) && height == old(height)
    {
      ghost var r := heap[x];
      var a, i := ScanRight(heap[x].keys, heap[x].n, k);
      LeafPutIs(r, i + 1, k);
      heap := heap[x := heap[x].(keys := a)];
      SetKey(x, i + 1, k);
      SetN(x, heap[x].n + 1);
    }

    /** The scan of the internal branch (btree.c:69-71): i goes down past
        every key greater than k, and i + 1 is the child k belongs in. */
    method ScanDown(x: Ptr, k: int) returns (i: int)
      requires 0 <= x < |heap| && Fits(heap[x])
      ensures -1 <= i < heap[x].n && i + 1 == UpperIdx(heap[x].keys[..heap[x].n], k)
    {
      ghost var s := heap[x].keys[..heap[x].n];
      i := heap[x].n - 1;
      while i >= 0 && heap[x].keys[i] > k
        invariant -1 <= i <= heap[x].n - 1
        invariant forall t :: i < t < heap[x].n ==> s[t] > k
      {
        i := i - 1;
      }
      UpperIdxAt(s, k, i + 1);
    }

    /** insertNonFull(x, k) (btree.c:58-80) on a node that stands for a
        non-full X: afterwards it stands for InsertNonFull(X, k, d), and only
        records under x and fresh records have changed. */
    method InsertNonFull(x: Ptr, k: int, ghost d: nat, ghost X: Tree)
      requires |fp| == |heap| && Stands(heap, fp, x, d, X) && WellShaped(X, d) && |X.keys| < 2 * T - 1
      modifies this
      ensures Stands(heap, fp, x, d, BTreeModel.InsertNonFull(X, k, d))
      ensures Same(old(heap), old(fp), heap, fp, old(fp)[x])
      ensures Inside(fp[x], old(fp)[x], |old(heap)|)
      ensures root == old(root) && height == old(height)
      decreases d, 1
    {
      if heap[x].leaf {
        LeafPutRefines(heap, fp, x, X, k);
        LeafInsert(x, k);
      } else {
        var i := ScanDown(x, k);
        var j, X1 := PrepareChild(x, k, d, X, i);
        ghost var h1, fp1 := heap, fp;
        Deeper(x, k, d, X1, j);
        SameTrans(old(heap), old(fp), h1, fp1, heap, fp, old(fp)[x], fp1[x]);
      }
    }

    /** btree.c:72-77: the child C[i+1] that k belongs in is split first if
        it is full, and then j is the child to descend into. */
    method PrepareChild(x: Ptr, k: int, ghost d: nat, ghost X: Tree, i: int) returns (j: int, ghost X1: Tree)
      requires |fp| == |heap| && Stands(heap, fp, x, d, X) && WellShaped(X, d) && |X.keys| < 2 * T - 1 && d > 0
      requires -1 <= i < heap[x].n && i + 1 == UpperIdx(X.keys, k)
      modifies this
      ensures |fp| == |heap| && Stands(heap, fp, x, d, X1) && WellShaped(X1, d)
      ensures 0 <= j <= heap[x].n && |X1.children[j].keys| < 2 * T - 1
      ensures Descend(X1, j, k, d) == BTreeModel.InsertNonFull(X, k, d)
      ensures Same(old(heap), old(fp), heap, fp, old(fp)[x]) && Inside(fp[x], old(fp)[x], |old(heap)|)
      ensures root == old(root) && height == old(height)
    {
      j := i + 1;
      X1 := X;
      ChildStands(heap, fp, x, d, X, j);
      ChildOf(X, d, j);
      if heap[heap[x].C[j]].n == 2 * T - 1 {
        SplitFull(x, j, d, X);
        X1 := BTreeModel.SplitChild(X, j);
        if heap[x].keys[j] < k {
          j := j + 1;
        }
        InsertNonFullSplit(X, k, d, i + 1, j);
      } else {
        InsertNonFullKeep(X, k, d, j);
      }
      InsideGrown(old(fp)[x], fp[x], |old(heap)|);
    }

    /** splitChild(x, j, x->C[j]) on a node that stands for X whose child j
        is full: x then stands for SplitChild(X, j). */
    method SplitFull(x: Ptr, j: int, ghost d: nat, ghost X: Tree)
      requires |fp| == |heap| && Stands(heap, fp, x, d, X) && WellShaped(X, d) && |X.keys| < 2 * T - 1 && d > 0
      requires 0 <= j <= heap[x].n && heap[heap[x].C[j]].n == 2 * T - 1
      modifies this
      ensures |X.children| == |X.keys| + 1 && j < |X.children| && Full(X.children[j])
      ensures |fp| == |heap| && Stands(heap, fp, x, d, BTreeModel.SplitChild(X, j))
      ensures WellShaped(BTreeModel.SplitChild(X, j), d)
      ensures |BTreeModel.SplitChild(X, j).children[j].keys| == T - 1 == |BTreeModel.SplitChild(X, j).children[j + 1].keys|
      ensures Same(old(heap), old(fp), heap, fp, old(fp)[x]) && fp[x] == old(fp)[x] + {|old(heap)|}
      ensures root == old(root) && height == old(height)
    {
      ChildStands(heap, fp, x, d, X, j);
      ChildOf(X, d, j);
      SplitRefines(heap, fp, x, d, X, j);
      SplitChild(x, j);
      SplitChildShape(X, j, d);
    }

    /** The recursive call insertNonFull(x->C[j], k) (btree.c:78) seen from
        x: x then stands for Descend(X, j, k, d). */
    method Deeper(x: Ptr, k: int, ghost d: nat, ghost X: Tree, j: int)
      requires |fp| == |heap| && Stands(heap, fp, x, d, X) && WellShaped(X, d) && d > 0
      requires 0 <= j <= heap[x].n && |X.children[j].keys| < 2 * T - 1
      modifies this
      ensures Stands(heap, fp, x, d, Descend(X, j, k, d))
      ensures Same(old(heap), old(fp), heap, fp, old(fp)[x])
      ensures Inside(fp[x], old(fp)[x], |old(heap)|)
      ensures root == old(root) && height == old(height)
      decreases d, 0
    {
      var c := heap[x].C[j];
      ChildStands(heap, fp, x, d, X, j);
      ChildOf(X, d, j);
      ghost var h1, fp1 := heap, fp;
      InsertNonFull(c, k, d - 1, X.children[j]);
      Descent(h1, fp1, heap, fp, x, d, X, j, BTreeModel.InsertNonFull(X.children[j], k, d - 1));
      fp := fp[x := fp[x] + fp[c]];
    }

    /** insert(root, k) (btree.c:83-95): a full root first grows a new root
        above it, which splits it; then k goes in. The tree afterwards is
        Insert of the value model, holding k besides the old keys. */
    method Insert(k: int)
      requires Valid() && root != NULL
      modifies this
      ensures Valid() && root != NULL
      ensures Model() == Root(BTreeModel.Insert(old(Model()).tree, k, old(height)), InsertHeight(old(Model()).tree, old(height)))
      ensures Elements(Model()) == InsertKey(Elements(old(Model())), k)
    {
      ghost var t, d := Abs(heap, root, height), height;
      ghost var r := InsertTree(k, t);
      InsertCorrect(t, k, d);
    }

    /** The body of insert on a root that stands for t; afterwards the root
        stands for r, which is Insert of the value model. */
    method InsertTree(k: int, ghost t: Tree) returns (ghost r: Tree)
      requires |fp| == |heap| && root != NULL && Stands(heap, fp, root, height, t) && WellShaped(t, height)
      modifies this
      ensures |fp| == |heap| && root != NULL && height == InsertHeight(t, old(height))
      ensures r == BTreeModel.Insert(t, k, old(height)) && Stands(heap, fp, root, height, r)
    {
      if heap[root].n == 2 * T - 1 {
        InsertGrown(t, k, height);
        r := InsertFullRoot(k, t);
      } else {
        InsertDirect(t, k, height);
        r := InsertRoomyRoot(k, t);
      }
    }

    /** btree.c:91-92: the root has room, so k goes into it directly. */
    method InsertRoomyRoot(k: int, ghost t: Tree) returns (ghost r: Tree)
      requires |fp| == |heap| && root != NULL && Stands(heap, fp, root, height, t)
      requires WellShaped(t, height) && |t.keys| < 2 * T - 1
      modifies this
      ensures |fp| == |heap| && root != NULL && height == old(height)
      ensures r == BTreeModel.InsertNonFull(t, k, old(height)) && Stands(heap, fp, root, height, r)
    {
      InsertNonFull(root, k, height, t);
      r := BTreeModel.InsertNonFull(t, k, old(height));
    }

    /** btree.c:85-90: the root is full, so the tree first grows a level,
        into Grow(t); then k goes into that. */
    method InsertFullRoot(k: int, ghost t: Tree) returns (ghost r: Tree)
      requires |fp| == |heap| && root != NULL && Stands(heap, fp, root, height, t)
      requires WellShaped(t, height) && |t.keys| == 2 * T - 1
      requires Full(t) && WellShaped(Node([], [t]), height + 1) && WellShaped(Grow(t), height + 1) && |Grow(t).keys| < 2 * T - 1
      modifies this
      ensures |fp| == |heap| && root != NULL && height == old(height) + 1
      ensures r == BTreeModel.InsertNonFull(Grow(t), k, old(height) + 1) && Stands(heap, fp, root, height, r)
    {
      GrowRoot(t);
      r := InsertRoomyRoot(k, Grow(t));
    }

    /** btree.c:86-90: a full root gets a new root s above it, and s splits
        it; s then stands for Grow(t), one level higher. */
    method GrowRoot(ghost t: Tree)
      requires |fp| == |heap| && root != NULL && Stands(heap, fp, root, height, t)
      requires Full(t) && WellShaped(Node([], [t]), height + 1)
      modifies this
      ensures |fp| == |heap| && root != NULL && height == old(height) + 1
      ensures Stands(heap, fp, root, height, Grow(t))
    {
      NewRoot(t);
      SplitFull(root, 0, height, Node([], [t]));
    }

    /** btree.c:87-89: s = createNode(0), *root = s, s->C[0] = r; s owns
        itself and everything r owns, and stands one level higher. */
    method NewRoot(ghost t: Tree)
      requires |fp| == |heap| && root != NULL && Stands(heap, fp, root, height, t)
      modifies this
      ensures |fp| == |heap| && root == |old(heap)| && height == old(height) + 1
      ensures Stands(heap, fp, root, height, Node([], [t]))
      ensures old(heap)[old(root)].n == 2 * T - 1 ==> CanSplit(heap, root, 0)
    {
      ghost var h0, fp0 := heap, fp;
      var r := root;
      GrowRefines(h0, fp0, r, height, t);
      var s := CreateNode(false);
      root := s;
      SetChild(s, 0, r);
      fp := fp[s := {s} + fp[r]];
      assert heap == GrowHeap(h0, r) && fp == fp0 + [{|h0|} + fp0[r]];
      height := height + 1;
    }
    // -------------------------------------------------------------------
    // getPred and getSucc (btree.c:97-113)
    // -------------------------------------------------------------------

    /** getPred(x, idx): the cursor follows the last child down to a leaf;
        its last key is the largest key of child idx. */
    method GetPred(x: Ptr, idx: int, ghost d: nat, ghost X: Tree) returns (key: int)
      requires Stands(heap, fp, x, d, X) && WellShaped(X, d) && d > 0 && 0 <= idx <= heap[x].n
      ensures key == Rightmost(X.children[idx], d - 1)
    {
      ChildStands(heap, fp, x, d, X, idx);
      ChildOf(X, d, idx);
      var cur := heap[x].C[idx];
      ghost var e: nat, Y: Tree := d - 1, X.children[idx];
      while !heap[cur].leaf
        invariant Stands(heap, fp, cur, e, Y) && WellShaped(Y, e) && |Y.keys| >= 1
        invariant Rightmost(Y, e) == Rightmost(X.children[idx], d - 1)
        decreases e
      {
        PredStep(heap, fp, cur, e, Y);
        cur, e, Y := heap[cur].C[heap[cur].n], e - 1, Y.children[|Y.keys|];
      }
      PredStep(heap, fp, cur, e, Y);
      key := heap[cur].keys[heap[cur].n - 1];
    }

    /** getSucc(x, idx): the cursor follows the first child down to a leaf;
        its first key is the smallest key of child idx+1. */
    method GetSucc(x: Ptr, idx: int, ghost d: nat, ghost X: Tree) returns (key: int)
      requires Stands(heap, fp, x, d, X) && WellShaped(X, d) && d > 0 && 0 <= idx < heap[x].n
      ensures key == Leftmost(X.children[idx + 1], d - 1)
    {
      ChildStands(heap, fp, x, d, X, idx + 1);
      ChildOf(X, d, idx + 1);
      var cur := heap[x].C[idx + 1];
      ghost var e: nat, Y: Tree := d - 1, X.children[idx + 1];
      while !heap[cur].leaf
        invariant Stands(heap, fp, cur, e, Y) && WellShaped(Y, e) && |Y.keys| >= 1
        invariant Leftmost(Y, e) == Leftmost(X.children[idx + 1], d - 1)
        decreases e
      {
        SuccStep(heap, fp, cur, e, Y);
        cur, e, Y := heap[cur].C[0], e - 1, Y.children[0];
      }
      SuccStep(heap, fp, cur, e, Y);
      key := heap[cur].keys[0];
    }
 

    // -------------------------------------------------------------------
    // The rebalancing steps of deletion (btree.c:116-212)
    // -------------------------------------------------------------------

    /** btree.c:120-133 and 137: the child c moves its keys and, when it is
        internal, its children one slot right, takes the separator m into
        key slot 0 and, when the parent is internal, g into child slot 0. */
    method PrevChildWrite(c: Ptr, m: int, g: Ptr, xleaf: bool)
      requires 0 <= c < |heap| && Fits(heap[c]) && heap[c].n < 2 * T - 1
      modifies this
      ensures heap == old(heap)[c := PrevChild(old(heap)[c], m, g, xleaf)]
      ensures fp == old(fp) && root == old(root) && height == old(height)
    {
      var n := heap[c].n;
      ShiftKeysRight(c, 0, n);
      if !heap[c].leaf {
        ShiftChildrenRight(c, 0, n + 1);
      }
      SetKey(c, 0, m);
      if !xleaf {
        SetChild(c, 0, g);
      }
      SetN(c, n + 1);
    }

    /** borrowFromPrev(x, idx) (btree.c:116-139) on a node that stands for
        X: the records become PrevHeap, and x stands for BorrowFromPrev(X,
        idx) inside its old footprint. */
    method BorrowFromPrev(x: Ptr, idx: int, ghost d: nat, ghost X: Tree)
      requires |fp| == |heap| && Stands(heap, fp, x, d, X) && d > 0 && CanPrev(heap, x, idx)
      modifies this
      ensures heap == PrevHeap(old(heap), x, idx) && fp == PrevFp(old(heap), old(fp), x, idx)
      ensures |X.children| == |X.keys| + 1 && NodeShaped(X.children[idx - 1]) && |X.children[idx - 1].keys| >= 1
      ensures Stands(heap, fp, x, d, BTreeDelete.BorrowFromPrev(X, idx))
      ensures Same(old(heap), old(fp), heap, fp, old(fp)[x]) && fp[x] == old(fp)[x]
      ensures root == old(root) && height == old(height)
    {
      PrevRefines(heap, fp, x, d, X, idx);
      ghost var h0, fp0 := heap, fp;
      var c, s := heap[x].C[idx], heap[x].C[idx - 1];
      PrevChildWrite(c, heap[x].keys[idx - 1], heap[s].C[heap[s].n], heap[x].leaf);
      SetKey(x, idx - 1, heap[s].keys[heap[s].n - 1]);
      SetN(s, heap[s].n - 1);
      fp := PrevFp(h0, fp0, x, idx);
    }

    /** btree.c:145-149 and 164: the child c takes the separator m after
        its keys and, when it is internal, g after its children. */
    method NextChildWrite(c: Ptr, m: int, g: Ptr)
      requires 0 <= c < |heap| && Fits(heap[c]) && heap[c].n < 2 * T - 1
      modifies this
      ensures heap == old(heap)[c := NextChild(old(heap)[c], m, g)]
      ensures fp == old(fp) && root == old(root) && height == old(height)
    {
      var n := heap[c].n;
      SetKey(c, n, m);
      if !heap[c].leaf {
        SetChild(c, n + 1, g);
      }
      SetN(c, n + 1);
    }

    /** btree.c:153-161 and 165: the sibling s closes up over its first key
        and, when it is internal, its first child. */
    method NextSibWrite(s: Ptr)
      requires 0 <= s < |heap| && Fits(heap[s]) && heap[s].n >= 1
      modifies this
      ensures heap == old(heap)[s := NextSib(old(heap)[s])]
      ensures fp == old(fp) && root == old(root) && height == old(height)
    {
      var n := heap[s].n;
      ShiftKeysLeft(s, 0, n);
      if !heap[s].leaf {
        ShiftChildrenLeft(s, 0, n + 1);
      }
      SetN(s, n - 1);
    }

    /** borrowFromNext(x, idx) (btree.c:142-166) on a node that stands for
        X: the records become NextHeap, and x stands for BorrowFromNext(X,
        idx) inside its old footprint. */
    method BorrowFromNext(x: Ptr, idx: int, ghost d: nat, ghost X: Tree)
      requires |fp| == |heap| && Stands(heap, fp, x, d, X) && d > 0 && CanNext(heap, x, idx)
      modifies this
      ensures heap == NextHeap(old(heap), x, idx) && fp == NextFp(old(heap), old(fp), x, idx)
      ensures |X.children| == |X.keys| + 1 && NodeShaped(X.children[idx + 1]) && |X.children[idx + 1].keys| >= 1
      ensures Stands(heap, fp, x, d, BTreeDelete.BorrowFromNext(X, idx))
      ensures Same(old(heap), old(fp), heap, fp, old(fp)[x]) && fp[x] == old(fp)[x]
      ensures root == old(root) && height == old(height)
    {
      NextRefines(heap, fp, x, d, X, idx);
      ghost var h0, fp0 := heap, fp;
      var c, s := heap[x].C[idx], heap[x].C[idx + 1];
      NextChildWrite(c, heap[x].keys[idx], heap[s].C[0]);
      SetKey(x, idx, heap[s].keys[0]);
      NextSibWrite(s);
      fp := NextFp(h0, fp0, x, idx);
    }

    /** btree.c:173-183 and 192: the child c takes the separator m into slot
        T-1 and then the keys and, when it is internal, the children of s. */
    method MergeChildWrite(c: Ptr, m: int, s: Ptr)
      requires 0 <= c < |heap| && 0 <= s < |heap| && c != s && Fits(heap[c]) && Fits(heap[s])
      requires heap[c].n == T - 1 && heap[s].n <= T - 1
      modifies this
      ensures heap == old(heap)[c := MergeChild(old(heap)[c], m, old(heap)[s])]
      ensures fp == old(fp) && root == old(root) && height == old(height)
    {
      SetKey(c, T - 1, m);
      CopyKeys(c, T, s, 0, heap[s].n);
      if !heap[c].leaf {
        CopyChildren(c, T, s, 0, heap[s].n + 1);
      }
      SetN(c, heap[c].n + heap[s].n + 1);
    }

    /** btree.c:185-193: x closes up over key idx and child idx+1. */
    method MergeParentWrite(x: Ptr, idx: int)
      requires 0 <= x < |heap| && Fits(heap[x]) && 0 <= idx < heap[x].n
      modifies this
      ensures heap == old(heap)[x := MergeParent(old(heap)[x], idx)]
      ensures fp == old(fp) && root == old(root) && height == old(height)
    {
      var n := heap[x].n;
      ShiftKeysLeft(x, idx, n);
      ShiftChildrenLeft(x, idx + 1, n + 1);
      SetN(x, n - 1);
    }

    /** merge(x, idx) (btree.c:169-197) on a node that stands for X: the
        records become MergeHeap, and x stands for Merge(X, idx) inside its
        old footprint; free(sibling) drops the last reference to the
        sibling's record. */
    method Merge(x: Ptr, idx: int, ghost d: nat, ghost X: Tree)
      requires |fp| == |heap| && Stands(heap, fp, x, d, X) && d > 0 && CanMerge(heap, x, idx)
      modifies this
      ensures heap == MergeHeap(old(heap), x, idx) && fp == MergeFp(old(heap), old(fp), x, idx)
      ensures |X.children| == |X.keys| + 1 && Stands(heap, fp, x, d, BTreeDelete.Merge(X, idx))
      ensures Same(old(heap), old(fp), heap, fp, old(fp)[x]) && fp[x] == old(fp)[x]
      ensures root == old(root) && height == old(height)
    {
      MergeRefines(heap, fp, x, d, X, idx);
      ghost var h0, fp0 := heap, fp;
      var c, s := heap[x].C[idx], heap[x].C[idx + 1];
      MergeChildWrite(c, heap[x].keys[idx], s);
      MergeParentWrite(x, idx);
      fp := MergeFp(h0, fp0, x, idx);
    }

    /** fill(x, idx) (btree.c:200-212) on a node that stands for X whose
        child idx holds fewer than T keys: x then stands for Fill(X, idx),
        and only records under x have changed. */
    method Fill(x: Ptr, idx: int, ghost d: nat, ghost X: Tree)
      requires |fp| == |heap| && Stands(heap, fp, x, d, X) && WellShaped(X, d) && d > 0
      requires 0 <= idx <= heap[x].n && |X.keys| >= 1 && |X.children[idx].keys| < T
      modifies this
      ensures |fp| == |heap| && |heap| == |old(heap)| && Stands(heap, fp, x, d, BTreeDelete.Fill(X, idx, d))
      ensures Same(old(heap), old(fp), heap, fp, old(fp)[x]) && fp[x] == old(fp)[x]
      ensures root == old(root) && height == old(height)
    {
      FillCan(heap, fp, x, d, X, idx);
      if idx != 0 && heap[heap[x].C[idx - 1]].n >= T {
        BorrowFromPrev(x, idx, d, X);
      } else if idx != heap[x].n && heap[heap[x].C[idx + 1]].n >= T {
        BorrowFromNext(x, idx, d, X);
      } else if idx != heap[x].n {
        Merge(x, idx, d, X);
      } else {
        Merge(x, idx - 1, d, X);
      }
    }
 

    // -------------------------------------------------------------------
    // Deletion (btree.c:215-290)
    // -------------------------------------------------------------------

    /** removeFromLeaf(x, idx) (btree.c:235-240): the keys after idx move one
        slot left and the leaf holds one key fewer. */
    method RemoveFromLeaf(x: Ptr, idx: int, ghost X: Tree)
      requires |fp| == |heap| && Stands(heap, fp, x, 0, X) && 0 <= idx < heap[x].n
      modifies this
      ensures heap == old(heap)[x := DropKey(old(heap)[x], idx)] && fp == old(fp)
      ensures 0 <= idx < |X.keys| && Stands(heap, fp, x, 0, BTreeDelete.RemoveFromLeaf(X, idx))
      ensures Same(old(heap), old(fp), heap, fp, old(fp)[x])
      ensures root == old(root) && height == old(height)
    {
      DropRefines(heap, fp, x, X, idx);
      ShiftKeysLeft(x, idx, heap[x].n);
      SetN(x, heap[x].n - 1);
    }

    /** The scan of deleteNode (btree.c:245-247): idx goes up past every key
        less than k. */
    method ScanUp(x: Ptr, k: int) returns (idx: int)
      requires 0 <= x < |heap| && Fits(heap[x])
      ensures idx == LowerIdx(heap[x].keys[..heap[x].n], k)
    {
      ghost var s := heap[x].keys[..heap[x].n];
      idx := 0;
      while idx < heap[x].n && heap[x].keys[idx] < k
        invariant 0 <= idx <= heap[x].n
        invariant forall t :: 0 <= t < idx ==> s[t] < k
      {
        idx := idx + 1;
      }
      LowerIdxAt(s, k, idx);
    }

    /** deleteNode(x, k) (btree.c:243-271) on a node that stands for X:
        afterwards x stands for DeleteNode(X, k, d), and only records under
        x have changed. */
    method DeleteNode(x: Ptr, k: int, ghost d: nat, ghost X: Tree)
      requires |fp| == |heap| && Stands(heap, fp, x, d, X) && WellShaped(X, d) && (d > 0 ==> |X.keys| >= 1)
      modifies this
      ensures |fp| == |heap| && |heap| == |old(heap)| && Stands(heap, fp, x, d, BTreeDelete.DeleteNode(X, k, d))
      ensures Same(old(heap), old(fp), heap, fp, old(fp)[x]) && fp[x] == old(fp)[x]
      ensures root == old(root) && height == old(height)
      decreases d, 2
    {
      var idx := ScanUp(x, k);
      if idx < heap[x].n && heap[x].keys[idx] == k {
        if heap[x].leaf {
          RemoveFromLeaf(x, idx, X);
        } else {
          RemoveFromNonLeaf(x, idx, d, X);
        }
      } else if !heap[x].leaf {
        var flag := idx == heap[x].n;
        ChildStands(heap, fp, x, d, X, idx);
        ghost var X1 := X;
        if heap[heap[x].C[idx]].n < T {
          FillShape(X, idx, d);
          Fill(x, idx, d, X);
          X1 := BTreeDelete.Fill(X, idx, d);
        }
        ghost var h1, fp1 := heap, fp;
        if flag && idx > heap[x].n {
          DeleteChild(x, idx - 1, k, d, X1);
        } else {
          DeleteChild(x, idx, k, d, X1);
        }
        SameTrans(old(heap), old(fp), h1, fp1, heap, fp, old(fp)[x], fp1[x]);
      }
    }

    /** The recursive call deleteNode(x->C[j], k) (btree.c:223, 227, 230,
        266, 268) seen from x, whose child j holds at least T keys: x then stands
        for DeleteChild(X, j, k, d). */
    method DeleteChild(x: Ptr, j: int, k: int, ghost d: nat, ghost X: Tree)
      requires |fp| == |heap| && Stands(heap, fp, x, d, X) && WellShaped(X, d) && d > 0
      requires 0 <= j <= heap[x].n && |X.children[j].keys| >= T
      modifies this
      ensures |fp| == |heap| && |heap| == |old(heap)| && Stands(heap, fp, x, d, BTreeDelete.DeleteChild(X, j, k, d))
      ensures Same(old(heap), old(fp), heap, fp, old(fp)[x]) && fp[x] == old(fp)[x]
      ensures root == old(root) && height == old(height)
      decreases d, 0
    {
      var c := heap[x].C[j];
      ChildStands(heap, fp, x, d, X, j);
      ChildOf(X, d, j);
      ghost var h1, fp1 := heap, fp;
      DeleteNode(c, k, d - 1, X.children[j]);
      Descent(h1, fp1, heap, fp, x, d, X, j, BTreeDelete.DeleteNode(X.children[j], k, d - 1));
      fp := fp[x := fp[x] + fp[c]];
    }

    /** removeFromNonLeaf(x, idx) (btree.c:217-232) on a node that stands
        for X: afterwards x stands for RemoveFromNonLeaf(X, idx, d). */
    method RemoveFromNonLeaf(x: Ptr, idx: int, ghost d: nat, ghost X: Tree)
      requires |fp| == |heap| && Stands(heap, fp, x, d, X) && WellShaped(X, d) && d > 0 && 0 <= idx < heap[x].n
      modifies this
      ensures |fp| == |heap| && |heap| == |old(heap)| && Stands(heap, fp, x, d, BTreeDelete.RemoveFromNonLeaf(X, idx, d))
      ensures Same(old(heap), old(fp), heap, fp, old(fp)[x]) && fp[x] == old(fp)[x]
      ensures root == old(root) && height == old(height)
      decreases d, 1
    {
      var k := heap[x].keys[idx];
      PairRecs(heap, fp, x, d, X, idx);
      if heap[heap[x].C[idx]].n >= T {
        var pred := GetPred(x, idx, d, X);
        RekeyRefines(heap, fp, x, d, X, idx, pred);
        SetKey(x, idx, pred);
        DeleteChild(x, idx, pred, d, Node(X.keys[idx := pred], X.children));
      } else if heap[heap[x].C[idx + 1]].n >= T {
        var succ := GetSucc(x, idx, d, X);
        RekeyRefines(heap, fp, x, d, X, idx, succ);
        SetKey(x, idx, succ);
        DeleteChild(x, idx + 1, succ, d, Node(X.keys[idx := succ], X.children));
      } else {
        ChildOf(X, d, idx);
        ChildOf(X, d, idx + 1);
        MergeShape(X, idx, d);
        Merge(x, idx, d, X);
        DeleteChild(x, idx, k, d, BTreeDelete.Merge(X, idx));
      }
    }

    /** delete(root, k) (btree.c:274-290): deleteNode from the root; a root
        left without keys is freed and replaced by its only child, or by NULL
        when it was a leaf. The tree afterwards is Delete of the value model,
        and its keys are the old ones with one occurrence of k removed. */
    method Delete(k: int)
      requires Valid()
      modifies this
      ensures Valid() && Model() == BTreeDelete.Delete(old(Model()), k)
      ensures Elements(Model()) == RemoveOne(Elements(old(Model())), k)
    {
      DeleteCorrect(Model(), k);
      if root == NULL {
        return;
      }
      ghost var t := Abs(heap, root, height);
      DeleteNode(root, k, height, t);
      CollapseRoot(BTreeDelete.DeleteNode(t, k, height));
    }

    /** btree.c:281-289: a root left without keys gives way to its only
        child, or to NULL when it is a leaf; the tree is then Shrink of the
        value model. */
    method CollapseRoot(ghost t: Tree)
      requires |fp| == |heap| && root != NULL && Stands(heap, fp, root, height, t)
      requires WellShaped(t, height) && ValidHandle(Shrink(t, height))
      modifies this
      ensures Valid() && Model() == Shrink(t, old(height))
      ensures heap == old(heap) && fp == old(fp)
    {
      if heap[root].n == 0 {
        if heap[root].leaf {
          root := NULL;
        } else {
          ChildStands(heap, fp, root, height, t, 0);
          root := heap[root].C[0];
          height := height - 1;
        }
      }
    }
  }
}
