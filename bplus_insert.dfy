// Insertion into the B+ tree (bplustree.c:28-102) on the arena: the records
// splitChild and the leaf branch of insertNonFull leave, what they hold,
// and that the arena invariant survives them.
module BPlusInsert {
  import opened Shifts
  import opened SortedSeqs
  import opened BPlusHeap

  // ---------------------------------------------------------------------
  // splitChild (bplustree.c:29-62)
  // ---------------------------------------------------------------------

  /** What splitChild(x, i, x->C[i]) needs of the records: x has room for
      one more key, and its child i is another record with 2T keys. */
  predicate CanSplit(h: Heap, x: Ptr, i: int)
  {
    && 0 <= x < |h| && Fits(h[x]) && h[x].n < 2 * T && 0 <= i <= h[x].n
    && 0 <= h[x].C[i] < |h| && h[x].C[i] != x && Fits(h[h[x].C[i]]) && h[h[x].C[i]].n == 2 * T
  }

  /** z after bplustree.c:30-41: a fresh node like y holding the upper T
      keys of y and, when y is internal, the upper T+1 children of y,
      C[T] included. */
  function SplitZ(y: Rec): (z: Rec)
    requires Fits(y)
    ensures Fits(z) && z.leaf == y.leaf && z.n == T && z.next == NULL
  {
    var z0 := NewRec(y.leaf);
    z0.(keys := Blit(z0.keys, 0, y.keys, T, T),
        C := if y.leaf then z0.C else Blit(z0.C, 0, y.C, T, T + 1),
        n := T)
  }

  /** x after bplustree.c:45-56: child slot i+1 opened for z, key slot i
      opened for the median m. The loop at bplustree.c:51-53 runs down to
      j = i and so also copies keys[i-1] into keys[i], which line 55 then
      overwrites. */
  function SplitX(x: Rec, i: int, z: Ptr, m: int): (r: Rec)
    requires Fits(x) && x.n < 2 * T && 0 <= i <= x.n
    ensures Fits(r) && r.n == x.n + 1 && r.leaf == x.leaf && r.next == x.next
  {
    x.(C := ShiftR(x.C, i + 1, x.n + 1)[i + 1 := z],
       keys := ShiftR(x.keys, i, x.n)[i := m],
       n := x.n + 1)
  }

  /** The arena after bplustree.c:30-56: z appended, y cut to T keys, and
      the median y->keys[T] copied up into x. */
  function SplitCore(h: Heap, x: Ptr, i: int): Heap
    requires CanSplit(h, x, i)
  {
    var y := h[x].C[i];
    (h + [SplitZ(h[y])])[y := h[y].(n := T)][x := SplitX(h[x], i, |h|, h[y].keys[T])]
  }

  /** bplustree.c:59-60: z takes over y's next, and y's next becomes z. */
  function Link(h: Heap, y: Ptr, z: Ptr): Heap
    requires 0 <= y < |h| && 0 <= z < |h|
  {
    h[z := h[z].(next := h[y].next)][y := h[y].(next := z)]
  }

  /** The arena after splitChild(x, i, x->C[i]): the leaf link is spliced
      only when y is a leaf (bplustree.c:58). */
  function SplitHeap(h: Heap, x: Ptr, i: int): Heap
    requires CanSplit(h, x, i)
  {
    var h1 := SplitCore(h, x, i);
    if h[h[x].C[i]].leaf then Link(h1, h[x].C[i], |h|) else h1
  }

  /** y after the split: cut to its lower T keys, and, when it is a leaf,
      linked to z. */
  function SplitY(y: Rec, z: Ptr): Rec
  {
    y.(n := T, next := if y.leaf then z else y.next)
  }

  /** z after the split, with the link of bplustree.c:59. */
  function SplitZLinked(y: Rec): Rec
    requires Fits(y)
  {
    SplitZ(y).(next := if y.leaf then y.next else NULL)
  }

  /** h' holds the records the split leaves, one by one. */
  predicate SplitFacts(h: Heap, h': Heap, x: Ptr, i: int)
    requires CanSplit(h, x, i)
  {
    var y, z := h[x].C[i], |h|;
    && |h'| == |h| + 1
    && h'[x] == SplitX(h[x], i, z, h[y].keys[T])
    && h'[y] == SplitY(h[y], z)
    && h'[z] == SplitZLinked(h[y])
    && forall q :: 0 <= q < |h| && q != x && q != y ==> h'[q] == h[q]
  }

  lemma SplitRecs(h: Heap, x: Ptr, i: int)
    requires CanSplit(h, x, i)
    ensures SplitFacts(h, SplitHeap(h, x, i), x, i)
  {
  }

  /** What the split leaves: y keeps its arrays and its lower T keys; z
      holds the upper T keys and, when internal, the upper T+1 children, so
      child C[T] of y is now also child 0 of z; the median y->keys[T] is
      copied into x at key slot i, where it equals the first key of z, and
      z sits at child slot i+1; every other record is as it was. */
  lemma SplitEffect(h: Heap, x: Ptr, i: int)
    requires CanSplit(h, x, i)
    ensures var h', y, z, n := SplitHeap(h, x, i), h[x].C[i], |h|, h[x].n;
      && |h'| == |h| + 1 && Fits(h'[y]) && Fits(h'[z]) && Fits(h'[x])
      && h'[y].n == T && h'[y].keys == h[y].keys && h'[y].C == h[y].C && h'[y].leaf == h[y].leaf
      && h'[z].n == T && h'[z].leaf == h[y].leaf && h'[z].keys[..T] == h[y].keys[T..]
      && (!h[y].leaf ==> h'[z].C[..T + 1] == h[y].C[T..] && h'[z].C[0] == h'[y].C[T])
      && h'[x].n == n + 1 && h'[x].leaf == h[x].leaf
      && h'[x].keys[..n + 1] == h[x].keys[..i] + [h[y].keys[T]] + h[x].keys[i..n]
      && h'[x].C[..n + 2] == h[x].C[..i + 1] + [z] + h[x].C[i + 1..n + 1]
      && h'[x].keys[i] == h'[z].keys[0]
      && (forall q :: 0 <= q < |h| && q != x && q != y ==> h'[q] == h[q])
  {
    SplitRecs(h, x, i);
    SplitHalves(h, SplitHeap(h, x, i), x, i);
    SplitParent(h, SplitHeap(h, x, i), x, i);
  }

  lemma SplitHalves(h: Heap, h': Heap, x: Ptr, i: int)
    requires CanSplit(h, x, i) && SplitFacts(h, h', x, i)
    ensures var y, z := h[x].C[i], |h|;
      && Fits(h'[y]) && Fits(h'[z])
      && h'[y].n == T && h'[y].keys == h[y].keys && h'[y].C == h[y].C && h'[y].leaf == h[y].leaf
      && h'[z].n == T && h'[z].leaf == h[y].leaf && h'[z].keys[..T] == h[y].keys[T..]
      && (!h[y].leaf ==> h'[z].C[..T + 1] == h[y].C[T..] && h'[z].C[0] == h'[y].C[T])
  {
  }

  lemma SplitParent(h: Heap, h': Heap, x: Ptr, i: int)
    requires CanSplit(h, x, i) && SplitFacts(h, h', x, i)
    ensures var y, z, n := h[x].C[i], |h|, h[x].n;
      && Fits(h'[x]) && h'[x].n == n + 1 && h'[x].leaf == h[x].leaf
      && h'[x].keys[..n + 1] == h[x].keys[..i] + [h[y].keys[T]] + h[x].keys[i..n]
      && h'[x].C[..n + 2] == h[x].C[..i + 1] + [z] + h[x].C[i + 1..n + 1]
      && h'[x].keys[i] == h'[z].keys[0]
  {
    var y, n := h[x].C[i], h[x].n;
    OpenSlot(h[x].keys, i, n, h[y].keys[T]);
    OpenSlot(h[x].C, i + 1, n + 1, |h|);
  }

  /** The leaf chain: when y is a leaf, z comes right after y and before
      y's old next; when y is internal neither link is set. No other next
      changes. */
  lemma SplitLinks(h: Heap, x: Ptr, i: int)
    requires CanSplit(h, x, i)
    ensures var h', y, z := SplitHeap(h, x, i), h[x].C[i], |h|;
      && |h'| == |h| + 1
      && (h[y].leaf ==> h'[z].next == h[y].next && h'[y].next == z)
      && (!h[y].leaf ==> h'[z].next == NULL && h'[y].next == h[y].next)
      && (forall q :: 0 <= q < |h| && q != y ==> h'[q].next == h[q].next)
  {
    SplitRecs(h, x, i);
  }

  /** When x is a live internal node with room and child i is full, the
      split is possible and keeps the invariant, z taking y's level. */
  lemma SplitArena(h: Heap, rank: seq<nat>, root: Ptr, height: nat, x: Ptr, i: int)
    requires Arena(h, rank, root, height) && Live(h, rank, height, x) && Fits(h[x]) && !h[x].leaf
    requires h[x].n < 2 * T && 0 <= i <= h[x].n && 0 <= h[x].C[i] < |h| && h[h[x].C[i]].n == 2 * T
    ensures CanSplit(h, x, i)
    ensures Arena(SplitHeap(h, x, i), rank + [rank[h[x].C[i]]], root, height)
  {
    Kid(h, rank, root, height, x, i);
    LiveOk(h, rank, root, height, x);
    SplitRecs(h, x, i);
    SplitKeeps(h, SplitHeap(h, x, i), rank, root, height, x, i);
  }

  lemma SplitKeeps(h: Heap, h': Heap, rank: seq<nat>, root: Ptr, height: nat, x: Ptr, i: int)
    requires Arena(h, rank, root, height) && CanSplit(h, x, i) && SplitFacts(h, h', x, i)
    requires RecOk(h, rank, x) && !h[x].leaf && Live(h, rank, height, x)
    requires RecOk(h, rank, h[x].C[i]) && h[x].C[i] != root && rank[h[x].C[i]] + 1 == rank[x]
    ensures Arena(h', rank + [rank[h[x].C[i]]], root, height)
  {
    var y, z := h[x].C[i], |h|;
    var rank' := rank + [rank[y]];
    assert Grows(h, rank, h', rank') by {
      forall q | 0 <= q < |h| ensures rank'[q] == rank[q] && h'[q].leaf == h[q].leaf {
        if q != x && q != y {
          assert h'[q] == h[q];
        }
      }
    }
    SplitXOk(h, rank, h', rank', x, i);
    SplitYOk(h, rank, h', rank', x, i, root);
    SplitZOk(h, rank, h', rank', x, i, root);
    assert Good(h', rank', root, height, x) && Good(h', rank', root, height, y) && Good(h', rank', root, height, z);
    ArenaFrom(h, rank, h', rank', root, height, {x, y});
  }

  lemma SplitXOk(h: Heap, rank: seq<nat>, h': Heap, rank': seq<nat>, x: Ptr, i: int)
    requires CanSplit(h, x, i) && |rank| == |h| && SplitFacts(h, h', x, i) && rank' == rank + [rank[h[x].C[i]]]
    requires Grows(h, rank, h', rank')
    requires RecOk(h, rank, x) && !h[x].leaf && rank[h[x].C[i]] + 1 == rank[x]
    ensures RecOk(h', rank', x)
  {
    var y, z, n := h[x].C[i], |h|, h[x].n;
    var c := h'[x].C;
    forall j | 0 <= j <= n + 1 ensures 0 <= c[j] < |h'| && rank'[c[j]] + 1 == rank'[x] {
      if j <= i {
        assert c[j] == h[x].C[j];
      } else if j > i + 1 {
        assert c[j] == h[x].C[j - 1];
      }
    }
    if h[x].next != NULL {
      assert h'[h[x].next].leaf == h[h[x].next].leaf;
    }
  }

  lemma SplitYOk(h: Heap, rank: seq<nat>, h': Heap, rank': seq<nat>, x: Ptr, i: int, root: Ptr)
    requires CanSplit(h, x, i) && |rank| == |h| && SplitFacts(h, h', x, i) && rank' == rank + [rank[h[x].C[i]]]
    requires Grows(h, rank, h', rank')
    requires RecOk(h, rank, h[x].C[i]) && h[x].C[i] != root
    ensures RecOk(h', rank', h[x].C[i]) && h'[h[x].C[i]].n >= T - 1
  {
    var y := h[x].C[i];
    if !h[y].leaf {
      forall j | 0 <= j <= T ensures 0 <= h'[y].C[j] < |h'| && rank'[h'[y].C[j]] + 1 == rank'[y] {
        assert rank'[h[y].C[j]] == rank[h[y].C[j]];
      }
      if h[y].next != NULL {
        assert h'[h[y].next].leaf == h[h[y].next].leaf;
      }
    }
  }

  lemma SplitZOk(h: Heap, rank: seq<nat>, h': Heap, rank': seq<nat>, x: Ptr, i: int, root: Ptr)
    requires CanSplit(h, x, i) && |rank| == |h| && SplitFacts(h, h', x, i) && rank' == rank + [rank[h[x].C[i]]]
    requires Grows(h, rank, h', rank')
    requires RecOk(h, rank, h[x].C[i]) && 0 <= root < |h|
    ensures RecOk(h', rank', |h|) && |h| != root && h'[|h|].n >= T - 1
  {
    var y, z := h[x].C[i], |h|;
    if !h[y].leaf {
      forall j | 0 <= j <= T ensures 0 <= h'[z].C[j] < |h'| && rank'[h'[z].C[j]] + 1 == rank'[z] {
        assert h'[z].C[j] == h[y].C[T + j];
        assert rank'[h[y].C[T + j]] == rank[h[y].C[T + j]];
      }
    } else {
      assert h'[z].C == NewRec(true).C;
      if h[y].next != NULL {
        assert h'[h[y].next].leaf == h[h[y].next].leaf;
      }
    }
  }

  // ---------------------------------------------------------------------
  // The leaf branch of insertNonFull (bplustree.c:68-74)
  // ---------------------------------------------------------------------

  /** The leaf after the shifting scan and the store of k: k goes right
      after the last key at most k, as the scan from the right finds it. */
  function LeafPut(r: Rec, k: int): (r': Rec)
    requires Fits(r) && r.n < 2 * T
    ensures Fits(r') && r'.n == r.n + 1 && r'.leaf == r.leaf && r'.C == r.C && r'.next == r.next
  {
    var u := UpperIdx(r.keys[..r.n], k);
    r.(keys := ShiftR(r.keys, u, r.n)[u := k], n := r.n + 1)
  }

  /** The live keys afterwards are the old ones with k inserted after every
      key at most k: one more k, and still sorted when they were. */
  lemma LeafPutKeys(r: Rec, k: int)
    requires Fits(r) && r.n < 2 * T
    ensures LeafPut(r, k).keys[..r.n + 1] == InsertKey(r.keys[..r.n], k)
    ensures multiset(LeafPut(r, k).keys[..r.n + 1]) == multiset(r.keys[..r.n]) + multiset{k}
    ensures Sorted(r.keys[..r.n]) ==> Sorted(LeafPut(r, k).keys[..r.n + 1])
  {
    var s := r.keys[..r.n];
    var u := UpperIdx(s, k);
    OpenSlot(r.keys, u, r.n, k);
    assert s[..u] == r.keys[..u] && s[u..] == r.keys[u..r.n];
    InsertKeyCorrect(s, k);
  }

  /** Where the shifting scan stops, told by the keys on either side of
      it, is where LeafPut puts k. */
  lemma LeafPutIs(r: Rec, u: int, k: int)
    requires Fits(r) && r.n < 2 * T && 0 <= u <= r.n
    requires forall t :: u <= t < r.n ==> r.keys[t] > k
    requires u > 0 ==> r.keys[u - 1] <= k
    ensures LeafPut(r, k) == r.(keys := ShiftR(r.keys, u, r.n)[u := k], n := r.n + 1)
  {
    UpperIdxAt(r.keys[..r.n], k, u);
  }

  /** Putting a key into a live leaf with room keeps the invariant. */
  lemma LeafPutArena(h: Heap, rank: seq<nat>, root: Ptr, height: nat, x: Ptr, k: int)
    requires Arena(h, rank, root, height) && Live(h, rank, height, x) && Fits(h[x]) && h[x].leaf && h[x].n < 2 * T
    ensures Arena(h[x := LeafPut(h[x], k)], rank, root, height)
  {
    LiveOk(h, rank, root, height, x);
    var h' := h[x := LeafPut(h[x], k)];
    assert Grows(h, rank, h', rank);
    if h[x].next != NULL {
      assert h'[h[x].next].leaf == h[h[x].next].leaf;
    }
    assert Good(h', rank, root, height, x);
    ArenaFrom(h, rank, h', rank, root, height, {x});
  }

  // ---------------------------------------------------------------------
  // insertNonFull and insert (bplustree.c:65-102)
  // ---------------------------------------------------------------------

  /** One split on the way down (bplustree.c:79-83): x has room and its
      child u is full. Afterwards the invariant holds with z at y's level,
      x is SplitX of itself, no other record at x's level or above has
      changed, and the child j the descent goes on to, y or z, is a live
      record one level down with room for a key. */
  lemma SplitStep(h: Heap, rank: seq<nat>, root: Ptr, height: nat, x: Ptr, u: int, k: int)
    requires Arena(h, rank, root, height) && Live(h, rank, height, x) && Fits(h[x]) && !h[x].leaf
    requires h[x].n < 2 * T && 0 <= u <= h[x].n && 0 <= h[x].C[u] < |h| && h[h[x].C[u]].n == 2 * T
    ensures CanSplit(h, x, u)
    ensures var h1, rank1 := SplitHeap(h, x, u), rank + [rank[h[x].C[u]]];
      && Arena(h1, rank1, root, height) && Grows(h, rank, h1, rank1)
      && h1[x] == SplitX(h[x], u, |h|, h[h[x].C[u]].keys[T]) && h1[x].n == h[x].n + 1
      && (forall q :: 0 <= q < |h| && q != x && rank[q] >= rank[x] ==> h1[q] == h[q])
    ensures var h1, rank1 := SplitHeap(h, x, u), rank + [rank[h[x].C[u]]];
      var j := if h1[x].keys[u] < k then u + 1 else u;
      && 0 <= j <= h1[x].n && Live(h1, rank1, height, h1[x].C[j])
      && rank1[h1[x].C[j]] + 1 == rank[x] && h1[h1[x].C[j]].n < 2 * T
  {
    var y := h[x].C[u];
    Kid(h, rank, root, height, x, u);
    SplitArena(h, rank, root, height, x, u);
    SplitEffect(h, x, u);
    SplitRecs(h, x, u);
    var h1, rank1 := SplitHeap(h, x, u), rank + [rank[y]];
    forall q | 0 <= q < |h| ensures h1[q].leaf == h[q].leaf {
      if q != x && q != y {
        assert h1[q] == h[q];
      }
    }
    var n := h[x].n;
    assert h1[x].C[u] == h1[x].C[..n + 2][u] == y;
    assert h1[x].C[u + 1] == h1[x].C[..n + 2][u + 1] == |h|;
  }

  /** The records and levels insertNonFull(x, k) (bplustree.c:65-87)
      leaves, on a live node with room: a leaf takes k in order; an
      internal node first splits the child k belongs in when that child is
      full, and k then goes into the child on its side of the median. */
  function InsertHeap(h: Heap, rank: seq<nat>, root: Ptr, height: nat, x: Ptr, k: int): (r: (Heap, seq<nat>))
    requires Arena(h, rank, root, height) && Live(h, rank, height, x) && h[x].n < 2 * T
    decreases rank[x]
  {
    LiveOk(h, rank, root, height, x);
    if h[x].leaf then
      LeafPutArena(h, rank, root, height, x, k);
      (h[x := LeafPut(h[x], k)], rank)
    else
      var u := UpperIdx(h[x].keys[..h[x].n], k);
      Kid(h, rank, root, height, x, u);
      if h[h[x].C[u]].n == 2 * T then
        SplitStep(h, rank, root, height, x, u, k);
        var h1, rank1 := SplitHeap(h, x, u), rank + [rank[h[x].C[u]]];
        var j := if h1[x].keys[u] < k then u + 1 else u;
        InsertHeap(h1, rank1, root, height, h1[x].C[j], k)
      else
        InsertHeap(h, rank, root, height, h[x].C[u], k)
  }

  /** One level of the descent of insertNonFull at an internal node x:
      the records h1 and levels rank1 after the split, if any, and the child
      c it goes on to, with what the rest of the descent needs of them. */
  lemma Descent(h: Heap, rank: seq<nat>, root: Ptr, height: nat, x: Ptr, k: int) returns (h1: Heap, rank1: seq<nat>, c: Ptr)
    requires Arena(h, rank, root, height) && Live(h, rank, height, x) && h[x].n < 2 * T && !h[x].leaf
    ensures Arena(h1, rank1, root, height) && Grows(h, rank, h1, rank1)
    ensures Live(h1, rank1, height, c) && rank1[c] + 1 == rank[x] && h1[c].n < 2 * T
    ensures forall q :: 0 <= q < |h| && q != x && rank[q] >= rank[x] ==> h1[q] == h[q]
    ensures h1[x].n >= h[x].n
    ensures InsertHeap(h, rank, root, height, x, k) == InsertHeap(h1, rank1, root, height, c, k)
    ensures Landing(h, rank, root, height, x, k) == Landing(h1, rank1, root, height, c, k)
  {
    LiveOk(h, rank, root, height, x);
    var u := UpperIdx(h[x].keys[..h[x].n], k);
    Kid(h, rank, root, height, x, u);
    if h[h[x].C[u]].n == 2 * T {
      SplitStep(h, rank, root, height, x, u, k);
      h1, rank1 := SplitHeap(h, x, u), rank + [rank[h[x].C[u]]];
      c := h1[x].C[if h1[x].keys[u] < k then u + 1 else u];
    } else {
      h1, rank1, c := h, rank, h[x].C[u];
    }
  }

  /** insertNonFull keeps the invariant, the levels and leaf flags of old
      records and every record at x's level and above other than x, and x
      does not lose keys. */
  lemma {:induction false} InsertKeeps(h: Heap, rank: seq<nat>, root: Ptr, height: nat, x: Ptr, k: int)
    requires Arena(h, rank, root, height) && Live(h, rank, height, x) && h[x].n < 2 * T
    ensures var r := InsertHeap(h, rank, root, height, x, k);
      && Arena(r.0, r.1, root, height) && Grows(h, rank, r.0, r.1) && r.0[x].n >= h[x].n
      && (forall q :: 0 <= q < |h| && q != x && rank[q] >= rank[x] ==> r.0[q] == h[q])
    decreases rank[x]
  {
    LiveOk(h, rank, root, height, x);
    if h[x].leaf {
      LeafPutArena(h, rank, root, height, x, k);
    } else {
      var h1, rank1, c := Descent(h, rank, root, height, x, k);
      InsertKeeps(h1, rank1, root, height, c, k);
      var r := InsertHeap(h1, rank1, root, height, c, k);
      Chain(h, rank, h1, rank1, r.0, r.1, x, c);
    }
  }

  /** A step at x followed by a descent into its child c, put together. */
  lemma Chain(h: Heap, rank: seq<nat>, h1: Heap, rank1: seq<nat>, h2: Heap, rank2: seq<nat>, x: Ptr, c: Ptr)
    requires Grows(h, rank, h1, rank1) && Grows(h1, rank1, h2, rank2)
    requires 0 <= x < |h| && 0 <= c < |h1| && rank1[c] + 1 == rank[x]
    requires forall q :: 0 <= q < |h| && q != x && rank[q] >= rank[x] ==> h1[q] == h[q]
    requires forall q :: 0 <= q < |h1| && q != c && rank1[q] >= rank1[c] ==> h2[q] == h1[q]
    ensures Grows(h, rank, h2, rank2) && h2[x] == h1[x]
    ensures forall q :: 0 <= q < |h| && q != x && rank[q] >= rank[x] ==> h2[q] == h[q]
  {
  }

  /** The leaf insertNonFull(x, k) comes down to, with the records and
      levels just before it stores k there: the descent of InsertHeap, with
      its splits, stopped at the leaf. */
  function Landing(h: Heap, rank: seq<nat>, root: Ptr, height: nat, x: Ptr, k: int): (r: (Heap, seq<nat>, Ptr))
    requires Arena(h, rank, root, height) && Live(h, rank, height, x) && h[x].n < 2 * T
    decreases rank[x]
  {
    LiveOk(h, rank, root, height, x);
    if h[x].leaf then
      (h, rank, x)
    else
      var u := UpperIdx(h[x].keys[..h[x].n], k);
      Kid(h, rank, root, height, x, u);
      if h[h[x].C[u]].n == 2 * T then
        SplitStep(h, rank, root, height, x, u, k);
        var h1, rank1 := SplitHeap(h, x, u), rank + [rank[h[x].C[u]]];
        var j := if h1[x].keys[u] < k then u + 1 else u;
        Landing(h1, rank1, root, height, h1[x].C[j], k)
      else
        Landing(h, rank, root, height, h[x].C[u], k)
  }

  /** k is stored in the leaf the descent reaches: that leaf is a live
      record with room, insertNonFull ends by putting k into it and changes
      no other record after the descent, and its live keys become
      `InsertKey` of the keys it held just before, one k more. */
  lemma InsertLands(h: Heap, rank: seq<nat>, root: Ptr, height: nat, x: Ptr, k: int)
    requires Arena(h, rank, root, height) && Live(h, rank, height, x) && h[x].n < 2 * T
    ensures var L := Landing(h, rank, root, height, x, k);
      && Arena(L.0, L.1, root, height) && Grows(h, rank, L.0, L.1)
      && Live(L.0, L.1, height, L.2) && Fits(L.0[L.2]) && L.0[L.2].leaf && L.0[L.2].n < 2 * T
      && InsertHeap(h, rank, root, height, x, k) == (L.0[L.2 := LeafPut(L.0[L.2], k)], L.1)
    ensures var L := Landing(h, rank, root, height, x, k);
      var h' := InsertHeap(h, rank, root, height, x, k).0;
      && 0 <= L.2 < |h'| && h'[L.2].leaf && h'[L.2].n == L.0[L.2].n + 1
      && h'[L.2].keys[..h'[L.2].n] == InsertKey(L.0[L.2].keys[..L.0[L.2].n], k)
      && multiset(h'[L.2].keys[..h'[L.2].n]) == multiset(L.0[L.2].keys[..L.0[L.2].n]) + multiset{k}
  {
    LandingReached(h, rank, root, height, x, k);
    var L := Landing(h, rank, root, height, x, k);
    LeafPutKeys(L.0[L.2], k);
  }

  /** The descent ends at a live leaf with room, and insertNonFull is the
      store of k into it. */
  lemma {:induction false} LandingReached(h: Heap, rank: seq<nat>, root: Ptr, height: nat, x: Ptr, k: int)
    requires Arena(h, rank, root, height) && Live(h, rank, height, x) && h[x].n < 2 * T
    ensures var L := Landing(h, rank, root, height, x, k);
      && Arena(L.0, L.1, root, height) && Grows(h, rank, L.0, L.1)
      && Live(L.0, L.1, height, L.2) && Fits(L.0[L.2]) && L.0[L.2].leaf && L.0[L.2].n < 2 * T
      && InsertHeap(h, rank, root, height, x, k) == (L.0[L.2 := LeafPut(L.0[L.2], k)], L.1)
    decreases rank[x]
  {
    LiveOk(h, rank, root, height, x);
    if !h[x].leaf {
      var h1, rank1, c := Descent(h, rank, root, height, x, k);
      LandingReached(h1, rank1, root, height, c, k);
    }
  }

  /** insert(root, k) (bplustree.c:90-102): the records, levels, root and
      height afterwards. A root with 2T keys gets a new root s = createNode(0)
      above it, one level higher, which splits it at once; then k goes in
      from the root. */
  function InsertRoot(h: Heap, rank: seq<nat>, root: Ptr, height: nat, k: int): (r: (Heap, seq<nat>, Ptr, nat))
    requires Arena(h, rank, root, height) && (h[root].leaf || h[root].n >= 1)
    ensures Arena(r.0, r.1, r.2, r.3) && (r.0[r.2].leaf || r.0[r.2].n >= 1)
  {
    if h[root].n == 2 * T then
      GrowArena(h, rank, root, height);
      var h1, rank1, s := GrowHeap(h, root), GrowRank(rank, height), |h|;
      SplitStep(h1, rank1, s, height + 1, s, 0, k);
      InsertKeeps(SplitHeap(h1, s, 0), rank1 + [rank1[root]], s, height + 1, s, k);
      var r := InsertHeap(SplitHeap(h1, s, 0), rank1 + [rank1[root]], s, height + 1, s, k);
      (r.0, r.1, s, height + 1)
    else
      InsertKeeps(h, rank, root, height, root, k);
      var r := InsertHeap(h, rank, root, height, root, k);
      (r.0, r.1, root, height)
  }

  /** The first steps of insert on a full root: the new root s over the old
      root, split at once, as an arena h2 with levels rank2. */
  lemma Grown(h: Heap, rank: seq<nat>, root: Ptr, height: nat, k: int) returns (h2: Heap, rank2: seq<nat>)
    requires Arena(h, rank, root, height) && h[root].n == 2 * T
    ensures Arena(h2, rank2, |h|, height + 1) && |h| + 1 < |h2|
    ensures !h2[|h|].leaf && h2[|h|].n == 1 && h2[|h|].keys[0] == h[root].keys[T]
    ensures h2[|h|].C[0] == root && h2[|h|].C[1] == |h| + 1
    ensures h2[root].n == T && h2[|h| + 1].n == T
    ensures InsertRoot(h, rank, root, height, k) == (InsertHeap(h2, rank2, |h|, height + 1, |h|, k).0, InsertHeap(h2, rank2, |h|, height + 1, |h|, k).1, |h|, height + 1)
  {
    GrowArena(h, rank, root, height);
    var h1, rank1 := GrowHeap(h, root), GrowRank(rank, height);
    assert h1[root] == h[root];
    h2, rank2 := GrownSplit(h1, rank1, |h|, height + 1, root, k);
  }

  /** The split of the old root under the new root s. */
  lemma GrownSplit(h1: Heap, rank1: seq<nat>, s: Ptr, H: nat, root: Ptr, k: int) returns (h2: Heap, rank2: seq<nat>)
    requires Arena(h1, rank1, s, H) && !h1[s].leaf && h1[s].n == 0 && h1[s].C[0] == root
    requires 0 <= root < |h1| && h1[root].n == 2 * T && s + 1 == |h1|
    ensures CanSplit(h1, s, 0) && h2 == SplitHeap(h1, s, 0) && rank2 == rank1 + [rank1[root]]
    ensures Arena(h2, rank2, s, H) && s + 1 < |h2|
    ensures !h2[s].leaf && h2[s].n == 1 && h2[s].keys[0] == h1[root].keys[T]
    ensures h2[s].C[0] == root && h2[s].C[1] == s + 1
    ensures h2[root].n == T && h2[s + 1].n == T
  {
    SplitStep(h1, rank1, s, H, s, 0, k);
    h2, rank2 := SplitHeap(h1, s, 0), rank1 + [rank1[root]];
    SplitEffect(h1, s, 0);
    assert h2[s].C[0] == h2[s].C[..2][0] == root;
    assert h2[s].C[1] == h2[s].C[..2][1] == s + 1;
    assert h2[s].keys[0] == h2[s].keys[..1][0];
  }

  /** The tree grows a level exactly when the root held 2T keys, and then
      the new root is an internal node with the single key y->keys[T], the
      median of the old root, between the old root and its new sibling. */
  lemma InsertGrowth(h: Heap, rank: seq<nat>, root: Ptr, height: nat, k: int)
    requires Arena(h, rank, root, height) && (h[root].leaf || h[root].n >= 1)
    ensures var r := InsertRoot(h, rank, root, height, k);
      && (r.3 == height + 1 <==> h[root].n == 2 * T)
      && (r.3 == height <==> h[root].n < 2 * T)
      && (h[root].n < 2 * T ==> r.2 == root)
      && (h[root].n == 2 * T ==>
            && r.2 == |h| && !r.0[r.2].leaf && r.0[r.2].n == 1
            && r.0[r.2].keys[0] == h[root].keys[T]
            && r.0[r.2].C[0] == root && r.0[r.2].C[1] == |h| + 1)
  {
    if h[root].n == 2 * T {
      var h2, rank2 := Grown(h, rank, root, height, k);
      GrownTop(h2, rank2, |h|, height + 1, k);
    }
  }

  /** Below a root with one key and two children of T keys each, insert
      splits nothing at the root and leaves it as it is. */
  lemma GrownTop(h2: Heap, rank2: seq<nat>, s: Ptr, H: nat, k: int)
    requires Arena(h2, rank2, s, H) && !h2[s].leaf && h2[s].n == 1
    requires 0 <= h2[s].C[0] < |h2| && 0 <= h2[s].C[1] < |h2| && h2[h2[s].C[0]].n == T && h2[h2[s].C[1]].n == T
    ensures var r := InsertHeap(h2, rank2, s, H, s, k); s < |r.0| && r.0[s] == h2[s]
  {
    var u := UpperIdx(h2[s].keys[..h2[s].n], k);
    Kid(h2, rank2, s, H, s, u);
    var c := h2[s].C[u];
    assert InsertHeap(h2, rank2, s, H, s, k) == InsertHeap(h2, rank2, s, H, c, k);
    InsertKeeps(h2, rank2, s, H, c, k);
  }
}
