// The records of bplustree.c in an arena, and the arena-wide invariant that
// makes every access of the core land on a record and every descent end.
// Live records are told apart by a ghost level, not by reachability: the B+
// split lets two nodes share a child, so the nodes do not form a tree.
module BPlusHeap {
  import opened Shifts

  /** The minimum degree T (bplustree.c:5). */
  const T: nat := 2

  /** A pointer is the index of a record in the arena; NULL is -1. */
  type Ptr = int
  const NULL: Ptr := -1

  /** A BPlusTreeNode (bplustree.c:8-14): keys[2T], C[2T+1], the key count
      n, the leaf flag and the link next to the following leaf. */
  datatype Rec = Rec(keys: seq<int>, C: seq<Ptr>, n: int, leaf: bool, next: Ptr)

  /** The nodes malloc has handed out; heap[p] is the node p points to. */
  type Heap = seq<Rec>

  /** The arrays have their C sizes and n is within the key array. */
  predicate Fits(r: Rec)
  {
    |r.keys| == 2 * T && |r.C| == 2 * T + 1 && 0 <= r.n <= 2 * T
  }

  predicate NoKids(r: Rec)
  {
    forall j :: 0 <= j < |r.C| ==> r.C[j] == NULL
  }

  /** The node createNode(leaf) returns (bplustree.c:17-26): no keys, every
      child NULL, no next leaf. C leaves the key slots unset; here they
      hold 0. */
  function NewRec(leaf: bool): (r: Rec)
    ensures Fits(r) && r.n == 0 && r.leaf == leaf && NoKids(r) && r.next == NULL
  {
    Rec(seq(2 * T, _ => 0), seq(2 * T + 1, _ => NULL), 0, leaf, NULL)
  }

  // ---------------------------------------------------------------------
  // The arena invariant
  // ---------------------------------------------------------------------

  /** Record p is well formed at level rank[p]: it fits, it is a leaf
      exactly at level 0, a leaf has no children, the live children
      C[0..n] of an internal node are records one level down, and next is
      NULL or a leaf. */
  predicate RecOk(h: Heap, rank: seq<nat>, p: Ptr)
    requires |rank| == |h| && 0 <= p < |h|
  {
    && Fits(h[p])
    && (h[p].leaf <==> rank[p] == 0)
    && (h[p].leaf ==> NoKids(h[p]))
    && (!h[p].leaf ==> forall j :: 0 <= j <= h[p].n ==> 0 <= h[p].C[j] < |h| && rank[h[p].C[j]] + 1 == rank[p])
    && (h[p].next == NULL || (0 <= h[p].next < |h| && h[h[p].next].leaf))
  }

  /** What the invariant asks of record p: when it is live, that is at a
      level up to height, it is well formed and holds at least T-1 keys
      unless it is the root. */
  predicate Good(h: Heap, rank: seq<nat>, root: Ptr, height: nat, p: Ptr)
    requires |rank| == |h| && 0 <= p < |h|
  {
    rank[p] <= height ==> RecOk(h, rank, p) && (p != root ==> h[p].n >= T - 1)
  }

  /** The root is the record at level height and every record is good.
      A node that leaves the tree by a collapse of the root is left above
      height; when the tree grows again such nodes move up with it. */
  predicate Arena(h: Heap, rank: seq<nat>, root: Ptr, height: nat)
  {
    && |rank| == |h| && 0 <= root < |h| && rank[root] == height && Fits(h[root])
    && forall p :: 0 <= p < |h| ==> Good(h, rank, root, height, p)
  }

  predicate Live(h: Heap, rank: seq<nat>, height: nat, p: Ptr)
  {
    |rank| == |h| && 0 <= p < |h| && rank[p] <= height
  }

  /** How a changed record is shown good. */
  lemma GoodOf(h: Heap, rank: seq<nat>, root: Ptr, height: nat, p: Ptr)
    requires |rank| == |h| && 0 <= p < |h| && RecOk(h, rank, p) && (p != root ==> h[p].n >= T - 1)
    ensures Good(h, rank, root, height, p)
  {
  }

  /** What the invariant gives for one live record. */
  lemma LiveOk(h: Heap, rank: seq<nat>, root: Ptr, height: nat, p: Ptr)
    requires Arena(h, rank, root, height) && Live(h, rank, height, p)
    ensures RecOk(h, rank, p) && (p != root ==> h[p].n >= T - 1)
  {
    assert Good(h, rank, root, height, p);
  }

  /** A live child of a live internal node: a well formed record one level
      down, never the node itself nor the root, and holding at least T-1
      keys. */
  lemma Kid(h: Heap, rank: seq<nat>, root: Ptr, height: nat, p: Ptr, j: int)
    requires Arena(h, rank, root, height) && Live(h, rank, height, p) && !h[p].leaf
    requires 0 <= j <= h[p].n
    ensures Fits(h[p]) && Live(h, rank, height, h[p].C[j]) && rank[h[p].C[j]] + 1 == rank[p]
    ensures h[p].C[j] != p && h[p].C[j] != root
    ensures RecOk(h, rank, h[p].C[j]) && h[h[p].C[j]].n >= T - 1
  {
    LiveOk(h, rank, root, height, p);
    LiveOk(h, rank, root, height, h[p].C[j]);
  }

  // ---------------------------------------------------------------------
  // Keeping the invariant
  // ---------------------------------------------------------------------

  /** h' is h with records changed and appended, and no level or leaf flag
      of an old record changed. */
  predicate Grows(h: Heap, rank: seq<nat>, h': Heap, rank': seq<nat>)
  {
    && |rank| == |h| && |rank'| == |h'| && |h| <= |h'|
    && forall q :: 0 <= q < |h| ==> rank'[q] == rank[q] && h'[q].leaf == h[q].leaf
  }

  /** An unchanged record stays well formed. */
  lemma RecKept(h: Heap, rank: seq<nat>, h': Heap, rank': seq<nat>, p: Ptr)
    requires Grows(h, rank, h', rank') && 0 <= p < |h| && h'[p] == h[p] && RecOk(h, rank, p)
    ensures RecOk(h', rank', p)
  {
    if !h[p].leaf {
      forall j | 0 <= j <= h[p].n ensures 0 <= h'[p].C[j] < |h'| && rank'[h'[p].C[j]] + 1 == rank'[p] {
        assert rank'[h[p].C[j]] == rank[h[p].C[j]];
      }
    }
    if h[p].next != NULL {
      assert h'[h[p].next].leaf == h[h[p].next].leaf;
    }
  }

  /** The invariant holds after a change that keeps levels and leaf flags
      and leaves every record outside M alone, once each changed or new
      record is shown good. */
  lemma ArenaFrom(h: Heap, rank: seq<nat>, h': Heap, rank': seq<nat>, root: Ptr, height: nat, M: set<Ptr>)
    requires Arena(h, rank, root, height) && Grows(h, rank, h', rank')
    requires forall q :: 0 <= q < |h| && q !in M ==> h'[q] == h[q]
    requires forall q :: 0 <= q < |h'| && (q in M || q >= |h|) ==> Good(h', rank', root, height, q)
    ensures Arena(h', rank', root, height)
  {
    forall p | 0 <= p < |h'| ensures Good(h', rank', root, height, p) {
      if p < |h| && p !in M {
        assert Good(h, rank, root, height, p);
        if rank'[p] <= height {
          RecKept(h, rank, h', rank', p);
        }
      }
    }
  }

  /** The same for a rewrite that keeps the arena's size, once each
      changed record is shown well formed and, unless it is the root, to
      hold at least T-1 keys. */
  lemma ArenaAfter(h: Heap, rank: seq<nat>, h': Heap, root: Ptr, height: nat, M: set<Ptr>)
    requires Arena(h, rank, root, height) && Grows(h, rank, h', rank) && |h'| == |h|
    requires forall q :: 0 <= q < |h| && q !in M ==> h'[q] == h[q]
    requires forall q :: q in M ==> 0 <= q < |h| && RecOk(h', rank, q) && (q != root ==> h'[q].n >= T - 1)
    ensures Arena(h', rank, root, height)
  {
    forall q | q in M ensures Good(h', rank, root, height, q) {
      GoodOf(h', rank, root, height, q);
    }
    ArenaFrom(h, rank, h', rank, root, height, M);
  }

  // ---------------------------------------------------------------------
  // The tree grows a level (bplustree.c:93-96)
  // ---------------------------------------------------------------------

  /** The arena after s = createNode(0) and s->C[0] = r. */
  function GrowHeap(h: Heap, r: Ptr): (h': Heap)
    ensures |h'| == |h| + 1 && h'[..|h|] == h
  {
    var s0 := NewRec(false);
    h + [s0.(C := s0.C[0 := r])]
  }

  /** The levels afterwards: s is one above the old root, and every node
      above the old height moves up one so that it stays out of the tree. */
  function GrowRank(rank: seq<nat>, height: nat): (rank': seq<nat>)
    ensures |rank'| == |rank| + 1 && rank'[|rank|] == height + 1
    ensures forall q :: 0 <= q < |rank| ==> rank'[q] == if rank[q] > height then rank[q] + 1 else rank[q]
  {
    seq(|rank|, q requires 0 <= q < |rank| => if rank[q] > height then rank[q] + 1 else rank[q]) + [height + 1]
  }

  /** Over a root with at least T-1 keys, the new root s is an internal
      node with no keys whose only child is the old root, and the invariant
      holds one level higher with s as the root. */
  lemma GrowArena(h: Heap, rank: seq<nat>, r: Ptr, height: nat)
    requires Arena(h, rank, r, height) && h[r].n >= T - 1
    ensures var h', s := GrowHeap(h, r), |h|;
      && Arena(h', GrowRank(rank, height), s, height + 1)
      && !h'[s].leaf && h'[s].n == 0 && h'[s].C[0] == r && h'[s].next == NULL
  {
    var h', rank', s, H := GrowHeap(h, r), GrowRank(rank, height), |h|, height + 1;
    forall p | 0 <= p < |h'| ensures Good(h', rank', s, H, p) {
      if p < |h| {
        assert Good(h, rank, r, height, p);
        assert h'[p] == h[p];
        if rank[p] <= height {
          if !h[p].leaf {
            forall j | 0 <= j <= h[p].n ensures 0 <= h'[p].C[j] < |h'| && rank'[h'[p].C[j]] + 1 == rank'[p] {
              assert rank[h[p].C[j]] + 1 == rank[p];
            }
          }
          if h[p].next != NULL {
            assert h'[h[p].next] == h[h[p].next];
          }
        }
      } else {
        assert h'[p].C[0] == r && rank'[r] == height;
      }
    }
  }

  /** After the root collapses into its child c (bplustree.c:266-274), the
      invariant holds one level lower with c as the root; the old root is
      left above the new height. */
  lemma CollapseArena(h: Heap, rank: seq<nat>, root: Ptr, height: nat)
    requires Arena(h, rank, root, height) && !h[root].leaf && h[root].n == 0
    ensures height > 0 && Arena(h, rank, h[root].C[0], height - 1)
    ensures Live(h, rank, height - 1, h[root].C[0]) && h[h[root].C[0]].n >= T - 1
  {
    Kid(h, rank, root, height, root, 0);
    var c, H := h[root].C[0], height - 1;
    forall p | 0 <= p < |h| ensures Good(h, rank, c, H, p) {
      assert Good(h, rank, root, height, p);
    }
  }
}
