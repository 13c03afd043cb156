// Deletion from the B+ tree (bplustree.c:120-256) on the arena: the records
// removeFromLeaf, borrowFromPrev, borrowFromNext and merge leave, what they
// hold, and that the arena invariant survives them where deleteNode calls
// them. The routines are those of the B-tree, run on nodes whose separators
// are copies of leaf keys; nothing here claims they keep the B+ tree's
// ordering or its leaf chain right.
module BPlusDelete {
  import opened Shifts
  import opened SortedSeqs
  import opened BPlusHeap

  /** A rewrite of the records in M that keeps the arena's size and their
      leaf flags keeps every level and leaf flag. */
  lemma Reshaped(h: Heap, rank: seq<nat>, h': Heap, M: set<Ptr>)
    requires |rank| == |h| && |h'| == |h|
    requires forall q :: 0 <= q < |h| && q !in M ==> h'[q] == h[q]
    requires forall q :: q in M ==> 0 <= q < |h| && h'[q].leaf == h[q].leaf
    ensures Grows(h, rank, h', rank)
  {
  }

  // ---------------------------------------------------------------------
  // removeFromLeaf (bplustree.c:121-126)
  // ---------------------------------------------------------------------

  /** The leaf after removeFromLeaf(x, idx): keys idx+1..n-1 move one slot
      left and n drops by one. */
  function DropKey(r: Rec, idx: int): (r': Rec)
    requires Fits(r) && 0 <= idx < r.n
    ensures Fits(r') && r'.n == r.n - 1 && r'.leaf == r.leaf && r'.C == r.C && r'.next == r.next
  {
    r.(keys := ShiftL(r.keys, idx, r.n), n := r.n - 1)
  }

  /** Key idx is gone from the live keys and the others keep their order. */
  lemma DropKeyKeys(r: Rec, idx: int)
    requires Fits(r) && 0 <= idx < r.n
    ensures DropKey(r, idx).keys[..r.n - 1] == r.keys[..idx] + r.keys[idx + 1..r.n]
  {
    CloseSlot(r.keys, idx, r.n);
  }

  /** When the scan of deleteNode stops on k, dropping that key removes one
      k from the live keys: the result is RemoveOne of them, and it is
      still sorted when they were. */
  lemma DropKeyRemoves(r: Rec, k: int)
    requires Fits(r)
    requires LowerIdx(r.keys[..r.n], k) < r.n && r.keys[LowerIdx(r.keys[..r.n], k)] == k
    ensures var r' := DropKey(r, LowerIdx(r.keys[..r.n], k));
      && r'.keys[..r'.n] == RemoveOne(r.keys[..r.n], k)
      && multiset(r'.keys[..r'.n]) == multiset(r.keys[..r.n]) - multiset{k}
      && (Sorted(r.keys[..r.n]) ==> Sorted(r'.keys[..r'.n]))
  {
    var s, l := r.keys[..r.n], LowerIdx(r.keys[..r.n], k);
    DropKeyKeys(r, l);
    assert r.keys[..l] + r.keys[l + 1..r.n] == s[..l] + s[l + 1..];
    TakeOut(s, l);
    if Sorted(s) {
      RemoveIdx(s, l);
    }
  }

  lemma TakeOut(s: seq<int>, l: int)
    requires 0 <= l < |s|
    ensures multiset(s[..l] + s[l + 1..]) == multiset(s) - multiset{s[l]}
  {
    assert s == s[..l] + [s[l]] + s[l + 1..];
  }

  /** Dropping a key of a live leaf keeps the invariant when the leaf is the
      root or holds at least T keys. */
  lemma DropArena(h: Heap, rank: seq<nat>, root: Ptr, height: nat, x: Ptr, idx: int)
    requires Arena(h, rank, root, height) && Live(h, rank, height, x) && Fits(h[x]) && h[x].leaf
    requires 0 <= idx < h[x].n && (x == root || h[x].n >= T)
    ensures Arena(h[x := DropKey(h[x], idx)], rank, root, height)
  {
    LiveOk(h, rank, root, height, x);
    var h' := h[x := DropKey(h[x], idx)];
    assert Grows(h, rank, h', rank);
    if h[x].next != NULL {
      assert h'[h[x].next].leaf == h[h[x].next].leaf;
    }
    assert Good(h', rank, root, height, x);
    ArenaFrom(h, rank, h', rank, root, height, {x});
  }

  // ---------------------------------------------------------------------
  // borrowFromPrev (bplustree.c:129-152)
  // ---------------------------------------------------------------------

  /** What borrowFromPrev(x, idx) needs of the records: two other records at
      child slots idx-1 and idx, the child with room, the sibling with a key
      to give. */
  predicate CanPrev(h: Heap, x: Ptr, idx: int)
  {
    && 0 <= x < |h| && Fits(h[x]) && 0 < idx <= h[x].n
    && 0 <= h[x].C[idx] < |h| && 0 <= h[x].C[idx - 1] < |h|
    && x != h[x].C[idx] && x != h[x].C[idx - 1] && h[x].C[idx] != h[x].C[idx - 1]
    && Fits(h[h[x].C[idx]]) && Fits(h[h[x].C[idx - 1]])
    && h[h[x].C[idx]].n < 2 * T && h[h[x].C[idx - 1]].n >= 1
  }

  /** The child after bplustree.c:133-150: its live keys and, when it is
      internal, its live children move one slot right, and the separator m
      goes into key slot 0. The guard at line 145 tests the parent, not the
      child, so g goes into child slot 0 whenever the parent is internal. */
  function PrevChild(c: Rec, m: int, g: Ptr, xleaf: bool): (r: Rec)
    requires Fits(c) && c.n < 2 * T
    ensures Fits(r) && r.n == c.n + 1 && r.leaf == c.leaf && r.next == c.next
  {
    var C := if c.leaf then c.C else ShiftR(c.C, 0, c.n + 1);
    c.(keys := ShiftR(c.keys, 0, c.n)[0 := m],
       C := if !xleaf then C[0 := g] else C,
       n := c.n + 1)
  }

  /** The arena after borrowFromPrev(x, idx): the child rewritten, the
      parent's separator replaced by the sibling's last key, and the
      sibling one key shorter. */
  function PrevHeap(h: Heap, x: Ptr, idx: int): Heap
    requires CanPrev(h, x, idx)
  {
    var c, s := h[x].C[idx], h[x].C[idx - 1];
    h[c := PrevChild(h[c], h[x].keys[idx - 1], h[s].C[h[s].n], h[x].leaf)]
     [x := h[x].(keys := h[x].keys[idx - 1 := h[s].keys[h[s].n - 1]])]
     [s := h[s].(n := h[s].n - 1)]
  }

  predicate PrevFacts(h: Heap, h': Heap, x: Ptr, idx: int)
    requires CanPrev(h, x, idx)
  {
    var c, s := h[x].C[idx], h[x].C[idx - 1];
    && |h'| == |h|
    && h'[c] == PrevChild(h[c], h[x].keys[idx - 1], h[s].C[h[s].n], h[x].leaf)
    && h'[x] == h[x].(keys := h[x].keys[idx - 1 := h[s].keys[h[s].n - 1]])
    && h'[s] == h[s].(n := h[s].n - 1)
    && forall q :: 0 <= q < |h| && q != x && q != c && q != s ==> h'[q] == h[q]
  }

  lemma PrevRecs(h: Heap, x: Ptr, idx: int)
    requires CanPrev(h, x, idx)
    ensures PrevFacts(h, PrevHeap(h, x, idx), x, idx)
  {
  }

  /** What borrowFromPrev leaves: the separator in front of the child's
      keys and, for an internal parent and child, the sibling's last child
      in front of the child's children; the sibling's last key in the
      separator's place; the sibling one key shorter with its arrays as
      they were; nothing else changed, no next link included. */
  lemma PrevEffect(h: Heap, x: Ptr, idx: int)
    requires CanPrev(h, x, idx)
    ensures var h', c, s := PrevHeap(h, x, idx), h[x].C[idx], h[x].C[idx - 1];
      var n, m := h[c].n, h[s].n;
      && |h'| == |h| && h'[c].n == n + 1 && h'[c].leaf == h[c].leaf
      && h'[c].keys[..n + 1] == [h[x].keys[idx - 1]] + h[c].keys[..n]
      && (!h[c].leaf && !h[x].leaf ==> h'[c].C[..n + 2] == [h[s].C[m]] + h[c].C[..n + 1])
      && h'[x].n == h[x].n && h'[x].C == h[x].C
      && h'[x].keys == h[x].keys[idx - 1 := h[s].keys[m - 1]]
      && h'[s].n == m - 1 && h'[s].keys == h[s].keys && h'[s].C == h[s].C
      && (forall q :: 0 <= q < |h| ==> h'[q].next == h[q].next)
      && (forall q :: 0 <= q < |h| && q != x && q != c && q != s ==> h'[q] == h[q])
  {
    PrevRecs(h, x, idx);
    PrevShape(h, PrevHeap(h, x, idx), x, idx);
  }

  lemma PrevShape(h: Heap, h': Heap, x: Ptr, idx: int)
    requires CanPrev(h, x, idx) && PrevFacts(h, h', x, idx)
    ensures var c, s := h[x].C[idx], h[x].C[idx - 1];
      var n, m := h[c].n, h[s].n;
      && h'[c].keys[..n + 1] == [h[x].keys[idx - 1]] + h[c].keys[..n]
      && (!h[c].leaf && !h[x].leaf ==> h'[c].C[..n + 2] == [h[s].C[m]] + h[c].C[..n + 1])
      && (forall q :: 0 <= q < |h| ==> h'[q].next == h[q].next)
  {
    var c, s := h[x].C[idx], h[x].C[idx - 1];
    PrevChildShape(h[c], h[x].keys[idx - 1], h[s].C[h[s].n], h[x].leaf);
  }

  lemma PrevChildShape(c: Rec, m: int, g: Ptr, xleaf: bool)
    requires Fits(c) && c.n < 2 * T
    ensures PrevChild(c, m, g, xleaf).keys[..c.n + 1] == [m] + c.keys[..c.n]
    ensures !c.leaf && !xleaf ==> PrevChild(c, m, g, xleaf).C[..c.n + 2] == [g] + c.C[..c.n + 1]
  {
    OpenSlot(c.keys, 0, c.n, m);
    if !c.leaf {
      OpenSlot(c.C, 0, c.n + 1, g);
    }
  }

  /** At a live internal node whose child idx has fewer than T keys and
      whose child idx-1 has at least T, the borrow is possible and keeps
      the invariant. */
  lemma PrevArena(h: Heap, rank: seq<nat>, root: Ptr, height: nat, x: Ptr, idx: int)
    requires Arena(h, rank, root, height) && Live(h, rank, height, x) && Fits(h[x]) && !h[x].leaf
    requires 0 < idx <= h[x].n && 0 <= h[x].C[idx] < |h| && 0 <= h[x].C[idx - 1] < |h|
    requires h[h[x].C[idx]].n < T && h[h[x].C[idx - 1]].n >= T
    ensures CanPrev(h, x, idx) && Arena(PrevHeap(h, x, idx), rank, root, height)
  {
    Kid(h, rank, root, height, x, idx);
    Kid(h, rank, root, height, x, idx - 1);
    LiveOk(h, rank, root, height, x);
    PrevRecs(h, x, idx);
    PrevRecsOk(h, PrevHeap(h, x, idx), rank, x, idx);
    Keeps3(h, PrevHeap(h, x, idx), rank, root, height, x, h[x].C[idx], h[x].C[idx - 1]);
  }

  /** The invariant survives a rewrite of three records x, c and s that
      leaves them well formed with enough keys. */
  lemma Keeps3(h: Heap, h': Heap, rank: seq<nat>, root: Ptr, height: nat, x: Ptr, c: Ptr, s: Ptr)
    requires Arena(h, rank, root, height) && Grows(h, rank, h', rank) && |h'| == |h|
    requires forall q :: 0 <= q < |h| && q != x && q != c && q != s ==> h'[q] == h[q]
    requires 0 <= x < |h| && 0 <= c < |h| && 0 <= s < |h|
    requires RecOk(h', rank, x) && RecOk(h', rank, c) && RecOk(h', rank, s)
    requires (x != root ==> h'[x].n >= T - 1) && (c != root ==> h'[c].n >= T - 1) && (s != root ==> h'[s].n >= T - 1)
    ensures Arena(h', rank, root, height)
  {
    ArenaAfter(h, rank, h', root, height, {x, c, s});
  }

  lemma PrevRecsOk(h: Heap, h': Heap, rank: seq<nat>, x: Ptr, idx: int)
    requires |rank| == |h| && CanPrev(h, x, idx) && PrevFacts(h, h', x, idx)
    requires RecOk(h, rank, x) && !h[x].leaf
    requires RecOk(h, rank, h[x].C[idx]) && RecOk(h, rank, h[x].C[idx - 1])
    requires rank[h[x].C[idx]] == rank[h[x].C[idx - 1]]
    ensures Grows(h, rank, h', rank)
    ensures forall q :: 0 <= q < |h| && q != x && q != h[x].C[idx] && q != h[x].C[idx - 1] ==> h'[q] == h[q]
    ensures RecOk(h', rank, x) && RecOk(h', rank, h[x].C[idx]) && RecOk(h', rank, h[x].C[idx - 1])
    ensures h'[x].n == h[x].n && h'[h[x].C[idx]].n == h[h[x].C[idx]].n + 1
    ensures h'[h[x].C[idx - 1]].n == h[h[x].C[idx - 1]].n - 1
  {
    var c, s := h[x].C[idx], h[x].C[idx - 1];
    Reshaped(h, rank, h', {x, c, s});
    PrevChildOk(h, rank, h', x, idx);
    RecKeptFields(h, rank, h', x);
    RecKeptFields(h, rank, h', s);
  }

  lemma PrevChildOk(h: Heap, rank: seq<nat>, h': Heap, x: Ptr, idx: int)
    requires CanPrev(h, x, idx) && PrevFacts(h, h', x, idx) && Grows(h, rank, h', rank)
    requires !h[x].leaf && RecOk(h, rank, h[x].C[idx]) && RecOk(h, rank, h[x].C[idx - 1])
    requires rank[h[x].C[idx]] == rank[h[x].C[idx - 1]]
    ensures RecOk(h', rank, h[x].C[idx])
  {
    var c, s := h[x].C[idx], h[x].C[idx - 1];
    var n, g := h[c].n, h[s].C[h[s].n];
    if !h[c].leaf {
      forall j | 0 <= j <= n + 1 ensures 0 <= h'[c].C[j] < |h'| && rank[h'[c].C[j]] + 1 == rank[c] {
        if j > 0 {
          assert h'[c].C[j] == h[c].C[j - 1];
        }
      }
    } else {
      assert g == NULL;
      assert NoKids(h'[c]);
    }
    if h[c].next != NULL {
      assert h'[h[c].next].leaf == h[h[c].next].leaf;
    }
  }

  /** A record whose leaf flag, children and next stay and whose key count
      does not rise above a bound it met stays well formed; used for the
      parent and the sibling, which change their keys or shrink. */
  lemma RecKeptFields(h: Heap, rank: seq<nat>, h': Heap, p: Ptr)
    requires Grows(h, rank, h', rank) && 0 <= p < |h| && RecOk(h, rank, p)
    requires h'[p].leaf == h[p].leaf && h'[p].C == h[p].C && h'[p].next == h[p].next
    requires |h'[p].keys| == |h[p].keys| && 0 <= h'[p].n <= h[p].n
    ensures RecOk(h', rank, p)
  {
    if !h[p].leaf {
      forall j | 0 <= j <= h'[p].n ensures 0 <= h'[p].C[j] < |h'| && rank[h'[p].C[j]] + 1 == rank[p] {
      }
    }
    if h[p].next != NULL {
      assert h'[h[p].next].leaf == h[h[p].next].leaf;
    }
  }

  // ---------------------------------------------------------------------
  // borrowFromNext (bplustree.c:155-179)
  // ---------------------------------------------------------------------

  /** What borrowFromNext(x, idx) needs of the records. */
  predicate CanNext(h: Heap, x: Ptr, idx: int)
  {
    && 0 <= x < |h| && Fits(h[x]) && 0 <= idx < h[x].n
    && 0 <= h[x].C[idx] < |h| && 0 <= h[x].C[idx + 1] < |h|
    && x != h[x].C[idx] && x != h[x].C[idx + 1] && h[x].C[idx] != h[x].C[idx + 1]
    && Fits(h[h[x].C[idx]]) && Fits(h[h[x].C[idx + 1]])
    && h[h[x].C[idx]].n < 2 * T && h[h[x].C[idx + 1]].n >= 1
  }

  /** The child after bplustree.c:159-163 and 177: the separator m after its
      keys and, when it is internal, g after its children. */
  function NextChild(c: Rec, m: int, g: Ptr): (r: Rec)
    requires Fits(c) && c.n < 2 * T
    ensures Fits(r) && r.n == c.n + 1 && r.leaf == c.leaf && r.next == c.next
  {
    c.(keys := c.keys[c.n := m], C := if c.leaf then c.C else c.C[c.n + 1 := g], n := c.n + 1)
  }

  /** The sibling after bplustree.c:167-175 and 178: its keys and, when it
      is internal, its children move one slot left over the first. */
  function NextSib(s: Rec): (r: Rec)
    requires Fits(s) && s.n >= 1
    ensures Fits(r) && r.n == s.n - 1 && r.leaf == s.leaf && r.next == s.next
  {
    s.(keys := ShiftL(s.keys, 0, s.n), C := if s.leaf then s.C else ShiftL(s.C, 0, s.n + 1), n := s.n - 1)
  }

  /** The arena after borrowFromNext(x, idx). */
  function NextHeap(h: Heap, x: Ptr, idx: int): Heap
    requires CanNext(h, x, idx)
  {
    var c, s := h[x].C[idx], h[x].C[idx + 1];
    h[c := NextChild(h[c], h[x].keys[idx], h[s].C[0])]
     [x := h[x].(keys := h[x].keys[idx := h[s].keys[0]])]
     [s := NextSib(h[s])]
  }

  predicate NextFacts(h: Heap, h': Heap, x: Ptr, idx: int)
    requires CanNext(h, x, idx)
  {
    var c, s := h[x].C[idx], h[x].C[idx + 1];
    && |h'| == |h|
    && h'[c] == NextChild(h[c], h[x].keys[idx], h[s].C[0])
    && h'[x] == h[x].(keys := h[x].keys[idx := h[s].keys[0]])
    && h'[s] == NextSib(h[s])
    && forall q :: 0 <= q < |h| && q != x && q != c && q != s ==> h'[q] == h[q]
  }

  lemma NextRecs(h: Heap, x: Ptr, idx: int)
    requires CanNext(h, x, idx)
    ensures NextFacts(h, NextHeap(h, x, idx), x, idx)
  {
  }

  /** What borrowFromNext leaves: the separator after the child's keys
      and, for an internal child, the sibling's first child after its
      children; the sibling's first key in the separator's place; the
      sibling without its first key and first child; nothing else changed,
      no next link included. */
  lemma NextEffect(h: Heap, x: Ptr, idx: int)
    requires CanNext(h, x, idx)
    ensures var h', c, s := NextHeap(h, x, idx), h[x].C[idx], h[x].C[idx + 1];
      var n, m := h[c].n, h[s].n;
      && |h'| == |h| && h'[c].n == n + 1 && h'[c].leaf == h[c].leaf
      && h'[c].keys[..n + 1] == h[c].keys[..n] + [h[x].keys[idx]]
      && (!h[c].leaf ==> h'[c].C[..n + 2] == h[c].C[..n + 1] + [h[s].C[0]])
      && h'[x].n == h[x].n && h'[x].C == h[x].C
      && h'[x].keys == h[x].keys[idx := h[s].keys[0]]
      && h'[s].n == m - 1 && h'[s].keys[..m - 1] == h[s].keys[1..m]
      && (!h[s].leaf ==> h'[s].C[..m] == h[s].C[1..m + 1])
      && (forall q :: 0 <= q < |h| ==> h'[q].next == h[q].next)
      && (forall q :: 0 <= q < |h| && q != x && q != c && q != s ==> h'[q] == h[q])
  {
    NextRecs(h, x, idx);
    NextShape(h, NextHeap(h, x, idx), x, idx);
  }

  lemma NextShape(h: Heap, h': Heap, x: Ptr, idx: int)
    requires CanNext(h, x, idx) && NextFacts(h, h', x, idx)
    ensures var c, s := h[x].C[idx], h[x].C[idx + 1];
      var n, m := h[c].n, h[s].n;
      && h'[c].keys[..n + 1] == h[c].keys[..n] + [h[x].keys[idx]]
      && (!h[c].leaf ==> h'[c].C[..n + 2] == h[c].C[..n + 1] + [h[s].C[0]])
      && h'[s].keys[..m - 1] == h[s].keys[1..m]
      && (!h[s].leaf ==> h'[s].C[..m] == h[s].C[1..m + 1])
      && (forall q :: 0 <= q < |h| ==> h'[q].next == h[q].next)
  {
    var c, s := h[x].C[idx], h[x].C[idx + 1];
    var n, m := h[c].n, h[s].n;
    assert h'[c].keys[..n + 1] == h[c].keys[..n] + [h[x].keys[idx]];
    if !h[c].leaf {
      assert h'[c].C[..n + 2] == h[c].C[..n + 1] + [h[s].C[0]];
    }
    CloseSlot(h[s].keys, 0, m);
    if !h[s].leaf {
      CloseSlot(h[s].C, 0, m + 1);
    }
  }

  /** At a live internal node whose child idx has fewer than T keys and
      whose child idx+1 has at least T, the borrow is possible and keeps
      the invariant. */
  lemma NextArena(h: Heap, rank: seq<nat>, root: Ptr, height: nat, x: Ptr, idx: int)
    requires Arena(h, rank, root, height) && Live(h, rank, height, x) && Fits(h[x]) && !h[x].leaf
    requires 0 <= idx < h[x].n && 0 <= h[x].C[idx] < |h| && 0 <= h[x].C[idx + 1] < |h|
    requires h[h[x].C[idx]].n < T && h[h[x].C[idx + 1]].n >= T
    ensures CanNext(h, x, idx) && Arena(NextHeap(h, x, idx), rank, root, height)
  {
    Kid(h, rank, root, height, x, idx);
    Kid(h, rank, root, height, x, idx + 1);
    LiveOk(h, rank, root, height, x);
    NextRecs(h, x, idx);
    NextKeeps(h, NextHeap(h, x, idx), rank, root, height, x, idx);
  }

  lemma NextKeeps(h: Heap, h': Heap, rank: seq<nat>, root: Ptr, height: nat, x: Ptr, idx: int)
    requires Arena(h, rank, root, height) && CanNext(h, x, idx) && NextFacts(h, h', x, idx)
    requires RecOk(h, rank, x) && Live(h, rank, height, x) && !h[x].leaf
    requires RecOk(h, rank, h[x].C[idx]) && RecOk(h, rank, h[x].C[idx + 1])
    requires rank[h[x].C[idx]] == rank[h[x].C[idx + 1]] && rank[h[x].C[idx]] + 1 == rank[x]
    requires h[x].C[idx] != root && h[x].C[idx + 1] != root
    requires h[h[x].C[idx]].n < T && h[h[x].C[idx + 1]].n >= T
    ensures Arena(h', rank, root, height)
  {
    var c, s := h[x].C[idx], h[x].C[idx + 1];
    Reshaped(h, rank, h', {x, c, s});
    NextChildOk(h, rank, h', x, idx);
    NextSibOk(h, rank, h', x, idx);
    RecKeptFields(h, rank, h', x);
    GoodOf(h', rank, root, height, x);
    GoodOf(h', rank, root, height, c);
    GoodOf(h', rank, root, height, s);
    ArenaFrom(h, rank, h', rank, root, height, {x, c, s});
  }

  lemma NextChildOk(h: Heap, rank: seq<nat>, h': Heap, x: Ptr, idx: int)
    requires CanNext(h, x, idx) && NextFacts(h, h', x, idx) && Grows(h, rank, h', rank)
    requires RecOk(h, rank, h[x].C[idx]) && RecOk(h, rank, h[x].C[idx + 1])
    requires rank[h[x].C[idx]] == rank[h[x].C[idx + 1]]
    ensures RecOk(h', rank, h[x].C[idx])
  {
    var c, s := h[x].C[idx], h[x].C[idx + 1];
    if !h[c].leaf {
      forall j | 0 <= j <= h[c].n + 1 ensures 0 <= h'[c].C[j] < |h'| && rank[h'[c].C[j]] + 1 == rank[c] {
        if j <= h[c].n {
          assert h'[c].C[j] == h[c].C[j];
        }
      }
    }
    if h[c].next != NULL {
      assert h'[h[c].next].leaf == h[h[c].next].leaf;
    }
  }

  lemma NextSibOk(h: Heap, rank: seq<nat>, h': Heap, x: Ptr, idx: int)
    requires CanNext(h, x, idx) && NextFacts(h, h', x, idx) && Grows(h, rank, h', rank)
    requires RecOk(h, rank, h[x].C[idx + 1])
    ensures RecOk(h', rank, h[x].C[idx + 1])
  {
    var s := h[x].C[idx + 1];
    if !h[s].leaf {
      forall j | 0 <= j <= h[s].n - 1 ensures 0 <= h'[s].C[j] < |h'| && rank[h'[s].C[j]] + 1 == rank[s] {
        assert h'[s].C[j] == h[s].C[j + 1];
      }
    }
    if h[s].next != NULL {
      assert h'[h[s].next].leaf == h[h[s].next].leaf;
    }
  }

  // ---------------------------------------------------------------------
  // merge (bplustree.c:182-210)
  // ---------------------------------------------------------------------

  /** What merge(x, idx) needs of the records: child slots idx and idx+1
      hold records other than x, both with fewer than T keys, so that the
      child at T-1 and the sibling's keys after it fit. The two slots may
      hold the same record: a borrow from the previous sibling can put a
      child both slots share into two adjacent slots. */
  predicate CanMerge(h: Heap, x: Ptr, idx: int)
  {
    && 0 <= x < |h| && Fits(h[x]) && 0 <= idx < h[x].n
    && 0 <= h[x].C[idx] < |h| && 0 <= h[x].C[idx + 1] < |h|
    && x != h[x].C[idx] && x != h[x].C[idx + 1]
    && Fits(h[h[x].C[idx]]) && Fits(h[h[x].C[idx + 1]])
    && h[h[x].C[idx]].n < T && h[h[x].C[idx + 1]].n < T
  }

  /** The child after bplustree.c:186-196 and 206: the separator m in slot
      T-1, the sibling r's keys and, when the child is internal, its
      children from slot T on, and n grown by r's keys plus one. */
  function MergeChild(c: Rec, m: int, r: Rec): (c': Rec)
    requires Fits(c) && Fits(r) && c.n < T && r.n < T
    ensures Fits(c') && c'.n == c.n + r.n + 1 && c'.leaf == c.leaf && c'.next == c.next
  {
    c.(keys := Blit(c.keys[T - 1 := m], T, r.keys, 0, r.n),
       C := if c.leaf then c.C else Blit(c.C, T, r.C, 0, r.n + 1),
       n := c.n + r.n + 1)
  }

  /** The parent after bplustree.c:198-204 and 207: key idx and child idx+1
      closed up. */
  function MergeParent(r: Rec, idx: int): (r': Rec)
    requires Fits(r) && 0 <= idx < r.n
    ensures Fits(r') && r'.n == r.n - 1 && r'.leaf == r.leaf && r'.next == r.next
  {
    r.(keys := ShiftL(r.keys, idx, r.n), C := ShiftL(r.C, idx + 1, r.n + 1), n := r.n - 1)
  }

  /** The arena after merge(x, idx). free(sibling) only drops the pointer:
      the sibling's record stays as it was. */
  function MergeHeap(h: Heap, x: Ptr, idx: int): Heap
    requires CanMerge(h, x, idx)
  {
    var c, s := h[x].C[idx], h[x].C[idx + 1];
    h[c := MergeChild(h[c], h[x].keys[idx], h[s])][x := MergeParent(h[x], idx)]
  }

  predicate MergeFacts(h: Heap, h': Heap, x: Ptr, idx: int)
    requires CanMerge(h, x, idx)
  {
    var c, s := h[x].C[idx], h[x].C[idx + 1];
    && |h'| == |h|
    && h'[c] == MergeChild(h[c], h[x].keys[idx], h[s])
    && h'[x] == MergeParent(h[x], idx)
    && forall q :: 0 <= q < |h| && q != x && q != c ==> h'[q] == h[q]
  }

  lemma MergeRecs(h: Heap, x: Ptr, idx: int)
    requires CanMerge(h, x, idx)
    ensures MergeFacts(h, MergeHeap(h, x, idx), x, idx)
  {
  }

  /** What merge leaves: a child of T-1 keys holds them, then the
      separator, then the sibling's keys and, when internal, its children
      followed by the sibling's; the parent loses key idx and child idx+1;
      the sibling's record and every next link are as they were, so a leaf
      before the freed sibling still links to it. */
  lemma MergeEffect(h: Heap, x: Ptr, idx: int)
    requires CanMerge(h, x, idx)
    ensures var h', c, s := MergeHeap(h, x, idx), h[x].C[idx], h[x].C[idx + 1];
      var n, m, p := h[c].n, h[s].n, h[x].n;
      && |h'| == |h| && h'[c].n == n + m + 1 && h'[c].leaf == h[c].leaf
      && (n == T - 1 ==> h'[c].keys[..n + m + 1] == h[c].keys[..n] + [h[x].keys[idx]] + h[s].keys[..m])
      && (n == T - 1 && !h[c].leaf ==> h'[c].C[..n + m + 2] == h[c].C[..n + 1] + h[s].C[..m + 1])
      && h'[x].n == p - 1 && h'[x].leaf == h[x].leaf
      && h'[x].keys[..p - 1] == h[x].keys[..idx] + h[x].keys[idx + 1..p]
      && h'[x].C[..p] == h[x].C[..idx + 1] + h[x].C[idx + 2..p + 1]
      && (s != c ==> h'[s] == h[s])
      && (forall q :: 0 <= q < |h| ==> h'[q].next == h[q].next)
      && (forall q :: 0 <= q < |h| && q != x && q != c ==> h'[q] == h[q])
  {
    MergeRecs(h, x, idx);
    if h[h[x].C[idx]].n == T - 1 {
      MergeChildShape(h[h[x].C[idx]], h[x].keys[idx], h[h[x].C[idx + 1]]);
    }
    MergeParentShape(h[x], idx);
  }

  lemma MergeChildShape(c: Rec, m: int, r: Rec)
    requires Fits(c) && Fits(r) && c.n == T - 1 && r.n < T
    ensures var c' := MergeChild(c, m, r);
      && c'.keys[..c.n + r.n + 1] == c.keys[..c.n] + [m] + r.keys[..r.n]
      && (!c.leaf ==> c'.C[..c.n + r.n + 2] == c.C[..c.n + 1] + r.C[..r.n + 1])
  {
    var c' := MergeChild(c, m, r);
    var w := c.keys[..c.n] + [m] + r.keys[..r.n];
    forall t | 0 <= t < c.n + r.n + 1 ensures c'.keys[t] == w[t] {
      if t < T - 1 {
        assert w[t] == c.keys[t];
      } else if t >= T {
        assert w[t] == r.keys[t - T];
      }
    }
    if !c.leaf {
      var v := c.C[..c.n + 1] + r.C[..r.n + 1];
      forall t | 0 <= t < c.n + r.n + 2 ensures c'.C[t] == v[t] {
        if t < T {
          assert v[t] == c.C[t];
        } else {
          assert v[t] == r.C[t - T];
        }
      }
    }
  }

  lemma MergeParentShape(r: Rec, idx: int)
    requires Fits(r) && 0 <= idx < r.n
    ensures MergeParent(r, idx).keys[..r.n - 1] == r.keys[..idx] + r.keys[idx + 1..r.n]
    ensures MergeParent(r, idx).C[..r.n] == r.C[..idx + 1] + r.C[idx + 2..r.n + 1]
  {
    CloseSlot(r.keys, idx, r.n);
    CloseSlot(r.C, idx + 1, r.n + 1);
  }

  /** At a live internal node with a key to lose (it is the root, or holds
      at least T keys) whose children idx and idx+1 both hold fewer than T
      keys, the merge is possible and keeps the invariant. */
  lemma MergeArena(h: Heap, rank: seq<nat>, root: Ptr, height: nat, x: Ptr, idx: int)
    requires Arena(h, rank, root, height) && Live(h, rank, height, x) && Fits(h[x]) && !h[x].leaf
    requires 0 <= idx < h[x].n && (x == root || h[x].n >= T)
    requires 0 <= h[x].C[idx] < |h| && 0 <= h[x].C[idx + 1] < |h|
    requires h[h[x].C[idx]].n < T && h[h[x].C[idx + 1]].n < T
    ensures CanMerge(h, x, idx) && Arena(MergeHeap(h, x, idx), rank, root, height)
  {
    Kid(h, rank, root, height, x, idx);
    Kid(h, rank, root, height, x, idx + 1);
    LiveOk(h, rank, root, height, x);
    MergeRecs(h, x, idx);
    MergeKeeps(h, MergeHeap(h, x, idx), rank, root, height, x, idx);
  }

  lemma MergeKeeps(h: Heap, h': Heap, rank: seq<nat>, root: Ptr, height: nat, x: Ptr, idx: int)
    requires Arena(h, rank, root, height) && CanMerge(h, x, idx) && MergeFacts(h, h', x, idx)
    requires RecOk(h, rank, x) && Live(h, rank, height, x) && !h[x].leaf && (x == root || h[x].n >= T)
    requires RecOk(h, rank, h[x].C[idx]) && RecOk(h, rank, h[x].C[idx + 1])
    requires rank[h[x].C[idx]] == rank[h[x].C[idx + 1]] && rank[h[x].C[idx]] + 1 == rank[x]
    requires h[x].C[idx] != root && h[h[x].C[idx]].n >= T - 1
    ensures Arena(h', rank, root, height)
  {
    var c := h[x].C[idx];
    Reshaped(h, rank, h', {x, c});
    MergeChildOk(h, rank, h', x, idx);
    MergeParentOk(h, rank, h', x, idx);
    GoodOf(h', rank, root, height, x);
    GoodOf(h', rank, root, height, c);
    ArenaFrom(h, rank, h', rank, root, height, {x, c});
  }

  lemma MergeChildOk(h: Heap, rank: seq<nat>, h': Heap, x: Ptr, idx: int)
    requires CanMerge(h, x, idx) && MergeFacts(h, h', x, idx) && Grows(h, rank, h', rank)
    requires RecOk(h, rank, h[x].C[idx]) && RecOk(h, rank, h[x].C[idx + 1])
    requires rank[h[x].C[idx]] == rank[h[x].C[idx + 1]] && h[h[x].C[idx]].n == T - 1
    ensures RecOk(h', rank, h[x].C[idx])
  {
    var c, s := h[x].C[idx], h[x].C[idx + 1];
    if !h[c].leaf {
      forall j | 0 <= j <= h'[c].n ensures 0 <= h'[c].C[j] < |h'| && rank[h'[c].C[j]] + 1 == rank[c] {
        if j < T {
          assert h'[c].C[j] == h[c].C[j];
        } else {
          assert h'[c].C[j] == h[s].C[j - T];
        }
      }
    }
    if h[c].next != NULL {
      assert h'[h[c].next].leaf == h[h[c].next].leaf;
    }
  }

  lemma MergeParentOk(h: Heap, rank: seq<nat>, h': Heap, x: Ptr, idx: int)
    requires CanMerge(h, x, idx) && MergeFacts(h, h', x, idx) && Grows(h, rank, h', rank)
    requires RecOk(h, rank, x) && !h[x].leaf
    ensures RecOk(h', rank, x)
  {
    forall j | 0 <= j <= h'[x].n ensures 0 <= h'[x].C[j] < |h'| && rank[h'[x].C[j]] + 1 == rank[x] {
      if j <= idx {
        assert h'[x].C[j] == h[x].C[j];
      } else {
        assert h'[x].C[j] == h[x].C[j + 1];
      }
    }
    if h[x].next != NULL {
      assert h'[h[x].next].leaf == h[h[x].next].leaf;
    }
  }

  // ---------------------------------------------------------------------
  // adjustAfterDeletion (bplustree.c:213-225)
  // ---------------------------------------------------------------------

  /** Record p exists and holds at least T keys, so it can lend one. */
  predicate Rich(h: Heap, p: Ptr)
  {
    0 <= p < |h| && h[p].n >= T
  }

  /** What deleteNode asks of the node x it is called on: the root holds
      a key unless it is a leaf, any other node holds at least T keys. */
  predicate Roomy(h: Heap, root: Ptr, x: Ptr)
    requires 0 <= x < |h|
  {
    if x == root then h[x].leaf || h[x].n >= 1 else h[x].n >= T
  }

  /** x's child idx is thin: it holds fewer than T keys. */
  predicate Thin(h: Heap, rank: seq<nat>, root: Ptr, height: nat, x: Ptr, idx: int)
  {
    && Arena(h, rank, root, height) && Live(h, rank, height, x) && Fits(h[x]) && !h[x].leaf
    && Roomy(h, root, x) && 0 <= idx <= h[x].n && 0 <= h[x].C[idx] < |h| && h[h[x].C[idx]].n < T
  }

  /** The arena after adjustAfterDeletion(x, idx) on a thin child idx: a key
      from the previous sibling when it can lend one, else from the next
      sibling when it can, else a merge with the next sibling, or with the
      previous one when idx is the last child. */
  function AdjustHeap(h: Heap, rank: seq<nat>, root: Ptr, height: nat, x: Ptr, idx: int): Heap
    requires Thin(h, rank, root, height, x, idx)
  {
    if idx != 0 && Rich(h, h[x].C[idx - 1]) then
      PrevCan(h, rank, root, height, x, idx);
      PrevHeap(h, x, idx)
    else if idx != h[x].n && Rich(h, h[x].C[idx + 1]) then
      NextCan(h, rank, root, height, x, idx);
      NextHeap(h, x, idx)
    else if idx != h[x].n then
      MergeNext(h, rank, root, height, x, idx);
      MergeHeap(h, x, idx)
    else
      MergePrev(h, rank, root, height, x, idx);
      MergeHeap(h, x, idx - 1)
  }

  /** A previous sibling that can lend lets borrowFromPrev run. */
  lemma PrevCan(h: Heap, rank: seq<nat>, root: Ptr, height: nat, x: Ptr, idx: int)
    requires Thin(h, rank, root, height, x, idx) && idx != 0 && Rich(h, h[x].C[idx - 1])
    ensures CanPrev(h, x, idx)
  {
    PrevArena(h, rank, root, height, x, idx);
  }

  /** A next sibling that can lend lets borrowFromNext run. */
  lemma NextCan(h: Heap, rank: seq<nat>, root: Ptr, height: nat, x: Ptr, idx: int)
    requires Thin(h, rank, root, height, x, idx) && idx != h[x].n && Rich(h, h[x].C[idx + 1])
    ensures CanNext(h, x, idx)
  {
    NextArena(h, rank, root, height, x, idx);
  }

  /** With neither sibling able to lend, merge(x, idx) may run. */
  lemma MergeNext(h: Heap, rank: seq<nat>, root: Ptr, height: nat, x: Ptr, idx: int)
    requires Thin(h, rank, root, height, x, idx) && idx != h[x].n && !Rich(h, h[x].C[idx + 1])
    ensures CanMerge(h, x, idx)
  {
    Kid(h, rank, root, height, x, idx);
    Kid(h, rank, root, height, x, idx + 1);
  }

  /** For the last child, with the previous sibling unable to lend,
      merge(x, idx - 1) may run: x is internal, so it holds a key and idx
      is not 0. */
  lemma MergePrev(h: Heap, rank: seq<nat>, root: Ptr, height: nat, x: Ptr, idx: int)
    requires Thin(h, rank, root, height, x, idx) && idx == h[x].n && !(idx != 0 && Rich(h, h[x].C[idx - 1]))
    ensures idx >= 1 && CanMerge(h, x, idx - 1)
  {
    LiveOk(h, rank, root, height, x);
    Kid(h, rank, root, height, x, idx - 1);
    Kid(h, rank, root, height, x, idx);
  }

  /** The child deleteNode goes on to after the adjustment at bplustree.c:247-251:
      child idx - 1 when idx was the last child and x lost a key, else
      child idx. */
  function Descend(n: int, n': int, idx: int): (j: int)
    ensures j == idx || (j == idx - 1 && n' < n)
  {
    if idx == n && idx > n' then idx - 1 else idx
  }

  /** h' is h after an adjustment at x's child idx: the invariant holds,
      levels and leaf flags are kept, nothing at x's level or above but x
      changed, and the child where deleteNode goes on holds at least T
      keys. */
  predicate Adjusted(h: Heap, rank: seq<nat>, root: Ptr, height: nat, x: Ptr, idx: int, h': Heap)
  {
    && Arena(h', rank, root, height) && |h'| == |h| && Grows(h, rank, h', rank) && 0 <= x < |h|
    && (forall q :: 0 <= q < |h| && q != x && rank[q] >= rank[x] ==> h'[q] == h[q])
    && Fits(h'[x]) && !h'[x].leaf
    && var j := Descend(h[x].n, h'[x].n, idx);
      && 0 <= j <= h'[x].n && 0 <= h'[x].C[j] < |h'| && rank[h'[x].C[j]] + 1 == rank[x] && h'[h'[x].C[j]].n >= T
  }

  /** The child idx after borrowFromPrev holds T keys, and x keeps its n. */
  lemma AdjustPrev(h: Heap, rank: seq<nat>, root: Ptr, height: nat, x: Ptr, idx: int)
    requires Thin(h, rank, root, height, x, idx) && idx != 0 && Rich(h, h[x].C[idx - 1])
    ensures CanPrev(h, x, idx) && Adjusted(h, rank, root, height, x, idx, PrevHeap(h, x, idx))
    ensures PrevHeap(h, x, idx)[x].n == h[x].n
  {
    Kid(h, rank, root, height, x, idx);
    Kid(h, rank, root, height, x, idx - 1);
    PrevArena(h, rank, root, height, x, idx);
    PrevEffect(h, x, idx);
    Reshaped(h, rank, PrevHeap(h, x, idx), {x, h[x].C[idx], h[x].C[idx - 1]});
  }

  /** The child idx after borrowFromNext holds T keys, and x keeps its n. */
  lemma AdjustNext(h: Heap, rank: seq<nat>, root: Ptr, height: nat, x: Ptr, idx: int)
    requires Thin(h, rank, root, height, x, idx) && idx != h[x].n && Rich(h, h[x].C[idx + 1])
    ensures CanNext(h, x, idx) && Adjusted(h, rank, root, height, x, idx, NextHeap(h, x, idx))
    ensures NextHeap(h, x, idx)[x].n == h[x].n
  {
    Kid(h, rank, root, height, x, idx);
    Kid(h, rank, root, height, x, idx + 1);
    NextArena(h, rank, root, height, x, idx);
    NextEffect(h, x, idx);
    Reshaped(h, rank, NextHeap(h, x, idx), {x, h[x].C[idx], h[x].C[idx + 1]});
  }

  /** After merge(x, i) the merged child i holds at least 2T-1 keys and x
      one key fewer. */
  lemma AdjustMerge(h: Heap, rank: seq<nat>, root: Ptr, height: nat, x: Ptr, idx: int, i: int)
    requires Arena(h, rank, root, height) && Live(h, rank, height, x) && CanMerge(h, x, i)
    requires !h[x].leaf && (x == root || h[x].n >= T)
    requires (i == idx && idx < h[x].n) || (i == idx - 1 && idx == h[x].n)
    ensures Adjusted(h, rank, root, height, x, idx, MergeHeap(h, x, i))
    ensures MergeHeap(h, x, i)[x].n == h[x].n - 1
  {
    Kid(h, rank, root, height, x, i);
    Kid(h, rank, root, height, x, i + 1);
    MergeArena(h, rank, root, height, x, i);
    MergeEffect(h, x, i);
    var h' := MergeHeap(h, x, i);
    assert h'[x].C[i] == h'[x].C[..h[x].n][i] == h[x].C[i];
    Reshaped(h, rank, h', {x, h[x].C[i]});
  }

  /** adjustAfterDeletion keeps the invariant and leaves the child deleteNode
      descends into with at least T keys; x loses a key exactly when
      neither sibling could lend one, and a sibling that can lend is used,
      the previous one first. */
  lemma AdjustKeeps(h: Heap, rank: seq<nat>, root: Ptr, height: nat, x: Ptr, idx: int)
    requires Thin(h, rank, root, height, x, idx)
    ensures var h' := AdjustHeap(h, rank, root, height, x, idx);
      && Adjusted(h, rank, root, height, x, idx, h')
      && (h'[x].n == h[x].n || h'[x].n == h[x].n - 1)
      && (h'[x].n == h[x].n - 1 <==> !(idx != 0 && Rich(h, h[x].C[idx - 1])) && !(idx != h[x].n && Rich(h, h[x].C[idx + 1])))
      && (idx != 0 && Rich(h, h[x].C[idx - 1]) ==> CanPrev(h, x, idx) && h' == PrevHeap(h, x, idx))
      && (!(idx != 0 && Rich(h, h[x].C[idx - 1])) && idx != h[x].n && Rich(h, h[x].C[idx + 1]) ==>
            CanNext(h, x, idx) && h' == NextHeap(h, x, idx))
  {
    if idx != 0 && Rich(h, h[x].C[idx - 1]) {
      AdjustPrev(h, rank, root, height, x, idx);
    } else if idx != h[x].n && Rich(h, h[x].C[idx + 1]) {
      AdjustNext(h, rank, root, height, x, idx);
    } else if idx != h[x].n {
      MergeNext(h, rank, root, height, x, idx);
      AdjustMerge(h, rank, root, height, x, idx, idx);
    } else {
      MergePrev(h, rank, root, height, x, idx);
      AdjustMerge(h, rank, root, height, x, idx, idx - 1);
    }
  }

  // ---------------------------------------------------------------------
  // deleteNode (bplustree.c:228-256)
  // ---------------------------------------------------------------------

  /** The arena after deleteNode(x, k). The scan stops at the first key not
      below k. On k at a leaf the key is removed; on k at an internal node
      nothing happens (the branch at bplustree.c:237-239 is empty); a leaf
      without k is left alone. Otherwise a thin child is adjusted first and
      the descent goes on into the child Descend picks; without an
      adjustment x keeps its n and that child is child idx. */
  function DeleteHeap(h: Heap, rank: seq<nat>, root: Ptr, height: nat, x: Ptr, k: int): Heap
    requires Arena(h, rank, root, height) && Live(h, rank, height, x) && Fits(h[x]) && Roomy(h, root, x)
    decreases rank[x]
  {
    var idx := LowerIdx(h[x].keys[..h[x].n], k);
    if idx < h[x].n && h[x].keys[idx] == k then
      if h[x].leaf then h[x := DropKey(h[x], idx)] else h
    else if h[x].leaf then h
    else
      Kid(h, rank, root, height, x, idx);
      if h[h[x].C[idx]].n < T then
        AdjustKeeps(h, rank, root, height, x, idx);
        var h1 := AdjustHeap(h, rank, root, height, x, idx);
        var c := h1[x].C[Descend(h[x].n, h1[x].n, idx)];
        LiveOk(h1, rank, root, height, c);
        DeleteHeap(h1, rank, root, height, c, k)
      else
        DeleteHeap(h, rank, root, height, h[x].C[idx], k)
  }

  /** deleteNode keeps the invariant, the arena's size, every level and leaf
      flag, and every record at x's level or above other than x; x keeps
      its leaf flag and loses at most one key. */
  lemma {:induction false} DeleteKeeps(h: Heap, rank: seq<nat>, root: Ptr, height: nat, x: Ptr, k: int)
    requires Arena(h, rank, root, height) && Live(h, rank, height, x) && Fits(h[x]) && Roomy(h, root, x)
    ensures var h' := DeleteHeap(h, rank, root, height, x, k);
      && Arena(h', rank, root, height) && |h'| == |h| && Grows(h, rank, h', rank)
      && (forall q :: 0 <= q < |h| && q != x && rank[q] >= rank[x] ==> h'[q] == h[q])
      && Fits(h'[x]) && h'[x].leaf == h[x].leaf && (h'[x].n == h[x].n || h'[x].n == h[x].n - 1)
    decreases rank[x]
  {
    LiveOk(h, rank, root, height, x);
    var idx := LowerIdx(h[x].keys[..h[x].n], k);
    if idx < h[x].n && h[x].keys[idx] == k {
      if h[x].leaf {
        DropArena(h, rank, root, height, x, idx);
      }
    } else if !h[x].leaf {
      Kid(h, rank, root, height, x, idx);
      if h[h[x].C[idx]].n < T {
        AdjustKeeps(h, rank, root, height, x, idx);
        var h1 := AdjustHeap(h, rank, root, height, x, idx);
        var c := h1[x].C[Descend(h[x].n, h1[x].n, idx)];
        LiveOk(h1, rank, root, height, c);
        DeleteKeeps(h1, rank, root, height, c, k);
        DeleteFrame(h, h1, DeleteHeap(h1, rank, root, height, c, k), rank, x, c);
      } else {
        var c := h[x].C[idx];
        DeleteKeeps(h, rank, root, height, c, k);
        DeleteFrame(h, h, DeleteHeap(h, rank, root, height, c, k), rank, x, c);
      }
    }
  }

  /** An adjustment at x followed by a deletion below x's child c. */
  lemma DeleteFrame(h: Heap, h1: Heap, h2: Heap, rank: seq<nat>, x: Ptr, c: Ptr)
    requires Grows(h, rank, h1, rank) && Grows(h1, rank, h2, rank) && |h2| == |h1| == |h|
    requires 0 <= x < |h| && 0 <= c < |h| && rank[c] + 1 == rank[x]
    requires forall q :: 0 <= q < |h| && q != x && rank[q] >= rank[x] ==> h1[q] == h[q]
    requires forall q :: 0 <= q < |h| && q != c && rank[q] >= rank[c] ==> h2[q] == h1[q]
    ensures Grows(h, rank, h2, rank) && h2[x] == h1[x]
    ensures forall q :: 0 <= q < |h| && q != x && rank[q] >= rank[x] ==> h2[q] == h[q]
  {
  }

  /** At a leaf, deleteNode removes the first k among the live keys and
      changes nothing else; the keys stay sorted and one k leaves their
      multiset. A leaf without k is left as it was. */
  lemma DeleteAtLeaf(h: Heap, rank: seq<nat>, root: Ptr, height: nat, x: Ptr, k: int)
    requires Arena(h, rank, root, height) && Live(h, rank, height, x) && Fits(h[x]) && Roomy(h, root, x)
    requires h[x].leaf && Sorted(h[x].keys[..h[x].n])
    ensures var h', s := DeleteHeap(h, rank, root, height, x, k), h[x].keys[..h[x].n];
      && |h'| == |h| && Fits(h'[x]) && (forall q :: 0 <= q < |h| && q != x ==> h'[q] == h[q])
      && h'[x].keys[..h'[x].n] == RemoveOne(s, k) && Sorted(h'[x].keys[..h'[x].n])
      && (k in s ==> h'[x].n == h[x].n - 1 && multiset(h'[x].keys[..h'[x].n]) == multiset(s) - multiset{k})
      && (k !in s ==> h' == h)
  {
    var s := h[x].keys[..h[x].n];
    LowerIdxFinds(s, k);
    if k in s {
      DropKeyRemoves(h[x], k);
    }
  }

  /** When the scan at an internal node stops on k (bplustree.c:234-239),
      deleteNode does nothing at all, whatever the order of the keys:
      neither that copy nor the one in the leaf below is removed. */
  lemma DeleteAtInternalHit(h: Heap, rank: seq<nat>, root: Ptr, height: nat, x: Ptr, k: int)
    requires Arena(h, rank, root, height) && Live(h, rank, height, x) && Fits(h[x]) && Roomy(h, root, x)
    requires !h[x].leaf
    requires LowerIdx(h[x].keys[..h[x].n], k) < h[x].n && h[x].keys[LowerIdx(h[x].keys[..h[x].n], k)] == k
    ensures DeleteHeap(h, rank, root, height, x, k) == h
  {
  }
}
