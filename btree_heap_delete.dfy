// Deletion (btree.c:115-240) on the arena: the records and footprints that
// borrowFromPrev, borrowFromNext, merge and removeFromLeaf leave, and the
// proofs that they stand for BorrowFromPrev, BorrowFromNext, Merge and
// RemoveFromLeaf of btree_delete.dfy.
module BTreeHeapDelete {
  import opened Shifts
  import opened BTreeModel
  import opened BTreeDelete
  import opened BTreeHeap

  // ---------------------------------------------------------------------
  // Runs of subtrees
  // ---------------------------------------------------------------------

  /** The pointers A stand for the trees KA at height e, their footprints
      lie in S and are pairwise disjoint. */
  predicate Run(h: Heap, fp: seq<set<Ptr>>, A: seq<Ptr>, e: nat, KA: seq<Tree>, S: set<Ptr>)
  {
    && |KA| == |A|
    && (forall k :: 0 <= k < |A| ==> Stands(h, fp, A[k], e, KA[k]) && fp[A[k]] <= S)
    && (forall k, l :: 0 <= k < l < |A| ==> Apart(fp, A[k], A[l]))
  }

  /** The children lo..hi-1 of a node p that stands for P are such a run,
      inside p's footprint below p. */
  lemma KidsRun(h: Heap, fp: seq<set<Ptr>>, p: Ptr, e: nat, P: Tree, lo: int, hi: int)
    requires Stands(h, fp, p, e, P) && e > 0 && 0 <= lo <= hi <= h[p].n + 1
    ensures Run(h, fp, h[p].C[lo..hi], e - 1, P.children[lo..hi], fp[p] - {p})
  {
    var A, KA := h[p].C[lo..hi], P.children[lo..hi];
    forall k | 0 <= k < |A| ensures Stands(h, fp, A[k], e - 1, KA[k]) && fp[A[k]] <= fp[p] - {p} {
      ChildStands(h, fp, p, e, P, lo + k);
    }
    forall k, l | 0 <= k < l < |A| ensures Apart(fp, A[k], A[l]) {
      assert A[k] == h[p].C[lo + k] && A[l] == h[p].C[lo + l];
    }
  }

  /** All live children of p are such a run. */
  lemma AllKidsRun(h: Heap, fp: seq<set<Ptr>>, p: Ptr, e: nat, P: Tree)
    requires Stands(h, fp, p, e, P) && e > 0
    ensures Run(h, fp, h[p].C[..h[p].n + 1], e - 1, P.children, fp[p] - {p})
  {
    var n := h[p].n;
    KidsRun(h, fp, p, e, P, 0, n + 1);
    assert h[p].C[0..n + 1] == h[p].C[..n + 1] && P.children[0..n + 1] == P.children;
  }

  /** Two runs in disjoint sets make one run. */
  lemma RunJoin(h: Heap, fp: seq<set<Ptr>>, A: seq<Ptr>, KA: seq<Tree>, SA: set<Ptr>,
                B: seq<Ptr>, KB: seq<Tree>, SB: set<Ptr>, e: nat)
    requires Run(h, fp, A, e, KA, SA) && Run(h, fp, B, e, KB, SB) && SA !! SB
    ensures Run(h, fp, A + B, e, KA + KB, SA + SB)
  {
    var AB, KAB := A + B, KA + KB;
    forall k | 0 <= k < |AB| ensures Stands(h, fp, AB[k], e, KAB[k]) && fp[AB[k]] <= SA + SB {
      if k < |A| {
        assert AB[k] == A[k] && KAB[k] == KA[k];
      } else {
        assert AB[k] == B[k - |A|] && KAB[k] == KB[k - |A|];
      }
    }
    forall k, l | 0 <= k < l < |AB| ensures Apart(fp, AB[k], AB[l]) {
      if l < |A| {
        assert AB[k] == A[k] && AB[l] == A[l];
      } else if k >= |A| {
        assert AB[k] == B[k - |A|] && AB[l] == B[l - |A|];
      } else {
        assert AB[k] == A[k] && AB[l] == B[l - |A|];
        assert Stands(h, fp, A[k], e, KA[k]) && Stands(h, fp, B[l - |A|], e, KB[l - |A|]);
      }
    }
  }

  /** A run in a set the change M avoids is unchanged by it. */
  lemma RunKept(h: Heap, fp: seq<set<Ptr>>, h': Heap, fp': seq<set<Ptr>>, A: seq<Ptr>, e: nat, KA: seq<Tree>, S: set<Ptr>, M: set<Ptr>)
    requires Run(h, fp, A, e, KA, S) && Same(h, fp, h', fp', M) && S !! M
    ensures Run(h', fp', A, e, KA, S) && forall k :: 0 <= k < |A| ==> fp'[A[k]] == fp[A[k]]
  {
    forall k | 0 <= k < |A| ensures Stands(h', fp', A[k], e, KA[k]) && fp'[A[k]] == fp[A[k]] {
      Untouched(h, fp, h', fp', A[k], e, KA[k], M);
    }
    forall k, l | 0 <= k < l < |A| ensures Apart(fp', A[k], A[l]) {
      assert Apart(fp, A[k], A[l]);
    }
  }

  /** A record p whose live keys are K and whose live children are a run
      that the change left alone stands for K over that run's trees. */
  lemma Assemble(h: Heap, fp: seq<set<Ptr>>, h': Heap, fp': seq<set<Ptr>>, p: Ptr, e: nat,
                 K: seq<int>, A: seq<Ptr>, KA: seq<Tree>, S: set<Ptr>, M: set<Ptr>, Y: Tree)
    requires Same(h, fp, h', fp', M) && S !! M && p !in S
    requires 0 <= p < |h'| && Fits(h'[p]) && (h'[p].leaf <==> e == 0) && p < |fp'|
    requires p in fp'[p] && Within(fp'[p], |h'|)
    requires h'[p].keys[..h'[p].n] == K
    requires e == 0 ==> NoKids(h'[p])
    requires e > 0 ==> h'[p].C[..h'[p].n + 1] == A && Run(h, fp, A, e - 1, KA, S) && S <= fp'[p]
    requires Y == Node(K, if e == 0 then [] else KA)
    ensures Stands(h', fp', p, e, Y)
  {
    if e > 0 {
      RunKept(h, fp, h', fp', A, e - 1, KA, S, M);
      forall j | 0 <= j <= h'[p].n ensures Stands(h', fp', h'[p].C[j], e - 1, KA[j]) && Under(fp', h'[p].C[j], p) {
        assert h'[p].C[j] == A[j];
      }
      forall i, j | 0 <= i < j <= h'[p].n ensures Apart(fp', h'[p].C[i], h'[p].C[j]) {
        assert h'[p].C[i] == A[i] && h'[p].C[j] == A[j];
      }
    }
    Build(h', fp', p, e, KA);
  }

  /** The same run, apart from the footprint of child j outside it. */
  lemma KidsRunBut(h: Heap, fp: seq<set<Ptr>>, p: Ptr, e: nat, P: Tree, lo: int, hi: int, j: int)
    requires Stands(h, fp, p, e, P) && e > 0 && 0 <= lo <= hi <= h[p].n + 1
    requires 0 <= j <= h[p].n && !(lo <= j < hi)
    ensures Run(h, fp, h[p].C[lo..hi], e - 1, P.children[lo..hi], fp[p] - {p} - fp[h[p].C[j]])
  {
    var A := h[p].C[lo..hi];
    KidsRun(h, fp, p, e, P, lo, hi);
    ChildStands(h, fp, p, e, P, j);
    forall k | 0 <= k < |A| ensures fp[A[k]] !! fp[h[p].C[j]] {
      assert A[k] == h[p].C[lo + k];
    }
  }

  /** Child j alone is a run in its own footprint. */
  lemma KidRun(h: Heap, fp: seq<set<Ptr>>, p: Ptr, e: nat, P: Tree, j: int)
    requires Stands(h, fp, p, e, P) && e > 0 && 0 <= j <= h[p].n
    ensures var g := h[p].C[j];
      Run(h, fp, [g], e - 1, [P.children[j]], fp[g]) && fp[g] <= fp[p] - {p} && Within(fp[g], |h|)
  {
    ChildStands(h, fp, p, e, P, j);
    ChildTidy(h, fp, p, e, j);
  }

  /** Opening slot 0 of the live prefix puts v in front of it. */
  lemma OpenFront<A>(s: seq<A>, n: int, v: A)
    requires 0 <= n < |s|
    ensures ShiftR(s, 0, n)[0 := v][..n + 1] == [v] + s[..n]
  {
    OpenSlot(s, 0, n, v);
    assert s[..0] + [v] + s[0..n] == [v] + s[..n];
  }

  /** The parent after a borrow between its children a and a+1: its key a
      replaced by v, the two children rewritten in place inside their joint
      old footprint, everything else as it was. */
  lemma PairParent(h: Heap, fp: seq<set<Ptr>>, h': Heap, fp': seq<set<Ptr>>, x: Ptr, d: nat, X: Tree,
                   a: int, b: int, v: int, L: Tree, R: Tree, Y: Tree)
    requires Stands(h, fp, x, d, X) && d > 0 && 0 <= a < h[x].n && b == a + 1
    requires Same(h, fp, h', fp', {x, h[x].C[a], h[x].C[b]}) && 0 <= x < |h'|
    requires h'[x] == h[x].(keys := h[x].keys[a := v]) && fp'[x] == fp[x]
    requires Stands(h', fp', h[x].C[a], d - 1, L) && Stands(h', fp', h[x].C[b], d - 1, R)
    requires fp'[h[x].C[a]] + fp'[h[x].C[b]] <= fp[h[x].C[a]] + fp[h[x].C[b]]
    requires Apart(fp', h[x].C[a], h[x].C[b])
    requires Y == Node(X.keys[a := v], X.children[a := L][b := R])
    ensures Stands(h', fp', x, d, Y) && Same(h, fp, h', fp', fp[x])
  {
    var l, r := h[x].C[a], h[x].C[b];
    var M := {x, l, r};
    var cs := h[x].C[a..a + 2];
    assert cs[0] == l && cs[1] == r;
    assert Under(fp', l, x) && Under(fp', r, x) && Within(fp[x], |h|) by {
      ChildStands(h, fp, x, d, X, a);
      ChildStands(h, fp, x, d, X, b);
    }
    PairAvoids(h, fp, x, d, X, a, b, M, fp'[l], fp'[r]);
    Splice2(h, fp, h', fp', x, d, X, a, l, r, L, R, M);
    assert h'[x].keys[..h'[x].n] == X.keys[a := v];
  }

  /** Sets made of x and the footprints of children a and b = a+1 avoid
      the other children's footprints. */
  lemma PairAvoids(h: Heap, fp: seq<set<Ptr>>, x: Ptr, d: nat, X: Tree, a: int, b: int, M: set<Ptr>, F: set<Ptr>, F': set<Ptr>)
    requires Stands(h, fp, x, d, X) && d > 0 && 0 <= a < h[x].n && b == a + 1
    requires M == {x, h[x].C[a], h[x].C[b]} && F + F' <= fp[h[x].C[a]] + fp[h[x].C[b]]
    ensures Avoids(h, fp, x, a, a + 2, M) && Avoids(h, fp, x, a, a + 2, F) && Avoids(h, fp, x, a, a + 2, F')
  {
    var cs := h[x].C[a..a + 2];
    assert cs[0] == h[x].C[a] && cs[1] == h[x].C[b];
    ChildStands(h, fp, x, d, X, a);
    ChildStands(h, fp, x, d, X, b);
    InBelow(fp, cs, 0);
    InBelow(fp, cs, 1);
    AvoidsRun(h, fp, x, d, X, a, a + 2, M);
    AvoidsRun(h, fp, x, d, X, a, a + 2, F);
    AvoidsRun(h, fp, x, d, X, a, a + 2, F');
  }

  /** Splice for two children a and a+1 rewritten in place. */
  lemma Splice2(h: Heap, fp: seq<set<Ptr>>, h': Heap, fp': seq<set<Ptr>>, x: Ptr, d: nat, X: Tree,
                a: int, l: Ptr, r: Ptr, L: Tree, R: Tree, M: set<Ptr>)
    requires Stands(h, fp, x, d, X) && d > 0 && 0 <= a < h[x].n
    requires Same(h, fp, h', fp', M) && Avoids(h, fp, x, a, a + 2, M)
    requires 0 <= x < |h'| && Fits(h'[x]) && !h'[x].leaf && h'[x].n == h[x].n && h'[x].C == h[x].C
    requires l == h[x].C[a] && r == h[x].C[a + 1]
    requires Stands(h', fp', l, d - 1, L) && Under(fp', l, x) && Stands(h', fp', r, d - 1, R) && Under(fp', r, x)
    requires Avoids(h, fp, x, a, a + 2, fp'[l]) && Avoids(h, fp, x, a, a + 2, fp'[r]) && Apart(fp', l, r)
    requires fp[x] <= fp'[x] && Within(fp'[x], |h'|)
    ensures Stands(h', fp', x, d, Node(h'[x].keys[..h'[x].n], X.children[a := L][a + 1 := R]))
  {
    var ps, ts := [l, r], [L, R];
    forall j | 0 <= j <= h'[x].n ensures h'[x].C[j] == Spliced(h[x].C[..h[x].n + 1], a, a + 2, ps)[j] {
    }
    forall k | 0 <= k < |ps|
      ensures Stands(h', fp', ps[k], d - 1, ts[k]) && Under(fp', ps[k], x)
      ensures 0 <= ps[k] < |fp'| && Avoids(h, fp, x, a, a + 2, fp'[ps[k]])
    {
      if k == 0 {
        assert ps[k] == l && ts[k] == L;
      } else {
        assert ps[k] == r && ts[k] == R;
      }
    }
    forall k, k' | 0 <= k < k' < |ps| ensures Apart(fp', ps[k], ps[k']) {
      assert k == 0 && k' == 1;
    }
    Splice(h, fp, h', fp', x, d, X, a, a + 2, ps, ts, M);
    assert Spliced(X.children, a, a + 2, ts) == X.children[a := L][a + 1 := R];
  }

  // ---------------------------------------------------------------------
  // borrowFromPrev (btree.c:116-139)
  // ---------------------------------------------------------------------

  /** Preconditions of borrowFromPrev(x, idx) that the records alone show. */
  predicate CanPrev(h: Heap, x: Ptr, idx: int)
  {
    && 0 <= x < |h| && Fits(h[x]) && 0 < idx <= h[x].n
    && 0 <= h[x].C[idx] < |h| && 0 <= h[x].C[idx - 1] < |h|
    && x != h[x].C[idx] && x != h[x].C[idx - 1] && h[x].C[idx] != h[x].C[idx - 1]
    && Fits(h[h[x].C[idx]]) && Fits(h[h[x].C[idx - 1]])
    && h[h[x].C[idx]].n < 2 * T - 1 && h[h[x].C[idx - 1]].n >= 1
    && (!h[h[x].C[idx - 1]].leaf ==> 0 <= h[h[x].C[idx - 1]].C[h[h[x].C[idx - 1]].n] < |h|)
  }

  /** The child after btree.c:120-137: its live keys and, when it is
      internal, its live children move one slot right; the separator m goes
      into key slot 0. The guard at btree.c:132 tests the parent, not the
      child, so g goes into child slot 0 whenever the parent is internal,
      also into a leaf. */
  function PrevChild(c: Rec, m: int, g: Ptr, xleaf: bool): (r: Rec)
    requires Fits(c) && c.n < 2 * T - 1
    ensures Fits(r) && r.n == c.n + 1 && r.leaf == c.leaf
  {
    var C := if c.leaf then c.C else ShiftR(c.C, 0, c.n + 1);
    c.(keys := ShiftR(c.keys, 0, c.n)[0 := m],
       C := if !xleaf then C[0 := g] else C,
       n := c.n + 1)
  }

  /** The arena after borrowFromPrev(x, idx): the child rewritten, the
      parent's separator replaced by the sibling's last key, and the sibling
      one key shorter. */
  function PrevHeap(h: Heap, x: Ptr, idx: int): Heap
    requires CanPrev(h, x, idx)
  {
    var c, s := h[x].C[idx], h[x].C[idx - 1];
    var r := h[s];
    h[c := PrevChild(h[c], h[x].keys[idx - 1], r.C[r.n], h[x].leaf)]
     [x := h[x].(keys := h[x].keys[idx - 1 := r.keys[r.n - 1]])]
     [s := r.(n := r.n - 1)]
  }

  /** The footprint that moves: that of the sibling's last child, when the
      nodes are internal. */
  ghost function PrevMoved(h: Heap, fp: seq<set<Ptr>>, x: Ptr, idx: int): set<Ptr>
    requires CanPrev(h, x, idx) && |fp| == |h|
  {
    var s := h[x].C[idx - 1];
    if h[s].leaf then {} else fp[h[s].C[h[s].n]]
  }

  ghost function PrevFp(h: Heap, fp: seq<set<Ptr>>, x: Ptr, idx: int): seq<set<Ptr>>
    requires CanPrev(h, x, idx) && |fp| == |h|
  {
    var c, s, G := h[x].C[idx], h[x].C[idx - 1], PrevMoved(h, fp, x, idx);
    fp[c := fp[c] + G][s := fp[s] - G]
  }

  lemma PrevFacts(h: Heap, fp: seq<set<Ptr>>, x: Ptr, idx: int)
    requires CanPrev(h, x, idx) && |fp| == |h|
    ensures PrevDone(h, fp, PrevHeap(h, x, idx), PrevFp(h, fp, x, idx), x, idx, PrevMoved(h, fp, x, idx))
  {
  }

  /** The sibling, one key shorter, stands for its part left of its last key. */
  lemma PrevSibStands(h: Heap, fp: seq<set<Ptr>>, h': Heap, fp': seq<set<Ptr>>, s: Ptr, e: nat, S: Tree, M: set<Ptr>, G: set<Ptr>)
    requires Stands(h, fp, s, e, S) && h[s].n >= 1
    requires Same(h, fp, h', fp', M) && (fp[s] - {s}) !! M
    requires h'[s] == h[s].(n := h[s].n - 1) && fp'[s] == fp[s] - G && s !in G
    requires e > 0 ==> G == fp[h[s].C[h[s].n]]
    ensures NodeShaped(S) && |S.keys| >= 1 && Stands(h', fp', s, e, Left(S, |S.keys| - 1))
  {
    var m := h[s].n - 1;
    var A := h[s].C[..m + 1];
    if e > 0 {
      KidsRunBut(h, fp, s, e, S, 0, m + 1, m + 1);
      assert h[s].C[0..m + 1] == A && S.children[0..m + 1] == S.children[..m + 1];
    }
    assert h'[s].keys[..m] == S.keys[..m];
    var KA := if e == 0 then [] else S.children[..m + 1];
    Assemble(h, fp, h', fp', s, e, S.keys[..m], A, KA, fp[s] - {s} - G, M, Left(S, m));
  }

  /** The sibling's last child in front of the child's children is a run. */
  lemma PrevKidRun(h: Heap, fp: seq<set<Ptr>>, c: Ptr, s: Ptr, e: nat, Cc: Tree, S: Tree)
    requires Stands(h, fp, c, e, Cc) && Stands(h, fp, s, e, S) && e > 0 && Apart(fp, c, s)
    ensures var g := h[s].C[h[s].n];
      && Run(h, fp, [g] + h[c].C[..h[c].n + 1], e - 1, [S.children[h[s].n]] + Cc.children, fp[g] + (fp[c] - {c}))
      && fp[g] <= fp[s] - {s} && Within(fp[g], |h|) && S.children[h[s].n..] == [S.children[h[s].n]]
  {
    var n, ns := h[c].n, h[s].n;
    var g := h[s].C[ns];
    KidRun(h, fp, s, e, S, ns);
    AllKidsRun(h, fp, c, e, Cc);
    RunJoin(h, fp, [g], [S.children[ns]], fp[g], h[c].C[..n + 1], Cc.children, fp[c] - {c}, e - 1);
  }

  /** The child record after borrowFromPrev: m in front of its live keys,
      g in front of its live children, and no child slot set on a leaf
      when g is NULL. */
  lemma PrevChildLive(c: Rec, m: int, g: Ptr)
    requires Fits(c) && c.n < 2 * T - 1
    ensures var r := PrevChild(c, m, g, false);
      && r.keys[..r.n] == [m] + c.keys[..c.n]
      && (!c.leaf ==> r.C[..r.n + 1] == [g] + c.C[..c.n + 1])
      && (c.leaf && NoKids(c) && g == NULL ==> NoKids(r))
  {
    OpenFront(c.keys, c.n, m);
    if !c.leaf {
      OpenFront(c.C, c.n + 1, g);
    }
  }

  /** The child, with the separator m and the sibling's last child in front,
      stands for the join of the sibling's part right of its last key, m and
      the child. */
  lemma PrevKid(h: Heap, fp: seq<set<Ptr>>, h': Heap, fp': seq<set<Ptr>>, c: Ptr, s: Ptr, e: nat,
                Cc: Tree, S: Tree, M: set<Ptr>, G: set<Ptr>, m: int)
    requires Stands(h, fp, c, e, Cc) && Stands(h, fp, s, e, S) && h[s].n >= 1 && h[c].n < 2 * T - 1
    requires Apart(fp, c, s) && Same(h, fp, h', fp', M) && (fp[s] - {s}) !! M && (fp[c] - {c}) !! M
    requires h'[c] == PrevChild(h[c], m, h[s].C[h[s].n], false) && fp'[c] == fp[c] + G
    requires G == (if h[s].leaf then {} else fp[h[s].C[h[s].n]])
    ensures NodeShaped(S) && |S.keys| >= 1 && Stands(h', fp', c, e, Join(Right(S, |S.keys| - 1), m, Cc))
  {
    PrevChildLive(h[c], m, h[s].C[h[s].n]);
    if e == 0 {
      PrevKidLeaf(h, fp, h', fp', c, s, Cc, S, M, m);
    } else {
      PrevKidInner(h, fp, h', fp', c, s, e, Cc, S, M, G, m);
    }
  }

  /** PrevKid on leaves. */
  lemma PrevKidLeaf(h: Heap, fp: seq<set<Ptr>>, h': Heap, fp': seq<set<Ptr>>, c: Ptr, s: Ptr,
                    Cc: Tree, S: Tree, M: set<Ptr>, m: int)
    requires Stands(h, fp, c, 0, Cc) && Stands(h, fp, s, 0, S) && h[s].n >= 1
    requires Same(h, fp, h', fp', M) && (fp[c] - {c}) !! M && Fits(h'[c])
    requires h'[c].keys[..h'[c].n] == [m] + h[c].keys[..h[c].n] && h'[c].leaf && NoKids(h'[c])
    requires fp'[c] == fp[c] && NodeShaped(S) && |S.keys| == h[s].n
    ensures Stands(h', fp', c, 0, Join(Right(S, h[s].n - 1), m, Cc))
  {
    assert S.keys[h[s].n..] == [];
    Assemble(h, fp, h', fp', c, 0, [m] + Cc.keys, [], [], fp[c] - {c}, M, Join(Right(S, h[s].n - 1), m, Cc));
  }

  /** PrevKid on internal nodes. */
  lemma PrevKidInner(h: Heap, fp: seq<set<Ptr>>, h': Heap, fp': seq<set<Ptr>>, c: Ptr, s: Ptr, e: nat,
                     Cc: Tree, S: Tree, M: set<Ptr>, G: set<Ptr>, m: int)
    requires Stands(h, fp, c, e, Cc) && Stands(h, fp, s, e, S) && e > 0 && h[s].n >= 1
    requires Apart(fp, c, s) && Same(h, fp, h', fp', M) && (fp[s] - {s}) !! M && (fp[c] - {c}) !! M && Fits(h'[c])
    requires h'[c].keys[..h'[c].n] == [m] + h[c].keys[..h[c].n] && !h'[c].leaf
    requires h'[c].C[..h'[c].n + 1] == [h[s].C[h[s].n]] + h[c].C[..h[c].n + 1]
    requires fp'[c] == fp[c] + G && G == fp[h[s].C[h[s].n]] && NodeShaped(S) && |S.keys| == h[s].n
    ensures Stands(h', fp', c, e, Join(Right(S, h[s].n - 1), m, Cc))
  {
    assert S.keys[h[s].n..] == [];
    PrevKidRun(h, fp, c, s, e, Cc, S);
    var A := [h[s].C[h[s].n]] + h[c].C[..h[c].n + 1];
    Assemble(h, fp, h', fp', c, e, [m] + Cc.keys, A, [S.children[h[s].n]] + Cc.children, G + (fp[c] - {c}), M,
             Join(Right(S, h[s].n - 1), m, Cc));
  }

  /** Children a and a+1 of x and how their footprints lie. */
  lemma PairKids(h: Heap, fp: seq<set<Ptr>>, x: Ptr, d: nat, X: Tree, a: int, b: int)
    requires Stands(h, fp, x, d, X) && d > 0 && 0 <= a < h[x].n && b == a + 1
    ensures var l, r := h[x].C[a], h[x].C[b]; var M := {x, l, r};
      && Stands(h, fp, l, d - 1, X.children[a]) && Stands(h, fp, r, d - 1, X.children[b])
      && Apart(fp, l, r) && Apart(fp, r, l) && Under(fp, l, x) && Under(fp, r, x) && (fp[l] - {l}) !! M && (fp[r] - {r}) !! M
      && (d > 1 ==> fp[h[l].C[h[l].n]] <= fp[l] - {l} && fp[h[r].C[0]] <= fp[r] - {r})
  {
    var l, r := h[x].C[a], h[x].C[b];
    ChildStands(h, fp, x, d, X, a);
    ChildStands(h, fp, x, d, X, b);
    if d > 1 {
      ChildTidy(h, fp, l, d - 1, h[l].n);
      ChildTidy(h, fp, r, d - 1, 0);
    }
  }

  /** The part of PairKids that a borrow into child b needs. */
  lemma PairStands(h: Heap, fp: seq<set<Ptr>>, x: Ptr, d: nat, X: Tree, a: int, b: int)
    requires Stands(h, fp, x, d, X) && d > 0 && 0 <= a < h[x].n && b == a + 1
    ensures var l, r := h[x].C[a], h[x].C[b]; var M := {x, l, r};
      && Stands(h, fp, l, d - 1, X.children[a]) && Stands(h, fp, r, d - 1, X.children[b])
      && Apart(fp, r, l) && (fp[l] - {l}) !! M && (fp[r] - {r}) !! M
  {
    PairKids(h, fp, x, d, X, a, b);
  }

  /** borrowFromPrev(x, idx) rewrites the arena so that x stands for
      BorrowFromPrev of what it stood for, inside x's footprint. */
  lemma PrevRefines(h: Heap, fp: seq<set<Ptr>>, x: Ptr, d: nat, X: Tree, idx: int)
    requires Stands(h, fp, x, d, X) && d > 0 && CanPrev(h, x, idx) && |fp| == |h|
    ensures |X.children| == |X.keys| + 1 && NodeShaped(X.children[idx - 1]) && |X.children[idx - 1].keys| >= 1
    ensures var h', fp' := PrevHeap(h, x, idx), PrevFp(h, fp, x, idx);
      Stands(h', fp', x, d, BorrowFromPrev(X, idx)) && Same(h, fp, h', fp', fp[x]) && fp'[x] == fp[x]
  {
    var h', fp', G := PrevHeap(h, x, idx), PrevFp(h, fp, x, idx), PrevMoved(h, fp, x, idx);
    PrevFacts(h, fp, x, idx);
    PrevSibAt(h, fp, h', fp', x, d, X, idx, G);
    PrevKidAt(h, fp, h', fp', x, d, X, idx, G);
    PrevTop(h, fp, h', fp', x, d, X, idx, G);
  }

  /** What PrevFacts shows about the records and footprints afterwards. */
  ghost predicate PrevDone(h: Heap, fp: seq<set<Ptr>>, h': Heap, fp': seq<set<Ptr>>, x: Ptr, idx: int, G: set<Ptr>)
    requires CanPrev(h, x, idx) && |fp| == |h|
  {
    && PrevSibDone(h, fp, h', fp', x, idx, G) && PrevKidDone(h, fp, h', fp', x, idx, G)
    && h'[x] == h[x].(keys := h[x].keys[idx - 1 := h[h[x].C[idx - 1]].keys[h[h[x].C[idx - 1]].n - 1]]) && fp'[x] == fp[x]
  }

  /** The part of PrevDone about the sibling. */
  ghost predicate PrevSibDone(h: Heap, fp: seq<set<Ptr>>, h': Heap, fp': seq<set<Ptr>>, x: Ptr, idx: int, G: set<Ptr>)
    requires CanPrev(h, x, idx) && |fp| == |h|
  {
    var c, s := h[x].C[idx], h[x].C[idx - 1];
    && |h'| == |h| && |fp'| == |h| && Same(h, fp, h', fp', {x, s, c})
    && G == (if h[s].leaf then {} else fp[h[s].C[h[s].n]])
    && h'[s] == h[s].(n := h[s].n - 1) && fp'[s] == fp[s] - G
  }

  /** The part of PrevDone about the child. */
  ghost predicate PrevKidDone(h: Heap, fp: seq<set<Ptr>>, h': Heap, fp': seq<set<Ptr>>, x: Ptr, idx: int, G: set<Ptr>)
    requires CanPrev(h, x, idx) && |fp| == |h|
  {
    var c, s := h[x].C[idx], h[x].C[idx - 1];
    && |h'| == |h| && |fp'| == |h| && Same(h, fp, h', fp', {x, s, c})
    && G == (if h[s].leaf then {} else fp[h[s].C[h[s].n]])
    && h'[c] == PrevChild(h[c], h[x].keys[idx - 1], h[s].C[h[s].n], h[x].leaf) && fp'[c] == fp[c] + G
  }

  lemma PrevSibAt(h: Heap, fp: seq<set<Ptr>>, h': Heap, fp': seq<set<Ptr>>, x: Ptr, d: nat, X: Tree, idx: int, G: set<Ptr>)
    requires Stands(h, fp, x, d, X) && d > 0 && CanPrev(h, x, idx) && |fp| == |h|
    requires PrevSibDone(h, fp, h', fp', x, idx, G)
    ensures var S := X.children[idx - 1];
      NodeShaped(S) && |S.keys| >= 1 && Stands(h', fp', h[x].C[idx - 1], d - 1, Left(S, |S.keys| - 1))
  {
    var c, s := h[x].C[idx], h[x].C[idx - 1];
    PairKids(h, fp, x, d, X, idx - 1, idx);
    PrevSibStands(h, fp, h', fp', s, d - 1, X.children[idx - 1], {x, s, c}, G);
  }

  lemma PrevKidAt(h: Heap, fp: seq<set<Ptr>>, h': Heap, fp': seq<set<Ptr>>, x: Ptr, d: nat, X: Tree, idx: int, G: set<Ptr>)
    requires Stands(h, fp, x, d, X) && d > 0 && CanPrev(h, x, idx) && |fp| == |h| && !h[x].leaf
    requires PrevKidDone(h, fp, h', fp', x, idx, G)
    ensures var S := X.children[idx - 1];
      && NodeShaped(S) && |S.keys| >= 1
      && Stands(h', fp', h[x].C[idx], d - 1, Join(Right(S, |S.keys| - 1), X.keys[idx - 1], X.children[idx]))
  {
    var c, s := h[x].C[idx], h[x].C[idx - 1];
    assert X.keys == h[x].keys[..h[x].n];
    assert X.keys[idx - 1] == h[x].keys[idx - 1];
    PairStands(h, fp, x, d, X, idx - 1, idx);
    var Cc, S := X.children[idx], X.children[idx - 1];
    PrevKid(h, fp, h', fp', c, s, d - 1, Cc, S, {x, s, c}, G, h[x].keys[idx - 1]);
  }

  lemma PrevTop(h: Heap, fp: seq<set<Ptr>>, h': Heap, fp': seq<set<Ptr>>, x: Ptr, d: nat, X: Tree, idx: int, G: set<Ptr>)
    requires Stands(h, fp, x, d, X) && d > 0 && CanPrev(h, x, idx) && |fp| == |h|
    requires PrevDone(h, fp, h', fp', x, idx, G)
    requires var S := X.children[idx - 1];
      && NodeShaped(S) && |S.keys| >= 1
      && Stands(h', fp', h[x].C[idx - 1], d - 1, Left(S, |S.keys| - 1))
      && Stands(h', fp', h[x].C[idx], d - 1, Join(Right(S, |S.keys| - 1), X.keys[idx - 1], X.children[idx]))
    ensures |X.children| == |X.keys| + 1
    ensures Stands(h', fp', x, d, BorrowFromPrev(X, idx)) && Same(h, fp, h', fp', fp[x])
  {
    var c, s := h[x].C[idx], h[x].C[idx - 1];
    var S := X.children[idx - 1];
    var last := |S.keys| - 1;
    PairKids(h, fp, x, d, X, idx - 1, idx);
    assert S.keys[last] == h[s].keys[h[s].n - 1];
    assert G <= fp[s] - {s};
    assert Apart(fp', s, c);
    PairParent(h, fp, h', fp', x, d, X, idx - 1, idx, S.keys[last],
               Left(S, last), Join(Right(S, last), X.keys[idx - 1], X.children[idx]), BorrowFromPrev(X, idx));
  }

  // ---------------------------------------------------------------------
  // borrowFromNext (btree.c:142-166)
  // ---------------------------------------------------------------------

  /** Preconditions of borrowFromNext(x, idx) that the records alone show. */
  predicate CanNext(h: Heap, x: Ptr, idx: int)
  {
    && 0 <= x < |h| && Fits(h[x]) && 0 <= idx < h[x].n
    && 0 <= h[x].C[idx] < |h| && 0 <= h[x].C[idx + 1] < |h|
    && x != h[x].C[idx] && x != h[x].C[idx + 1] && h[x].C[idx] != h[x].C[idx + 1]
    && Fits(h[h[x].C[idx]]) && Fits(h[h[x].C[idx + 1]])
    && h[h[x].C[idx]].n < 2 * T - 1 && h[h[x].C[idx + 1]].n >= 1
    && (!h[h[x].C[idx + 1]].leaf ==> 0 <= h[h[x].C[idx + 1]].C[0] < |h|)
  }

  /** The child after btree.c:145-149: the separator m after its keys and,
      when it is internal, g after its children. */
  function NextChild(c: Rec, m: int, g: Ptr): (r: Rec)
    requires Fits(c) && c.n < 2 * T - 1
    ensures Fits(r) && r.n == c.n + 1 && r.leaf == c.leaf
  {
    c.(keys := c.keys[c.n := m], C := if c.leaf then c.C else c.C[c.n + 1 := g], n := c.n + 1)
  }

  /** The sibling after btree.c:151-165: its keys and, when it is internal,
      its children move one slot left over the first. */
  function NextSib(s: Rec): (r: Rec)
    requires Fits(s) && s.n >= 1
    ensures Fits(r) && r.n == s.n - 1 && r.leaf == s.leaf
  {
    s.(keys := ShiftL(s.keys, 0, s.n), C := if s.leaf then s.C else ShiftL(s.C, 0, s.n + 1), n := s.n - 1)
  }

  /** The arena after borrowFromNext(x, idx). */
  function NextHeap(h: Heap, x: Ptr, idx: int): Heap
    requires CanNext(h, x, idx)
  {
    var c, s := h[x].C[idx], h[x].C[idx + 1];
    h[c := NextChild(h[c], h[x].keys[idx], h[s].C[0])]
     [x := h[x].(keys := h[x].keys[idx := h[s].keys[0]])]
     [s := NextSib(h[s])]
  }

  /** The footprint that moves: that of the sibling's first child, when the
      nodes are internal. */
  ghost function NextMoved(h: Heap, fp: seq<set<Ptr>>, x: Ptr, idx: int): set<Ptr>
    requires CanNext(h, x, idx) && |fp| == |h|
  {
    var s := h[x].C[idx + 1];
    if h[s].leaf then {} else fp[h[s].C[0]]
  }

  ghost function NextFp(h: Heap, fp: seq<set<Ptr>>, x: Ptr, idx: int): seq<set<Ptr>>
    requires CanNext(h, x, idx) && |fp| == |h|
  {
    var c, s, G := h[x].C[idx], h[x].C[idx + 1], NextMoved(h, fp, x, idx);
    fp[c := fp[c] + G][s := fp[s] - G]
  }

  /** What NextFacts shows about the records and footprints afterwards. */
  ghost predicate NextDone(h: Heap, fp: seq<set<Ptr>>, h': Heap, fp': seq<set<Ptr>>, x: Ptr, idx: int, G: set<Ptr>)
    requires CanNext(h, x, idx) && |fp| == |h|
  {
    var c, s := h[x].C[idx], h[x].C[idx + 1];
    && |h'| == |h| && |fp'| == |h| && Same(h, fp, h', fp', {x, c, s})
    && G == (if h[s].leaf then {} else fp[h[s].C[0]])
    && h'[c] == NextChild(h[c], h[x].keys[idx], h[s].C[0]) && fp'[c] == fp[c] + G
    && h'[s] == NextSib(h[s]) && fp'[s] == fp[s] - G
    && h'[x] == h[x].(keys := h[x].keys[idx := h[s].keys[0]]) && fp'[x] == fp[x]
  }

  lemma NextFacts(h: Heap, fp: seq<set<Ptr>>, x: Ptr, idx: int)
    requires CanNext(h, x, idx) && |fp| == |h|
    ensures NextDone(h, fp, NextHeap(h, x, idx), NextFp(h, fp, x, idx), x, idx, NextMoved(h, fp, x, idx))
  {
  }

  /** Writing v at the end of the live prefix appends it. */
  lemma PutEnd<A>(s: seq<A>, n: int, v: A)
    requires 0 <= n < |s|
    ensures s[n := v][..n + 1] == s[..n] + [v]
  {
  }

  /** The sibling without its first key and child stands for its part right
      of its first key. */
  lemma NextSibStands(h: Heap, fp: seq<set<Ptr>>, h': Heap, fp': seq<set<Ptr>>, s: Ptr, e: nat, S: Tree, M: set<Ptr>, G: set<Ptr>)
    requires Stands(h, fp, s, e, S) && h[s].n >= 1
    requires Same(h, fp, h', fp', M) && (fp[s] - {s}) !! M
    requires h'[s] == NextSib(h[s]) && fp'[s] == fp[s] - G && s !in G
    requires e > 0 ==> G == fp[h[s].C[0]]
    ensures NodeShaped(S) && |S.keys| >= 1 && Stands(h', fp', s, e, Right(S, 0))
  {
    var ns := h[s].n;
    CloseSlot(h[s].keys, 0, ns);
    assert h'[s].keys[..ns - 1] == S.keys[1..];
    var A := h[s].C[1..ns + 1];
    if e > 0 {
      CloseSlot(h[s].C, 0, ns + 1);
      KidsRunBut(h, fp, s, e, S, 1, ns + 1, 0);
      assert S.children[1..ns + 1] == S.children[1..];
    }
    var KA := if e == 0 then [] else S.children[1..];
    Assemble(h, fp, h', fp', s, e, S.keys[1..], A, KA, fp[s] - {s} - G, M, Right(S, 0));
  }

  /** The child's children followed by the sibling's first child g, a run
      of its own apart from the child, are a run. */
  lemma NextKidRun(h: Heap, fp: seq<set<Ptr>>, c: Ptr, e: nat, Cc: Tree, g: Ptr, Kg: Tree)
    requires Stands(h, fp, c, e, Cc) && e > 0 && 0 <= g < |fp|
    requires Run(h, fp, [g], e - 1, [Kg], fp[g]) && (fp[c] - {c}) !! fp[g]
    ensures Run(h, fp, h[c].C[..h[c].n + 1] + [g], e - 1, Cc.children + [Kg], (fp[c] - {c}) + fp[g])
  {
    AllKidsRun(h, fp, c, e, Cc);
    RunJoin(h, fp, h[c].C[..h[c].n + 1], Cc.children, fp[c] - {c}, [g], [Kg], fp[g], e - 1);
  }

  /** The child record after borrowFromNext: m after its live keys and, on
      an internal node, g after its live children. */
  lemma NextChildLive(c: Rec, m: int, g: Ptr)
    requires Fits(c) && c.n < 2 * T - 1
    ensures var r := NextChild(c, m, g);
      && r.keys[..r.n] == c.keys[..c.n] + [m]
      && (!c.leaf ==> r.C[..r.n + 1] == c.C[..c.n + 1] + [g])
      && (c.leaf ==> r.C == c.C)
  {
    PutEnd(c.keys, c.n, m);
    if !c.leaf {
      PutEnd(c.C, c.n + 1, g);
    }
  }

  /** The child, with the separator m and the sibling's first child at its
      end, stands for the join of the child, m and the sibling's part left of
      its first key. */
  lemma NextKid(h: Heap, fp: seq<set<Ptr>>, h': Heap, fp': seq<set<Ptr>>, c: Ptr, s: Ptr, e: nat,
                Cc: Tree, S: Tree, M: set<Ptr>, G: set<Ptr>, m: int)
    requires Stands(h, fp, c, e, Cc) && Stands(h, fp, s, e, S) && h[s].n >= 1 && h[c].n < 2 * T - 1
    requires Apart(fp, c, s) && Same(h, fp, h', fp', M) && (fp[s] - {s}) !! M && (fp[c] - {c}) !! M
    requires h'[c] == NextChild(h[c], m, h[s].C[0]) && fp'[c] == fp[c] + G
    requires e > 0 ==> G == fp[h[s].C[0]]
    requires e == 0 ==> G == {}
    ensures NodeShaped(S) && |S.keys| >= 1 && Stands(h', fp', c, e, Join(Cc, m, Left(S, 0)))
  {
    NextChildLive(h[c], m, h[s].C[0]);
    if e == 0 {
      NextKidLeaf(h, fp, h', fp', c, s, Cc, S, M, m);
    } else {
      NextKidInner(h, fp, h', fp', c, s, e, Cc, S, M, G, m);
    }
  }

  /** NextKid on leaves. */
  lemma NextKidLeaf(h: Heap, fp: seq<set<Ptr>>, h': Heap, fp': seq<set<Ptr>>, c: Ptr, s: Ptr,
                    Cc: Tree, S: Tree, M: set<Ptr>, m: int)
    requires Stands(h, fp, c, 0, Cc) && Stands(h, fp, s, 0, S) && h[s].n >= 1
    requires Same(h, fp, h', fp', M) && (fp[c] - {c}) !! M && Fits(h'[c])
    requires h'[c].keys[..h'[c].n] == h[c].keys[..h[c].n] + [m] && h'[c].leaf && h'[c].C == h[c].C
    requires fp'[c] == fp[c]
    ensures NodeShaped(S) && |S.keys| >= 1 && Stands(h', fp', c, 0, Join(Cc, m, Left(S, 0)))
  {
    assert Cc.keys + [m] + S.keys[..0] == Cc.keys + [m];
    Assemble(h, fp, h', fp', c, 0, Cc.keys + [m], [], [], fp[c] - {c}, M, Join(Cc, m, Left(S, 0)));
  }

  /** NextKid on internal nodes. */
  lemma NextKidInner(h: Heap, fp: seq<set<Ptr>>, h': Heap, fp': seq<set<Ptr>>, c: Ptr, s: Ptr, e: nat,
                     Cc: Tree, S: Tree, M: set<Ptr>, G: set<Ptr>, m: int)
    requires Stands(h, fp, c, e, Cc) && Stands(h, fp, s, e, S) && e > 0 && h[s].n >= 1
    requires Apart(fp, c, s) && Same(h, fp, h', fp', M) && (fp[s] - {s}) !! M && (fp[c] - {c}) !! M && Fits(h'[c])
    requires h'[c].keys[..h'[c].n] == h[c].keys[..h[c].n] + [m] && !h'[c].leaf
    requires h'[c].C[..h'[c].n + 1] == h[c].C[..h[c].n + 1] + [h[s].C[0]]
    requires fp'[c] == fp[c] + G && G == fp[h[s].C[0]]
    ensures NodeShaped(S) && |S.keys| >= 1 && Stands(h', fp', c, e, Join(Cc, m, Left(S, 0)))
  {
    var g := h[s].C[0];
    KidRun(h, fp, s, e, S, 0);
    assert (fp[c] - {c}) !! fp[g];
    NextKidRun(h, fp, c, e, Cc, g, S.children[0]);
    assert S.children[..1] == [S.children[0]];
    assert Cc.keys + [m] + S.keys[..0] == Cc.keys + [m];
    Assemble(h, fp, h', fp', c, e, Cc.keys + [m], h[c].C[..h[c].n + 1] + [g], Cc.children + [S.children[0]],
             (fp[c] - {c}) + G, M, Join(Cc, m, Left(S, 0)));
  }

  /** borrowFromNext(x, idx) rewrites the arena so that x stands for
      BorrowFromNext of what it stood for, inside x's footprint. */
  lemma NextRefines(h: Heap, fp: seq<set<Ptr>>, x: Ptr, d: nat, X: Tree, idx: int)
    requires Stands(h, fp, x, d, X) && d > 0 && CanNext(h, x, idx) && |fp| == |h|
    ensures |X.children| == |X.keys| + 1 && NodeShaped(X.children[idx + 1]) && |X.children[idx + 1].keys| >= 1
    ensures var h', fp' := NextHeap(h, x, idx), NextFp(h, fp, x, idx);
      Stands(h', fp', x, d, BorrowFromNext(X, idx)) && Same(h, fp, h', fp', fp[x]) && fp'[x] == fp[x]
  {
    var h', fp', G := NextHeap(h, x, idx), NextFp(h, fp, x, idx), NextMoved(h, fp, x, idx);
    NextFacts(h, fp, x, idx);
    NextSibAt(h, fp, h', fp', x, d, X, idx, G);
    NextKidAt(h, fp, h', fp', x, d, X, idx, G);
    NextTop(h, fp, h', fp', x, d, X, idx, G);
  }

  lemma NextSibAt(h: Heap, fp: seq<set<Ptr>>, h': Heap, fp': seq<set<Ptr>>, x: Ptr, d: nat, X: Tree, idx: int, G: set<Ptr>)
    requires Stands(h, fp, x, d, X) && d > 0 && CanNext(h, x, idx) && |fp| == |h|
    requires NextDone(h, fp, h', fp', x, idx, G)
    ensures var S := X.children[idx + 1];
      NodeShaped(S) && |S.keys| >= 1 && Stands(h', fp', h[x].C[idx + 1], d - 1, Right(S, 0))
  {
    var c, s := h[x].C[idx], h[x].C[idx + 1];
    PairKids(h, fp, x, d, X, idx, idx + 1);
    NextSibStands(h, fp, h', fp', s, d - 1, X.children[idx + 1], {x, c, s}, G);
  }

  lemma NextKidAt(h: Heap, fp: seq<set<Ptr>>, h': Heap, fp': seq<set<Ptr>>, x: Ptr, d: nat, X: Tree, idx: int, G: set<Ptr>)
    requires Stands(h, fp, x, d, X) && d > 0 && CanNext(h, x, idx) && |fp| == |h|
    requires NextDone(h, fp, h', fp', x, idx, G)
    ensures var S := X.children[idx + 1];
      && NodeShaped(S) && |S.keys| >= 1
      && Stands(h', fp', h[x].C[idx], d - 1, Join(X.children[idx], X.keys[idx], Left(S, 0)))
  {
    var c, s := h[x].C[idx], h[x].C[idx + 1];
    PairKids(h, fp, x, d, X, idx, idx + 1);
    NextKid(h, fp, h', fp', c, s, d - 1, X.children[idx], X.children[idx + 1], {x, c, s}, G, h[x].keys[idx]);
  }

  lemma NextTop(h: Heap, fp: seq<set<Ptr>>, h': Heap, fp': seq<set<Ptr>>, x: Ptr, d: nat, X: Tree, idx: int, G: set<Ptr>)
    requires Stands(h, fp, x, d, X) && d > 0 && CanNext(h, x, idx) && |fp| == |h|
    requires NextDone(h, fp, h', fp', x, idx, G)
    requires var S := X.children[idx + 1];
      && NodeShaped(S) && |S.keys| >= 1
      && Stands(h', fp', h[x].C[idx + 1], d - 1, Right(S, 0))
      && Stands(h', fp', h[x].C[idx], d - 1, Join(X.children[idx], X.keys[idx], Left(S, 0)))
    ensures |X.children| == |X.keys| + 1
    ensures Stands(h', fp', x, d, BorrowFromNext(X, idx)) && Same(h, fp, h', fp', fp[x])
  {
    var c, s := h[x].C[idx], h[x].C[idx + 1];
    var S := X.children[idx + 1];
    PairKids(h, fp, x, d, X, idx, idx + 1);
    assert S.keys[0] == h[s].keys[0];
    PairParent(h, fp, h', fp', x, d, X, idx, idx + 1, S.keys[0],
               Join(X.children[idx], X.keys[idx], Left(S, 0)), Right(S, 0), BorrowFromNext(X, idx));
  }

  // ---------------------------------------------------------------------
  // merge (btree.c:169-197)
  // ---------------------------------------------------------------------

  /** Preconditions of merge(x, idx): the child holds T-1 keys, so that
      btree.c:173 writes the separator just after them, and the sibling fits
      after it. */
  predicate CanMerge(h: Heap, x: Ptr, idx: int)
  {
    && 0 <= x < |h| && Fits(h[x]) && 0 <= idx < h[x].n
    && 0 <= h[x].C[idx] < |h| && 0 <= h[x].C[idx + 1] < |h|
    && x != h[x].C[idx] && x != h[x].C[idx + 1] && h[x].C[idx] != h[x].C[idx + 1]
    && Fits(h[h[x].C[idx]]) && Fits(h[h[x].C[idx + 1]])
    && h[h[x].C[idx]].n == T - 1 && h[h[x].C[idx + 1]].n <= T - 1
  }

  /** The child after btree.c:173-183: the separator m in slot T-1, the
      sibling's keys and, when it is internal, its children after that. */
  function MergeChild(c: Rec, m: int, r: Rec): (c': Rec)
    requires Fits(c) && Fits(r) && c.n == T - 1 && r.n <= T - 1
    ensures Fits(c') && c'.n == c.n + r.n + 1 && c'.leaf == c.leaf
  {
    c.(keys := Blit(c.keys[T - 1 := m], T, r.keys, 0, r.n),
       C := if c.leaf then c.C else Blit(c.C, T, r.C, 0, r.n + 1),
       n := c.n + r.n + 1)
  }

  /** The parent after btree.c:185-194: key idx and child idx+1 closed up. */
  function MergeParent(r: Rec, idx: int): (r': Rec)
    requires Fits(r) && 0 <= idx < r.n
    ensures Fits(r') && r'.n == r.n - 1 && r'.leaf == r.leaf
  {
    r.(keys := ShiftL(r.keys, idx, r.n), C := ShiftL(r.C, idx + 1, r.n + 1), n := r.n - 1)
  }

  /** The arena after merge(x, idx); the freed sibling's record stays,
      unreachable. */
  function MergeHeap(h: Heap, x: Ptr, idx: int): Heap
    requires CanMerge(h, x, idx)
  {
    var c, s := h[x].C[idx], h[x].C[idx + 1];
    h[c := MergeChild(h[c], h[x].keys[idx], h[s])][x := MergeParent(h[x], idx)]
  }

  /** The child takes in the sibling's footprint. */
  ghost function MergeFp(h: Heap, fp: seq<set<Ptr>>, x: Ptr, idx: int): seq<set<Ptr>>
    requires CanMerge(h, x, idx) && |fp| == |h|
  {
    var c, s := h[x].C[idx], h[x].C[idx + 1];
    fp[c := fp[c] + fp[s]]
  }

  ghost predicate MergeDone(h: Heap, fp: seq<set<Ptr>>, h': Heap, fp': seq<set<Ptr>>, x: Ptr, idx: int)
    requires CanMerge(h, x, idx) && |fp| == |h|
  {
    var c, s := h[x].C[idx], h[x].C[idx + 1];
    && |h'| == |h| && |fp'| == |h| && Same(h, fp, h', fp', {x, c})
    && h'[c] == MergeChild(h[c], h[x].keys[idx], h[s]) && fp'[c] == fp[c] + fp[s]
    && h'[x] == MergeParent(h[x], idx) && fp'[x] == fp[x]
  }

  lemma MergeFacts(h: Heap, fp: seq<set<Ptr>>, x: Ptr, idx: int)
    requires CanMerge(h, x, idx) && |fp| == |h|
    ensures MergeDone(h, fp, MergeHeap(h, x, idx), MergeFp(h, fp, x, idx), x, idx)
  {
  }

  /** Writing m at slot n and the run src[..k] after it appends both. */
  lemma BlitAfter<A>(dst: seq<A>, n: int, m: A, src: seq<A>, k: int)
    requires 0 <= n && n + 1 + k <= |dst| && 0 <= k <= |src|
    ensures Blit(dst[n := m], n + 1, src, 0, k)[..n + 1 + k] == dst[..n] + [m] + src[..k]
  {
    var r, w := Blit(dst[n := m], n + 1, src, 0, k), dst[..n] + [m] + src[..k];
    forall t | 0 <= t < n + 1 + k ensures r[t] == w[t] {
      if t > n {
        assert w[t] == src[t - n - 1];
      }
    }
    assert r[..n + 1 + k] == w;
  }

  /** Copying the run src[..k] after the first n entries appends it. */
  lemma BlitEnd<A>(dst: seq<A>, n: int, src: seq<A>, k: int)
    requires 0 <= n && n + k <= |dst| && 0 <= k <= |src|
    ensures Blit(dst, n, src, 0, k)[..n + k] == dst[..n] + src[..k]
  {
    var r, w := Blit(dst, n, src, 0, k), dst[..n] + src[..k];
    forall t | 0 <= t < n + k ensures r[t] == w[t] {
      if t >= n {
        assert w[t] == src[t - n];
      }
    }
    assert r[..n + k] == w;
  }

  /** The merged child stands for the join of the child, the separator m and
      the sibling. */
  lemma MergeKid(h: Heap, fp: seq<set<Ptr>>, h': Heap, fp': seq<set<Ptr>>, c: Ptr, s: Ptr, e: nat,
                 Cc: Tree, S: Tree, M: set<Ptr>, m: int)
    requires Stands(h, fp, c, e, Cc) && Stands(h, fp, s, e, S) && h[c].n == T - 1 && h[s].n <= T - 1
    requires Apart(fp, c, s) && Same(h, fp, h', fp', M) && (fp[s] - {s}) !! M && (fp[c] - {c}) !! M && s !in M
    requires h'[c] == MergeChild(h[c], m, h[s]) && fp'[c] == fp[c] + fp[s]
    ensures Stands(h', fp', c, e, Join(Cc, m, S))
  {
    var ns := h[s].n;
    BlitAfter(h[c].keys, T - 1, m, h[s].keys, ns);
    var A := h[c].C[..T] + h[s].C[..ns + 1];
    if e > 0 {
      BlitEnd(h[c].C, T, h[s].C, ns + 1);
      AllKidsRun(h, fp, c, e, Cc);
      AllKidsRun(h, fp, s, e, S);
      RunJoin(h, fp, h[c].C[..T], Cc.children, fp[c] - {c}, h[s].C[..ns + 1], S.children, fp[s] - {s}, e - 1);
    }
    var KA := if e == 0 then [] else Cc.children + S.children;
    Assemble(h, fp, h', fp', c, e, Cc.keys + [m] + S.keys, A, KA, (fp[c] - {c}) + (fp[s] - {s}), M, Join(Cc, m, S));
  }

  /** merge(x, idx) rewrites the arena so that x stands for Merge of what it
      stood for, inside x's footprint. */
  lemma MergeRefines(h: Heap, fp: seq<set<Ptr>>, x: Ptr, d: nat, X: Tree, idx: int)
    requires Stands(h, fp, x, d, X) && d > 0 && CanMerge(h, x, idx) && |fp| == |h|
    ensures |X.children| == |X.keys| + 1
    ensures var h', fp' := MergeHeap(h, x, idx), MergeFp(h, fp, x, idx);
      Stands(h', fp', x, d, Merge(X, idx)) && Same(h, fp, h', fp', fp[x]) && fp'[x] == fp[x]
  {
    var h', fp' := MergeHeap(h, x, idx), MergeFp(h, fp, x, idx);
    MergeFacts(h, fp, x, idx);
    MergeKidAt(h, fp, h', fp', x, d, X, idx);
    MergeTop(h, fp, h', fp', x, d, X, idx);
  }

  lemma MergeKidAt(h: Heap, fp: seq<set<Ptr>>, h': Heap, fp': seq<set<Ptr>>, x: Ptr, d: nat, X: Tree, idx: int)
    requires Stands(h, fp, x, d, X) && d > 0 && CanMerge(h, x, idx) && |fp| == |h|
    requires MergeDone(h, fp, h', fp', x, idx)
    ensures |X.children| == |X.keys| + 1
    ensures Stands(h', fp', h[x].C[idx], d - 1, Join(X.children[idx], X.keys[idx], X.children[idx + 1]))
  {
    var c, s := h[x].C[idx], h[x].C[idx + 1];
    PairKids(h, fp, x, d, X, idx, idx + 1);
    MergeKid(h, fp, h', fp', c, s, d - 1, X.children[idx], X.children[idx + 1], {x, c}, h[x].keys[idx]);
  }

  lemma MergeTop(h: Heap, fp: seq<set<Ptr>>, h': Heap, fp': seq<set<Ptr>>, x: Ptr, d: nat, X: Tree, idx: int)
    requires Stands(h, fp, x, d, X) && d > 0 && CanMerge(h, x, idx) && |fp| == |h|
    requires MergeDone(h, fp, h', fp', x, idx) && |X.children| == |X.keys| + 1
    requires Stands(h', fp', h[x].C[idx], d - 1, Join(X.children[idx], X.keys[idx], X.children[idx + 1]))
    ensures Stands(h', fp', x, d, Merge(X, idx)) && Same(h, fp, h', fp', fp[x])
  {
    var c, s := h[x].C[idx], h[x].C[idx + 1];
    var n := h[x].n;
    var J := Join(X.children[idx], X.keys[idx], X.children[idx + 1]);
    var M := {x, c};
    PairKids(h, fp, x, d, X, idx, idx + 1);
    PairAvoids(h, fp, x, d, X, idx, idx + 1, {x, c, s}, fp'[c], {});
    assert Avoids(h, fp, x, idx, idx + 2, M);
    CloseSlot(h[x].keys, idx, n);
    assert Within(fp[x], |h|) && Under(fp', c, x);
    MergeSplice(h, fp, h', fp', x, d, X, idx, J, M);
    assert h'[x].keys[..h'[x].n] == X.keys[..idx] + X.keys[idx + 1..];
    assert Spliced(X.children, idx, idx + 2, [J]) == Merge(X, idx).children;
  }

  /** Splice for children idx and idx+1 replaced by the first of them. */
  lemma MergeSplice(h: Heap, fp: seq<set<Ptr>>, h': Heap, fp': seq<set<Ptr>>, x: Ptr, d: nat, X: Tree, idx: int, J: Tree, M: set<Ptr>)
    requires Stands(h, fp, x, d, X) && d > 0 && 0 <= idx < h[x].n
    requires Same(h, fp, h', fp', M) && Avoids(h, fp, x, idx, idx + 2, M)
    requires 0 <= x < |h'| && h'[x] == MergeParent(h[x], idx) && fp[x] <= fp'[x] && Within(fp'[x], |h'|)
    requires Stands(h', fp', h[x].C[idx], d - 1, J) && Under(fp', h[x].C[idx], x)
    requires Avoids(h, fp, x, idx, idx + 2, fp'[h[x].C[idx]])
    ensures Stands(h', fp', x, d, Node(h'[x].keys[..h'[x].n], Spliced(X.children, idx, idx + 2, [J])))
  {
    var n, c := h[x].n, h[x].C[idx];
    CloseSlot(h[x].C, idx + 1, n + 1);
    var ps := [c];
    forall j | 0 <= j <= h'[x].n ensures h'[x].C[j] == Spliced(h[x].C[..n + 1], idx, idx + 2, ps)[j] {
      if j > idx {
        assert h'[x].C[..n][j] == h[x].C[j + 1];
      }
    }
    assert ps[0] == c && [J][0] == J;
    Splice(h, fp, h', fp', x, d, X, idx, idx + 2, ps, [J], M);
  }

  // ---------------------------------------------------------------------
  // removeFromLeaf (btree.c:235-240) and the key write of removeFromNonLeaf
  // ---------------------------------------------------------------------

  /** The leaf after removeFromLeaf(x, idx): the keys after idx move one
      slot left over it. */
  function DropKey(r: Rec, idx: int): (r': Rec)
    requires Fits(r) && 0 <= idx < r.n
    ensures Fits(r') && r'.n == r.n - 1 && r'.leaf == r.leaf && r'.C == r.C
  {
    r.(keys := ShiftL(r.keys, idx, r.n), n := r.n - 1)
  }

  /** removeFromLeaf(x, idx) leaves x standing for RemoveFromLeaf of what it
      stood for; no other record changes. */
  lemma DropRefines(h: Heap, fp: seq<set<Ptr>>, x: Ptr, X: Tree, idx: int)
    requires Stands(h, fp, x, 0, X) && 0 <= idx < h[x].n && |fp| == |h|
    ensures 0 <= idx < |X.keys|
    ensures var h' := h[x := DropKey(h[x], idx)];
      Stands(h', fp, x, 0, RemoveFromLeaf(X, idx)) && Same(h, fp, h', fp, fp[x])
  {
    var r := h[x];
    CloseSlot(r.keys, idx, r.n);
    assert X.keys == r.keys[..r.n];
    assert X.keys[..idx] + X.keys[idx + 1..] == r.keys[..idx] + r.keys[idx + 1..r.n];
    Build(h[x := DropKey(r, idx)], fp, x, 0, []);
  }

  /** x->keys[idx] = v: x then stands for its tree with key idx replaced,
      over the same children. */
  lemma RekeyRefines(h: Heap, fp: seq<set<Ptr>>, x: Ptr, d: nat, X: Tree, idx: int, v: int)
    requires Stands(h, fp, x, d, X) && 0 <= idx < h[x].n && |fp| == |h|
    ensures var h' := h[x := h[x].(keys := h[x].keys[idx := v])];
      Stands(h', fp, x, d, Node(X.keys[idx := v], X.children)) && Same(h, fp, h', fp, fp[x])
  {
    var h' := h[x := h[x].(keys := h[x].keys[idx := v])];
    assert Same(h, fp, h', fp, {x});
    if d > 0 {
      forall j | 0 <= j <= h[x].n
        ensures Stands(h', fp, h'[x].C[j], d - 1, X.children[j]) && Under(fp, h'[x].C[j], x)
      {
        ChildStands(h, fp, x, d, X, j);
        Kept(h, fp, h', fp, x, d, X, {x}, j);
      }
    }
    assert h'[x].keys[..h'[x].n] == X.keys[idx := v];
    Build(h', fp, x, d, X.children);
  }

  /** What the records show about the neighbouring children a and a+1 of a
      node that stands for X: two distinct records, neither of them x, that
      hold as many keys as the children of X, and whose outer child slots
      point into the arena when they are internal. */
  lemma PairRecs(h: Heap, fp: seq<set<Ptr>>, x: Ptr, d: nat, X: Tree, a: int)
    requires Stands(h, fp, x, d, X) && d > 0 && 0 <= a < h[x].n
    ensures |X.keys| == h[x].n && |X.children| == h[x].n + 1
    ensures var l, r := h[x].C[a], h[x].C[a + 1];
      && 0 <= l < |h| && 0 <= r < |h| && x != l && x != r && l != r && Fits(h[l]) && Fits(h[r])
      && h[l].n == |X.children[a].keys| && h[r].n == |X.children[a + 1].keys|
      && (!h[l].leaf ==> 0 <= h[l].C[h[l].n] < |h|) && (!h[r].leaf ==> 0 <= h[r].C[0] < |h|)
  {
    var l, r := h[x].C[a], h[x].C[a + 1];
    ChildStands(h, fp, x, d, X, a);
    ChildStands(h, fp, x, d, X, a + 1);
    if d > 1 {
      assert Shape(h, h[l].C[h[l].n], d - 2);
      assert Shape(h, h[r].C[0], d - 2);
    }
  }

  /** The arena side of fill's tests (btree.c:201-210): the sizes it reads
      are those of the children of X, and each branch finds the records its
      helper needs. */
  lemma FillCan(h: Heap, fp: seq<set<Ptr>>, x: Ptr, d: nat, X: Tree, idx: int)
    requires Stands(h, fp, x, d, X) && WellShaped(X, d) && d > 0
    requires 0 <= idx <= h[x].n && |X.keys| >= 1 && |X.children[idx].keys| < T
    ensures |X.keys| == h[x].n
    ensures idx != 0 ==> 0 <= h[x].C[idx - 1] < |h| && h[h[x].C[idx - 1]].n == |X.children[idx - 1].keys|
    ensures idx != h[x].n ==> 0 <= h[x].C[idx + 1] < |h| && h[h[x].C[idx + 1]].n == |X.children[idx + 1].keys|
    ensures idx != 0 && |X.children[idx - 1].keys| >= T ==> CanPrev(h, x, idx)
    ensures idx != h[x].n && |X.children[idx + 1].keys| >= T ==> CanNext(h, x, idx)
    ensures idx != h[x].n && |X.children[idx + 1].keys| < T ==> CanMerge(h, x, idx)
    ensures idx == h[x].n && |X.children[idx - 1].keys| < T ==> CanMerge(h, x, idx - 1)
  {
    ChildOf(X, d, idx);
    if idx > 0 {
      PairRecs(h, fp, x, d, X, idx - 1);
      ChildOf(X, d, idx - 1);
    }
    if idx < h[x].n {
      PairRecs(h, fp, x, d, X, idx);
      ChildOf(X, d, idx + 1);
    }
  }
}
