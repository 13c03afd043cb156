// Insertion (btree.c:27-95) on the arena: the records and footprints that
// splitChild, the leaf case of insertNonFull and the growth of the root
// leave, and the proofs that they stand for SplitChild, InsertNonFull and
// Grow of btree_model.dfy.
module BTreeHeapInsert {
  import opened Shifts
  import opened SortedSeqs
  import opened BTreeModel
  import opened BTreeHeap

  /** The new node z of btree.c:28-39: the last T-1 keys of y and, when y is
      internal, its last T children. */
  function SplitZ(y: Rec): (z: Rec)
    requires Fits(y)
    ensures Fits(z) && z.n == T - 1 && z.leaf == y.leaf
    ensures forall j :: 0 <= j < T - 1 ==> z.keys[j] == y.keys[j + T]
    ensures forall j :: 0 <= j < 2 * T ==> z.C[j] == if !y.leaf && j < T then y.C[j + T] else NULL
  {
    var z0 := NewRec(y.leaf);
    z0.(n := T - 1,
        keys := Blit(z0.keys, 0, y.keys, T, T - 1),
        C := if y.leaf then z0.C else Blit(z0.C, 0, y.C, T, T))
  }

  /** The parent x after btree.c:43-54: child slots from i+1 and key slots
      from i move one place right, z goes in as child i+1 and the median m
      as key i. */
  function SplitX(x: Rec, i: int, z: Ptr, m: int): (r: Rec)
    requires Fits(x) && x.n < 2 * T - 1 && 0 <= i <= x.n
    ensures Fits(r) && r.n == x.n + 1 && r.leaf == x.leaf
    ensures r.keys[..r.n] == x.keys[..i] + [m] + x.keys[i..x.n]
    ensures forall j :: 0 <= j < 2 * T ==> r.C[j] == if j <= i then x.C[j] else if j == i + 1 then z else if j <= x.n + 1 then x.C[j - 1] else x.C[j]
  {
    OpenSlot(x.keys, i, x.n, m);
    x.(C := ShiftR(x.C, i + 1, x.n + 1)[i + 1 := z],
       keys := ShiftR(x.keys, i, x.n)[i := m],
       n := x.n + 1)
  }

  /** Preconditions of splitChild(x, i, x->C[i]) that the records alone show. */
  predicate CanSplit(h: Heap, x: Ptr, i: int)
  {
    && 0 <= x < |h| && Fits(h[x]) && h[x].n < 2 * T - 1 && 0 <= i <= h[x].n
    && 0 <= h[x].C[i] < |h| && h[x].C[i] != x && Fits(h[h[x].C[i]]) && h[h[x].C[i]].n == 2 * T - 1
  }

  /** The arena after splitChild(x, i, y): z appended, y cut to T-1 keys,
      x rewritten. */
  function SplitHeap(h: Heap, x: Ptr, i: int): Heap
    requires CanSplit(h, x, i)
  {
    var y := h[x].C[i];
    (h + [SplitZ(h[y])])[y := h[y].(n := T - 1)][x := SplitX(h[x], i, |h|, h[y].keys[T - 1])]
  }

  /** The footprints after the split: z owns itself and the children it took
      over, y gives those up, x gains z. */
  ghost function SplitFp(h: Heap, fp: seq<set<Ptr>>, x: Ptr, i: int): seq<set<Ptr>>
    requires CanSplit(h, x, i) && |fp| == |h|
  {
    var y := h[x].C[i];
    var fz := {|h|} + Below(fp, h[y].C[T..]);
    (fp + [fz])[y := fp[y] - fz][x := fp[x] + {|h|}]
  }

  lemma SplitSame(h: Heap, fp: seq<set<Ptr>>, x: Ptr, i: int)
    requires CanSplit(h, x, i) && |fp| == |h|
    ensures Same(h, fp, SplitHeap(h, x, i), SplitFp(h, fp, x, i), {x, h[x].C[i]})
  {
    var y := h[x].C[i];
    var h', fp' := SplitHeap(h, x, i), SplitFp(h, fp, x, i);
    forall q | 0 <= q < |h| && q !in {x, y} ensures h'[q] == h[q] && fp'[q] == fp[q] {
      assert h'[q] == (h + [SplitZ(h[y])])[q];
    }
  }

  /** y cut down to its first T-1 keys stands for the left half of the old y,
      provided nothing below it changed and it gives up only footprint F
      that its remaining children do not use. */
  lemma LeftHalf(h: Heap, fp: seq<set<Ptr>>, h': Heap, fp': seq<set<Ptr>>, y: Ptr, e: nat, Y: Tree, M: set<Ptr>, F: set<Ptr>)
    requires Stands(h, fp, y, e, Y) && h[y].n == 2 * T - 1
    requires Same(h, fp, h', fp', M) && (fp[y] - {y}) !! M
    requires h'[y] == h[y].(n := T - 1) && fp'[y] == fp[y] - F && y !in F
    requires e > 0 ==> forall j :: 0 <= j < T ==> fp[h[y].C[j]] !! F
    ensures Full(Y) && Stands(h', fp', y, e, Left(Y, T - 1))
  {
    assert Fits(h'[y]);
    forall j | e > 0 && 0 <= j <= T - 1 ensures fp[h[y].C[j]] <= fp'[y] && y !in fp[h[y].C[j]] {
      ChildStands(h, fp, y, e, Y, j);
    }
    Slice(h, fp, h', fp', y, e, Y, M, y, 0);
    assert Y.keys[0..T - 1] == Y.keys[..T - 1];
    assert e > 0 ==> Y.children[0..T] == Y.children[..T];
  }

  /** z, holding the last T-1 keys and T children of y, stands for the right
      half of y. */
  lemma RightHalf(h: Heap, fp: seq<set<Ptr>>, h': Heap, fp': seq<set<Ptr>>, y: Ptr, e: nat, Y: Tree, M: set<Ptr>, z: Ptr)
    requires Stands(h, fp, y, e, Y) && h[y].n == 2 * T - 1
    requires Same(h, fp, h', fp', M) && (fp[y] - {y}) !! M
    requires |h| <= z < |h'| && h'[z] == SplitZ(h[y]) && fp'[z] == {z} + Below(fp, h[y].C[T..])
    ensures Full(Y) && Stands(h', fp', z, e, Right(Y, T - 1))
    ensures fp'[z] <= fp[y] + {z}
  {
    assert h'[z].keys[..h'[z].n] == h[y].keys[T..T + h'[z].n];
    UpperKids(h, fp, y, e, Y);
    forall j | e > 0 && T <= j <= T + h'[z].n ensures fp[h[y].C[j]] <= fp'[z] && z !in fp[h[y].C[j]] {
      UpperIn(h, fp, y, e, Y, j);
    }
    Slice(h, fp, h', fp', y, e, Y, M, z, T);
    assert Y.keys[T..T + (T - 1)] == Y.keys[T..];
    assert e > 0 ==> Y.children[T..T + (T - 1) + 1] == Y.children[T..];
  }

  lemma UpperIn(h: Heap, fp: seq<set<Ptr>>, y: Ptr, e: nat, Y: Tree, j: int)
    requires Stands(h, fp, y, e, Y) && h[y].n == 2 * T - 1 && e > 0 && T <= j < 2 * T
    ensures fp[h[y].C[j]] <= Below(fp, h[y].C[T..]) && Within(fp[h[y].C[j]], |h|)
  {
    var cs := h[y].C[T..];
    ChildTidy(h, fp, y, e, j);
    assert cs[j - T] == h[y].C[j];
    InBelow(fp, cs, j - T);
  }

  /** What splitting child y of x does to the footprints: fz, the footprint z
      takes over, is y's footprint below its last T children plus the fresh
      record, and avoids y, x and y's first T children. */
  lemma SplitFz(h: Heap, fp: seq<set<Ptr>>, x: Ptr, y: Ptr, e: nat, Y: Tree)
    requires Stands(h, fp, y, e, Y) && Under(fp, y, x) && h[y].n == 2 * T - 1 && |fp| == |h|
    ensures var fz := {|h|} + Below(fp, h[y].C[T..]);
      && y != x && y !in fz && x !in fz && fz - {|h|} <= fp[y]
      && (e > 0 ==> forall j :: 0 <= j < T ==> fp[h[y].C[j]] !! fz)
  {
    var B := Below(fp, h[y].C[T..]);
    UpperKids(h, fp, y, e, Y);
    assert B <= fp[y] - {y} && x !in fp[y];
    assert y !in B && x !in B;
    if e > 0 {
      FzApart(h, fp, y, e, Y);
    }
  }

  /** ... and apart from the fresh record too. */
  lemma FzApart(h: Heap, fp: seq<set<Ptr>>, y: Ptr, e: nat, Y: Tree)
    requires Stands(h, fp, y, e, Y) && h[y].n == 2 * T - 1 && e > 0
    requires forall k :: 0 <= k < T ==> fp[h[y].C[k]] !! Below(fp, h[y].C[T..])
    ensures forall k :: 0 <= k < T ==> fp[h[y].C[k]] !! {|h|} + Below(fp, h[y].C[T..])
  {
    forall k | 0 <= k < T ensures |h| !in fp[h[y].C[k]] {
      ChildTidy(h, fp, y, e, k);
    }
  }

  /** The footprints under the last T children of a full node y lie in y's
      own footprint below y, apart from those of its first T children. */
  lemma UpperKids(h: Heap, fp: seq<set<Ptr>>, y: Ptr, e: nat, Y: Tree)
    requires Stands(h, fp, y, e, Y) && h[y].n == 2 * T - 1
    ensures Below(fp, h[y].C[T..]) <= fp[y] - {y}
    ensures e > 0 ==> forall k :: 0 <= k < T ==> fp[h[y].C[k]] !! Below(fp, h[y].C[T..])
  {
    var cs := h[y].C[T..];
    forall j | 0 <= j < |cs| && 0 <= cs[j] < |fp| ensures fp[cs[j]] <= fp[y] - {y} {
      assert cs[j] == h[y].C[j + T];
      if e == 0 {
        assert false;
      }
      ChildStands(h, fp, y, e, Y, j + T);
    }
    BelowInside(fp, cs, fp[y] - {y});
    if e > 0 {
      forall k | 0 <= k < T ensures fp[h[y].C[k]] !! Below(fp, cs) {
        LowerApart(h, fp, y, e, Y, k);
      }
    }
  }

  lemma LowerApart(h: Heap, fp: seq<set<Ptr>>, y: Ptr, e: nat, Y: Tree, k: int)
    requires Stands(h, fp, y, e, Y) && h[y].n == 2 * T - 1 && e > 0 && 0 <= k < T
    ensures fp[h[y].C[k]] !! Below(fp, h[y].C[T..])
  {
    var cs := h[y].C[T..];
    ChildStands(h, fp, y, e, Y, k);
    forall j | 0 <= j < |cs| && 0 <= cs[j] < |fp| ensures fp[cs[j]] !! fp[h[y].C[k]] {
      assert cs[j] == h[y].C[j + T];
    }
    BelowDisjoint(fp, cs, fp[h[y].C[k]]);
  }

  /** splitChild(x, i, x->C[i]) (btree.c:27-55) on a node x that stands for
      X: afterwards x stands for SplitChild(X, i), only x's footprint and the
      fresh record changed, and x's footprint gained just that record. */
  lemma SplitRefines(h: Heap, fp: seq<set<Ptr>>, x: Ptr, d: nat, X: Tree, i: int)
    requires Stands(h, fp, x, d, X) && d > 0 && CanSplit(h, x, i) && |fp| == |h|
    ensures |X.children| == |X.keys| + 1 && i < |X.children| && Full(X.children[i])
    ensures Stands(SplitHeap(h, x, i), SplitFp(h, fp, x, i), x, d, SplitChild(X, i))
    ensures Same(h, fp, SplitHeap(h, x, i), SplitFp(h, fp, x, i), fp[x])
    ensures SplitFp(h, fp, x, i)[x] == fp[x] + {|h|}
  {
    var y := h[x].C[i];
    var h', fp' := SplitHeap(h, x, i), SplitFp(h, fp, x, i);
    SplitSame(h, fp, x, i);
    SplitFacts(h, fp, x, i);
    SplitCore(h, fp, h', fp', x, d, X, i);
    ChildStands(h, fp, x, d, X, i);
    assert {x, y} <= fp[x];
  }

  /** The records and footprints at x, y and z after the split. */
  lemma SplitFacts(h: Heap, fp: seq<set<Ptr>>, x: Ptr, i: int)
    requires CanSplit(h, x, i) && |fp| == |h|
    ensures var y, h', fp' := h[x].C[i], SplitHeap(h, x, i), SplitFp(h, fp, x, i);
      var fz := {|h|} + Below(fp, h[y].C[T..]);
      && |h'| == |h| + 1 && |fp'| == |h'|
      && h'[y] == h[y].(n := T - 1) && fp'[y] == fp[y] - fz
      && h'[|h|] == SplitZ(h[y]) && fp'[|h|] == fz
      && h'[x] == SplitX(h[x], i, |h|, h[y].keys[T - 1]) && fp'[x] == fp[x] + {|h|}
  {
  }

  /** SplitRefines on records given by their new contents only. */
  lemma SplitCore(h: Heap, fp: seq<set<Ptr>>, h': Heap, fp': seq<set<Ptr>>, x: Ptr, d: nat, X: Tree, i: int)
    requires Stands(h, fp, x, d, X) && d > 0 && CanSplit(h, x, i)
    requires Same(h, fp, h', fp', {x, h[x].C[i]}) && |h'| == |h| + 1
    requires var y, fz := h[x].C[i], {|h|} + Below(fp, h[h[x].C[i]].C[T..]);
      && h'[y] == h[y].(n := T - 1) && fp'[y] == fp[y] - fz
      && h'[|h|] == SplitZ(h[y]) && fp'[|h|] == fz
      && h'[x] == SplitX(h[x], i, |h|, h[y].keys[T - 1]) && fp'[x] == fp[x] + {|h|}
    ensures |X.children| == |X.keys| + 1 && i < |X.children| && Full(X.children[i])
    ensures Stands(h', fp', x, d, SplitChild(X, i))
  {
    var y, z := h[x].C[i], |h|;
    var Y := X.children[i];
    var fz := {z} + Below(fp, h[y].C[T..]);
    var M := {x, y};
    ChildStands(h, fp, x, d, X, i);
    SplitFz(h, fp, x, y, d - 1, Y);
    LeftHalf(h, fp, h', fp', y, d - 1, Y, M, fz);
    RightHalf(h, fp, h', fp', y, d - 1, Y, M, z);
    SplitAvoids(h, fp, x, d, X, i, M, fp'[y], fp'[z]);
    assert Under(fp', y, x) && Under(fp', z, x) && Apart(fp', y, z);
    SplitParent(h, fp, h', fp', x, d, X, i, M, Left(Y, T - 1), Right(Y, T - 1));
    assert h'[x].keys[..h'[x].n] == SplitChild(X, i).keys;
  }

  /** The parent after the split, given the two halves. */
  lemma SplitParent(h: Heap, fp: seq<set<Ptr>>, h': Heap, fp': seq<set<Ptr>>, x: Ptr, d: nat, X: Tree, i: int,
                    M: set<Ptr>, L: Tree, R: Tree)
    requires Stands(h, fp, x, d, X) && d > 0 && CanSplit(h, x, i)
    requires Same(h, fp, h', fp', M) && |h'| == |h| + 1 && Avoids(h, fp, x, i, i + 1, M)
    requires h'[x] == SplitX(h[x], i, |h|, h[h[x].C[i]].keys[T - 1])
    requires Stands(h', fp', h[x].C[i], d - 1, L) && Stands(h', fp', |h|, d - 1, R)
    requires Under(fp', h[x].C[i], x) && Under(fp', |h|, x) && Apart(fp', h[x].C[i], |h|)
    requires Avoids(h, fp, x, i, i + 1, fp'[h[x].C[i]]) && Avoids(h, fp, x, i, i + 1, fp'[|h|])
    requires fp'[x] == fp[x] + {|h|}
    ensures Stands(h', fp', x, d, Node(h'[x].keys[..h'[x].n], X.children[..i] + [L, R] + X.children[i + 1..]))
  {
    var ps := [h[x].C[i], |h|];
    SplitXKids(h[x], i, |h|, h[h[x].C[i]].keys[T - 1]);
    assert |ps| == 2 && ps[0] == h[x].C[i] && ps[1] == |h|;
    assert Fits(h[x]) && Within(fp[x], |h|) && !h[x].leaf;
    Splice(h, fp, h', fp', x, d, X, i, i + 1, ps, [L, R], M);
  }

  lemma SplitAvoids(h: Heap, fp: seq<set<Ptr>>, x: Ptr, d: nat, X: Tree, i: int, M: set<Ptr>, fy: set<Ptr>, fz: set<Ptr>)
    requires Stands(h, fp, x, d, X) && d > 0 && 0 <= i <= h[x].n
    requires M == {x, h[x].C[i]} && fy <= fp[h[x].C[i]] && fz - {|h|} <= fp[h[x].C[i]]
    ensures Avoids(h, fp, x, i, i + 1, M) && Avoids(h, fp, x, i, i + 1, fy) && Avoids(h, fp, x, i, i + 1, fz)
  {
    var cs := h[x].C[i..i + 1];
    assert cs[0] == h[x].C[i];
    ChildStands(h, fp, x, d, X, i);
    InBelow(fp, cs, 0);
    AvoidsRun(h, fp, x, d, X, i, i + 1, M);
    AvoidsRun(h, fp, x, d, X, i, i + 1, fy);
    AvoidsRun(h, fp, x, d, X, i, i + 1, fz);
  }

  lemma SplitXKids(x: Rec, i: int, z: Ptr, m: int)
    requires Fits(x) && x.n < 2 * T - 1 && 0 <= i <= x.n
    ensures forall j :: 0 <= j <= x.n + 1 ==> SplitX(x, i, z, m).C[j] == Spliced(x.C[..x.n + 1], i, i + 1, [x.C[i], z])[j]
  {
  }

  /** The leaf x after btree.c:62-68: the keys greater than k, scanned from
      the right, move one slot right and k goes into the gap. */
  function LeafPut(r: Rec, k: int): (r': Rec)
    requires Fits(r) && r.n < 2 * T - 1
    ensures Fits(r') && r'.n == r.n + 1 && r'.leaf == r.leaf && r'.C == r.C
  {
    var u := UpperIdx(r.keys[..r.n], k);
    r.(keys := ShiftR(r.keys, u, r.n)[u := k], n := r.n + 1)
  }

  /** The live keys afterwards are the old ones with k inserted after every
      key at most k. */
  lemma LeafPutKeys(r: Rec, k: int)
    requires Fits(r) && r.n < 2 * T - 1
    ensures LeafPut(r, k).keys[..r.n + 1] == InsertKey(r.keys[..r.n], k)
  {
    var s := r.keys[..r.n];
    var u := UpperIdx(s, k);
    OpenSlot(r.keys, u, r.n, k);
    assert s[..u] == r.keys[..u] && s[u..] == r.keys[u..r.n];
  }

  /** Where the shifting scan of btree.c:62-65 stops, told by the keys on
      either side of it, is where LeafPut puts k. */
  lemma LeafPutIs(r: Rec, u: int, k: int)
    requires Fits(r) && r.n < 2 * T - 1 && 0 <= u <= r.n
    requires forall t :: u <= t < r.n ==> r.keys[t] > k
    requires u > 0 ==> r.keys[u - 1] <= k
    ensures LeafPut(r, k) == r.(keys := ShiftR(r.keys, u, r.n)[u := k], n := r.n + 1)
  {
    UpperIdxAt(r.keys[..r.n], k, u);
  }

  /** A leaf that stands for X stands for InsertNonFull(X, k, 0) once k is
      put into it. */
  lemma LeafPutRefines(h: Heap, fp: seq<set<Ptr>>, x: Ptr, X: Tree, k: int)
    requires Stands(h, fp, x, 0, X) && h[x].n < 2 * T - 1
    ensures WellShaped(X, 0) && |X.keys| < 2 * T - 1
    ensures Stands(h[x := LeafPut(h[x], k)], fp, x, 0, InsertNonFull(X, k, 0))
  {
    var h' := h[x := LeafPut(h[x], k)];
    LeafPutKeys(h[x], k);
    assert NoKids(h'[x]);
    Build(h', fp, x, 0, []);
  }

  /** The arena after btree.c:87-89: a fresh internal root s whose only
      child is the old root r. */
  function GrowHeap(h: Heap, r: Ptr): Heap
  {
    var s0 := NewRec(false);
    h + [s0.(C := s0.C[0 := r])]
  }

  /** A fresh root over a tree that stands for X stands for Node([], [X]),
      one level higher, with nothing else changed. */
  lemma GrowRefines(h: Heap, fp: seq<set<Ptr>>, r: Ptr, d: nat, X: Tree)
    requires Stands(h, fp, r, d, X) && |fp| == |h|
    ensures var h', fp' := GrowHeap(h, r), fp + [{|h|} + fp[r]];
      && Stands(h', fp', |h|, d + 1, Node([], [X])) && Same(h, fp, h', fp', {})
      && (h[r].n == 2 * T - 1 ==> CanSplit(h', |h|, 0))
  {
    var s := |h|;
    var h', fp' := GrowHeap(h, r), fp + [{s} + fp[r]];
    assert Same(h, fp, h', fp', {});
    Untouched(h, fp, h', fp', r, d, X, {});
    assert h'[s].C[0] == r && h'[s].n == 0;
    Build(h', fp', s, d + 1, [X]);
  }
}
