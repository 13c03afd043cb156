// search (btree.c:293-306) as a function over the arena: it reads records
// only, so it needs no method; the lemma below ties its answer to the walk
// of the tree the arena stands for.
module BTreeSearch {
  import opened SortedSeqs
  import opened BTreeModel
  import opened BTreeHeap
  import opened BTreeDelete

  /** What search returns: NULL, or the node and the *index it writes. */
  datatype Found = Missing | Found(node: Ptr, index: int)

  /** search(x, k, &index): scan the node from the left for the first key
      at least k; stop there if it is k, give up at a leaf, and otherwise
      go down into the child before that key. */
  function Search(h: Heap, x: Ptr, k: int, d: nat): (r: Found)
    requires Shape(h, x, d)
    ensures r.Found? ==> 0 <= r.node < |h| && Fits(h[r.node]) && 0 <= r.index < h[r.node].n && h[r.node].keys[r.index] == k
    decreases d
  {
    var i := LowerIdx(h[x].keys[..h[x].n], k);
    if i < h[x].n && h[x].keys[i] == k then Found(x, i)
    else if h[x].leaf then Missing
    else Search(h, h[x].C[i], k, d - 1)
  }

  /** On a node that stands for a tree with a sorted walk, search finds k
      exactly when k is in the walk, and what it finds is a node of that
      tree. */
  lemma {:induction false} SearchCorrect(h: Heap, fp: seq<set<Ptr>>, x: Ptr, d: nat, t: Tree, k: int)
    requires Stands(h, fp, x, d, t) && Sorted(Flat(t))
    ensures Search(h, x, k, d).Found? <==> k in Flat(t)
    ensures Search(h, x, k, d).Found? ==> Search(h, x, k, d).node in fp[x]
    decreases d
  {
    var i := LowerIdx(h[x].keys[..h[x].n], k);
    assert t.keys == h[x].keys[..h[x].n];
    if i < h[x].n && h[x].keys[i] == k {
      KeyInFlat(t, i);
    } else {
      SearchStep(t, k);
      if !h[x].leaf {
        ChildStands(h, fp, x, d, t, i);
        ChildSorted(t, i);
        SearchCorrect(h, fp, h[x].C[i], d - 1, t.children[i], k);
      }
    }
  }

  /** One step of getPred's cursor: at a leaf the answer is its last key,
      else the cursor moves to the last child, which has the same answer. */
  lemma PredStep(h: Heap, fp: seq<set<Ptr>>, p: Ptr, e: nat, Y: Tree)
    requires Stands(h, fp, p, e, Y) && WellShaped(Y, e) && |Y.keys| >= 1
    ensures h[p].leaf ==> 0 < h[p].n && Rightmost(Y, e) == h[p].keys[h[p].n - 1]
    ensures !h[p].leaf ==> e > 0 && var c := h[p].C[h[p].n]; var Z := Y.children[|Y.keys|];
      Stands(h, fp, c, e - 1, Z) && WellShaped(Z, e - 1) && |Z.keys| >= 1 && Rightmost(Z, e - 1) == Rightmost(Y, e)
  {
    if !h[p].leaf {
      ChildStands(h, fp, p, e, Y, h[p].n);
      ChildOf(Y, e, |Y.keys|);
    }
  }

  /** One step of getSucc's cursor, the mirror image: the first key, or the
      first child. */
  lemma SuccStep(h: Heap, fp: seq<set<Ptr>>, p: Ptr, e: nat, Y: Tree)
    requires Stands(h, fp, p, e, Y) && WellShaped(Y, e) && |Y.keys| >= 1
    ensures h[p].leaf ==> 0 < h[p].n && Leftmost(Y, e) == h[p].keys[0]
    ensures !h[p].leaf ==> e > 0 && var c := h[p].C[0]; var Z := Y.children[0];
      Stands(h, fp, c, e - 1, Z) && WellShaped(Z, e - 1) && |Z.keys| >= 1 && Leftmost(Z, e - 1) == Leftmost(Y, e)
  {
    if !h[p].leaf {
      ChildStands(h, fp, p, e, Y, 0);
      ChildOf(Y, e, 0);
    }
  }
}
