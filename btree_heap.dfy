// The pointer structure of btree.c. Nodes live in an arena: a pointer is an
// index into a sequence of node records, NULL is -1, malloc appends a record
// and free drops the last reference (the record stays, unreachable). A
// record holds the whole fixed-capacity arrays, stale slots included.
//
// Beside the arena runs a ghost sequence fp of footprints: fp[p] is a set of
// pointers that holds p and the footprints of its live children, which are
// pairwise disjoint and do not hold p. Tidy(h, fp, p, d) says that p roots
// such a pointer tree of height d; Abs(h, p, d) reads it back as a value of
// btree_model.dfy.
module BTreeHeap {
  import opened BTreeModel

  type Ptr = int

  const NULL: Ptr := -1

  /** One BTreeNode (btree.c:8-13): keys[2T-1], C[2T], n, leaf. */
  datatype Rec = Rec(keys: seq<int>, C: seq<Ptr>, n: int, leaf: bool)

  type Heap = seq<Rec>

  /** The arrays have their declared sizes and n is in range. */
  predicate Fits(r: Rec)
  {
    |r.keys| == 2 * T - 1 && |r.C| == 2 * T && 0 <= r.n <= 2 * T - 1
  }

  /** Every child slot is NULL, as createNode leaves them. */
  predicate NoKids(r: Rec)
    requires Fits(r)
  {
    forall j :: 0 <= j < 2 * T ==> r.C[j] == NULL
  }

  /** Every pointer of S is a record of an arena of n records. */
  predicate Within(S: set<Ptr>, n: int)
  {
    forall q :: q in S ==> 0 <= q < n
  }

  /** c's footprint lies inside p's and does not hold p. */
  predicate Under(fp: seq<set<Ptr>>, c: Ptr, p: Ptr)
  {
    0 <= c < |fp| && 0 <= p < |fp| && fp[c] <= fp[p] && p !in fp[c]
  }

  /** The footprints of a and b are disjoint. */
  predicate Apart(fp: seq<set<Ptr>>, a: Ptr, b: Ptr)
  {
    0 <= a < |fp| && 0 <= b < |fp| && fp[a] !! fp[b]
  }

  /** Every node down to depth d is a record of the arena, the leaf flag is
      set exactly at depth d, and leaves have only NULL child slots. */
  predicate Shape(h: Heap, p: Ptr, d: nat)
    decreases d
  {
    && 0 <= p < |h| && Fits(h[p])
    && (h[p].leaf <==> d == 0)
    && (d == 0 ==> NoKids(h[p]))
    && (d > 0 ==> forall j :: 0 <= j <= h[p].n ==> Shape(h, h[p].C[j], d - 1))
  }

  /** The footprints below p nest and the children's are pairwise disjoint. */
  predicate Owns(h: Heap, fp: seq<set<Ptr>>, p: Ptr, d: nat)
    decreases d
  {
    && 0 <= p < |h| && Fits(h[p]) && p < |fp|
    && p in fp[p] && Within(fp[p], |h|)
    && (d > 0 ==> forall j :: 0 <= j <= h[p].n ==> Under(fp, h[p].C[j], p) && Owns(h, fp, h[p].C[j], d - 1))
    && (d > 0 ==> forall i, j :: 0 <= i < j <= h[p].n ==> Apart(fp, h[p].C[i], h[p].C[j]))
  }

  predicate Tidy(h: Heap, fp: seq<set<Ptr>>, p: Ptr, d: nat)
  {
    Shape(h, p, d) && Owns(h, fp, p, d)
  }

  /** The value the pointer tree at p stands for. */
  function Abs(h: Heap, p: Ptr, d: nat): (t: Tree)
    requires Shape(h, p, d)
    ensures |t.keys| == h[p].n && NodeShaped(t) && (t.children == [] <==> d == 0)
    decreases d
  {
    var r := h[p];
    Node(r.keys[..r.n],
         if d == 0 then [] else seq(r.n + 1, j requires 0 <= j <= r.n => Abs(h, r.C[j], d - 1)))
  }

  /** p roots a tidy pointer tree of height d that stands for t. */
  predicate Stands(h: Heap, fp: seq<set<Ptr>>, p: Ptr, d: nat, t: Tree)
  {
    Tidy(h, fp, p, d) && Abs(h, p, d) == t
  }

  /** h' holds the same records as h at every pointer of S. */
  predicate Agree(h: Heap, h': Heap, S: set<Ptr>)
  {
    forall q {:trigger q in S} :: q in S ==> 0 <= q < |h| && q < |h'| && h'[q] == h[q]
  }

  /** fp' holds the same footprints as fp at every pointer of S. */
  predicate AgreeFp(fp: seq<set<Ptr>>, fp': seq<set<Ptr>>, S: set<Ptr>)
  {
    forall q {:trigger q in S} :: q in S ==> 0 <= q < |fp| && q < |fp'| && fp'[q] == fp[q]
  }

  // ---------------------------------------------------------------------
  // Frames
  // ---------------------------------------------------------------------

  lemma AgreeSub(h: Heap, h': Heap, fp: seq<set<Ptr>>, fp': seq<set<Ptr>>, S: set<Ptr>, S': set<Ptr>)
    requires Agree(h, h', S) && AgreeFp(fp, fp', S) && S' <= S
    ensures Agree(h, h', S') && AgreeFp(fp, fp', S')
  {
  }

  /** Child j of a tidy internal node is tidy one level lower, inside the
      node's footprint. */
  lemma ChildTidy(h: Heap, fp: seq<set<Ptr>>, p: Ptr, d: nat, j: int)
    requires Tidy(h, fp, p, d) && d > 0 && 0 <= j <= h[p].n
    ensures Tidy(h, fp, h[p].C[j], d - 1) && Under(fp, h[p].C[j], p)
  {
  }

  /** Changing records and footprints outside fp[p] changes nothing about p. */
  lemma {:induction false} Frame(h: Heap, fp: seq<set<Ptr>>, h': Heap, fp': seq<set<Ptr>>, p: Ptr, d: nat)
    requires Tidy(h, fp, p, d) && Agree(h, h', fp[p]) && AgreeFp(fp, fp', fp[p])
    requires |h| <= |h'|
    ensures Tidy(h', fp', p, d) && Abs(h', p, d) == Abs(h, p, d) && fp'[p] == fp[p]
    decreases d
  {
    assert h'[p] == h[p] && fp'[p] == fp[p];
    if d > 0 {
      var r := h[p];
      forall j | 0 <= j <= r.n
        ensures Tidy(h', fp', r.C[j], d - 1) && Abs(h', r.C[j], d - 1) == Abs(h, r.C[j], d - 1)
        ensures fp'[r.C[j]] == fp[r.C[j]]
      {
        ChildTidy(h, fp, p, d, j);
        AgreeSub(h, h', fp, fp', fp[p], fp[r.C[j]]);
        Frame(h, fp, h', fp', r.C[j], d - 1);
      }
      forall i, j | 0 <= i < j <= r.n ensures Apart(fp', r.C[i], r.C[j]) {
        assert Apart(fp, r.C[i], r.C[j]);
      }
      assert Abs(h', p, d).children == Abs(h, p, d).children;
    }
  }

  /** Every record and footprint outside M is as it was; records may have
      been appended. */
  predicate Same(h: Heap, fp: seq<set<Ptr>>, h': Heap, fp': seq<set<Ptr>>, M: set<Ptr>)
  {
    && |fp| == |h| && |h| <= |h'| && |fp'| == |h'|
    && forall q :: 0 <= q < |h| && q !in M ==> h'[q] == h[q] && fp'[q] == fp[q]
  }

  lemma SameTrans(h: Heap, fp: seq<set<Ptr>>, h1: Heap, fp1: seq<set<Ptr>>, h2: Heap, fp2: seq<set<Ptr>>, M: set<Ptr>, M1: set<Ptr>)
    requires Same(h, fp, h1, fp1, M) && Same(h1, fp1, h2, fp2, M1)
    requires forall q :: q in M1 && 0 <= q < |h| ==> q in M
    ensures Same(h, fp, h2, fp2, M)
  {
  }

  /** A subtree whose footprint avoids every changed pointer is unchanged. */
  lemma Untouched(h: Heap, fp: seq<set<Ptr>>, h': Heap, fp': seq<set<Ptr>>, p: Ptr, d: nat, t: Tree, M: set<Ptr>)
    requires Stands(h, fp, p, d, t) && Same(h, fp, h', fp', M) && fp[p] !! M
    ensures Stands(h', fp', p, d, t) && fp'[p] == fp[p]
  {
    Frame(h, fp, h', fp', p, d);
  }

  /** Child j of a node that stands for t stands for child j of t. */
  lemma ChildStands(h: Heap, fp: seq<set<Ptr>>, p: Ptr, d: nat, t: Tree, j: int)
    requires Stands(h, fp, p, d, t) && d > 0 && 0 <= j <= h[p].n
    ensures Stands(h, fp, h[p].C[j], d - 1, t.children[j]) && Under(fp, h[p].C[j], p)
    ensures forall i :: 0 <= i <= h[p].n && i != j ==> Apart(fp, h[p].C[i], h[p].C[j])
  {
    forall i | 0 <= i <= h[p].n && i != j ensures Apart(fp, h[p].C[i], h[p].C[j]) {
      if i < j {
        assert Apart(fp, h[p].C[i], h[p].C[j]);
      } else {
        assert Apart(fp, h[p].C[j], h[p].C[i]);
      }
    }
  }

  /** A node is tidy and stands for its keys over its children's values once
      each child stands for its value inside the node's footprint, the
      children's footprints are pairwise disjoint and none holds the node. */
  lemma Build(h: Heap, fp: seq<set<Ptr>>, p: Ptr, d: nat, kids: seq<Tree>)
    requires 0 <= p < |h| && Fits(h[p]) && (h[p].leaf <==> d == 0) && p < |fp|
    requires p in fp[p] && Within(fp[p], |h|)
    requires d == 0 ==> NoKids(h[p])
    requires d > 0 ==> |kids| == h[p].n + 1
    requires d > 0 ==> forall j :: 0 <= j <= h[p].n ==>
      Stands(h, fp, h[p].C[j], d - 1, kids[j]) && Under(fp, h[p].C[j], p)
    requires d > 0 ==> forall i, j :: 0 <= i < j <= h[p].n ==> Apart(fp, h[p].C[i], h[p].C[j])
    ensures Stands(h, fp, p, d, Node(h[p].keys[..h[p].n], if d == 0 then [] else kids))
  {
    if d > 0 {
      assert Abs(h, p, d).children == kids;
    }
  }

  /** A record p' whose live keys and children are the run starting at offset
      off of the live keys and children of y, with the subtrees below
      unchanged, stands for that run of the old y. */
  lemma Slice(h: Heap, fp: seq<set<Ptr>>, h': Heap, fp': seq<set<Ptr>>, y: Ptr, e: nat, Y: Tree, M: set<Ptr>, p': Ptr, off: nat)
    requires Stands(h, fp, y, e, Y) && Same(h, fp, h', fp', M) && (fp[y] - {y}) !! M
    requires 0 <= p' < |h'| && Fits(h'[p']) && h'[p'].leaf == h[y].leaf && off + h'[p'].n <= h[y].n
    requires h'[p'].keys[..h'[p'].n] == h[y].keys[off..off + h'[p'].n]
    requires e == 0 ==> NoKids(h'[p'])
    requires e > 0 ==> forall j :: 0 <= j <= h'[p'].n ==> h'[p'].C[j] == h[y].C[j + off]
    requires p' in fp'[p'] && Within(fp'[p'], |h'|)
    requires e > 0 ==> forall j :: off <= j <= off + h'[p'].n ==> fp[h[y].C[j]] <= fp'[p'] && p' !in fp[h[y].C[j]]
    ensures var m := h'[p'].n;
      Stands(h', fp', p', e, Node(Y.keys[off..off + m], if e == 0 then [] else Y.children[off..off + m + 1]))
  {
    var m := h'[p'].n;
    if e == 0 {
      Build(h', fp', p', 0, []);
    } else {
      SliceKids(h, fp, h', fp', y, e, Y, M, p', off);
      SliceApart(h, fp, h', fp', y, e, Y, M, p', off);
      Build(h', fp', p', e, Y.children[off..off + m + 1]);
    }
  }

  lemma SliceKids(h: Heap, fp: seq<set<Ptr>>, h': Heap, fp': seq<set<Ptr>>, y: Ptr, e: nat, Y: Tree, M: set<Ptr>, p': Ptr, off: nat)
    requires Stands(h, fp, y, e, Y) && e > 0 && Same(h, fp, h', fp', M) && (fp[y] - {y}) !! M
    requires 0 <= p' < |h'| && Fits(h'[p']) && off + h'[p'].n <= h[y].n
    requires forall j :: 0 <= j <= h'[p'].n ==> h'[p'].C[j] == h[y].C[j + off]
    requires forall j :: off <= j <= off + h'[p'].n ==> fp[h[y].C[j]] <= fp'[p'] && p' !in fp[h[y].C[j]]
    ensures var m := h'[p'].n; forall j :: 0 <= j <= m ==>
      Stands(h', fp', h'[p'].C[j], e - 1, Y.children[off..off + m + 1][j]) && Under(fp', h'[p'].C[j], p')
  {
    var m := h'[p'].n;
    forall j | 0 <= j <= m
      ensures Stands(h', fp', h'[p'].C[j], e - 1, Y.children[off..off + m + 1][j]) && Under(fp', h'[p'].C[j], p')
    {
      SliceChild(h, fp, h', fp', y, e, Y, M, j + off);
    }
  }

  lemma SliceApart(h: Heap, fp: seq<set<Ptr>>, h': Heap, fp': seq<set<Ptr>>, y: Ptr, e: nat, Y: Tree, M: set<Ptr>, p': Ptr, off: nat)
    requires Stands(h, fp, y, e, Y) && e > 0 && Same(h, fp, h', fp', M) && (fp[y] - {y}) !! M
    requires 0 <= p' < |h'| && Fits(h'[p']) && off + h'[p'].n <= h[y].n
    requires forall j :: 0 <= j <= h'[p'].n ==> h'[p'].C[j] == h[y].C[j + off]
    ensures forall i, j :: 0 <= i < j <= h'[p'].n ==> Apart(fp', h'[p'].C[i], h'[p'].C[j])
  {
    forall i, j | 0 <= i < j <= h'[p'].n ensures Apart(fp', h'[p'].C[i], h'[p'].C[j]) {
      SliceChild(h, fp, h', fp', y, e, Y, M, i + off);
      SliceChild(h, fp, h', fp', y, e, Y, M, j + off);
    }
  }

  /** Child j of y, under a change that avoids y's footprint below y. */
  lemma SliceChild(h: Heap, fp: seq<set<Ptr>>, h': Heap, fp': seq<set<Ptr>>, y: Ptr, e: nat, Y: Tree, M: set<Ptr>, j: int)
    requires Stands(h, fp, y, e, Y) && e > 0 && Same(h, fp, h', fp', M) && (fp[y] - {y}) !! M && 0 <= j <= h[y].n
    ensures var g := h[y].C[j];
      && Stands(h', fp', g, e - 1, Y.children[j]) && fp'[g] == fp[g] && Under(fp, g, y)
      && forall i :: 0 <= i <= h[y].n && i != j ==> Apart(fp, h[y].C[i], g)
  {
    ChildStands(h, fp, y, e, Y, j);
    Untouched(h, fp, h', fp', h[y].C[j], e - 1, Y.children[j], M);
  }

  /** The children of x after its children a..b-1 were replaced by ts. */
  function Spliced<A>(s: seq<A>, a: int, b: int, ts: seq<A>): (r: seq<A>)
    requires 0 <= a <= b <= |s|
    ensures |r| == |s| - (b - a) + |ts|
    ensures forall j :: 0 <= j < |r| ==>
      r[j] == if j < a then s[j] else if j < a + |ts| then ts[j - a] else s[j - (a + |ts| - b)]
  {
    s[..a] + ts + s[b..]
  }

  /** The footprints of the children of x outside a..b-1 avoid S. */
  predicate Avoids(h: Heap, fp: seq<set<Ptr>>, x: Ptr, a: int, b: int, S: set<Ptr>)
    requires 0 <= x < |h| && Fits(h[x])
  {
    forall j :: 0 <= j <= h[x].n && !(a <= j < b) ==> 0 <= h[x].C[j] < |fp| && fp[h[x].C[j]] !! S
  }

  /** Every pointer of S is in O or was appended after the first n records. */
  predicate Inside(S: set<Ptr>, O: set<Ptr>, n: int)
  {
    forall q :: q in S ==> q in O || q >= n
  }

  lemma InsideGrown(O: set<Ptr>, S: set<Ptr>, n: int)
    requires S == O || S == O + {n}
    ensures Inside(S, O, n)
  {
  }

  /** A set made of x, fresh records and the footprints of children a..b-1
      of x avoids the other children's footprints. */
  lemma AvoidsRun(h: Heap, fp: seq<set<Ptr>>, x: Ptr, d: nat, X: Tree, a: int, b: int, S: set<Ptr>)
    requires Stands(h, fp, x, d, X) && d > 0 && 0 <= a <= b <= h[x].n + 1
    requires Inside(S, {x} + Below(fp, h[x].C[a..b]), |h|)
    ensures Avoids(h, fp, x, a, b, S)
  {
    forall j | 0 <= j <= h[x].n && !(a <= j < b)
      ensures 0 <= h[x].C[j] < |fp| && fp[h[x].C[j]] !! S
    {
      AvoidOne(h, fp, x, d, X, a, b, j);
      var c := h[x].C[j];
      forall q | q in fp[c] ensures q !in S {
        assert q !in {x} + Below(fp, h[x].C[a..b]) && q < |h|;
      }
    }
  }

  lemma AvoidOne(h: Heap, fp: seq<set<Ptr>>, x: Ptr, d: nat, X: Tree, a: int, b: int, j: int)
    requires Stands(h, fp, x, d, X) && d > 0 && 0 <= a <= b <= h[x].n + 1
    requires 0 <= j <= h[x].n && !(a <= j < b)
    ensures var c := h[x].C[j];
      0 <= c < |fp| && fp[c] !! {x} + Below(fp, h[x].C[a..b]) && Within(fp[c], |h|)
  {
    var c, cs := h[x].C[j], h[x].C[a..b];
    ChildStands(h, fp, x, d, X, j);
    forall k | 0 <= k < |cs| && 0 <= cs[k] < |fp| ensures fp[cs[k]] !! fp[c] {
      assert cs[k] == h[x].C[a + k];
    }
    BelowDisjoint(fp, cs, fp[c]);
    ChildTidy(h, fp, x, d, j);
  }

  /** The rewrite of an internal node x that replaces its children a..b-1 by
      the pointers ps, standing for ts. The change M avoids the footprints of
      the children that stay, the new children are apart from those and from
      each other, and x keeps its own footprint. */
  lemma Splice(h: Heap, fp: seq<set<Ptr>>, h': Heap, fp': seq<set<Ptr>>, x: Ptr, d: nat, X: Tree,
               a: int, b: int, ps: seq<Ptr>, ts: seq<Tree>, M: set<Ptr>)
    requires Stands(h, fp, x, d, X) && d > 0 && 0 <= a <= b <= h[x].n + 1
    requires Same(h, fp, h', fp', M)
    requires Avoids(h, fp, x, a, b, M)
    requires 0 <= x < |h'| && Fits(h'[x]) && !h'[x].leaf
    requires h'[x].n + 1 == a + |ps| + (h[x].n + 1 - b) && |ts| == |ps|
    requires forall j :: 0 <= j <= h'[x].n ==> h'[x].C[j] == Spliced(h[x].C[..h[x].n + 1], a, b, ps)[j]
    requires forall k :: 0 <= k < |ps| ==> Stands(h', fp', ps[k], d - 1, ts[k]) && Under(fp', ps[k], x)
    requires forall k :: 0 <= k < |ps| ==> 0 <= ps[k] < |fp'| && Avoids(h, fp, x, a, b, fp'[ps[k]])
    requires forall k, l :: 0 <= k < l < |ps| ==> Apart(fp', ps[k], ps[l])
    requires fp[x] <= fp'[x] && Within(fp'[x], |h'|)
    ensures Stands(h', fp', x, d, Node(h'[x].keys[..h'[x].n], Spliced(X.children, a, b, ts)))
  {
    var kids := Spliced(X.children, a, b, ts);
    var cs := Spliced(h[x].C[..h[x].n + 1], a, b, ps);
    forall j | 0 <= j <= h'[x].n
      ensures Stands(h', fp', h'[x].C[j], d - 1, kids[j]) && Under(fp', h'[x].C[j], x)
    {
      SpliceKid(h, fp, h', fp', x, d, X, a, b, ps, ts, M, j);
    }
    SpliceApart(h, fp, h', fp', x, d, X, a, b, ps, M);
    Build(h', fp', x, d, kids);
  }

  /** Child j after the splice: a kept child of x or one of ps. */
  lemma SpliceKid(h: Heap, fp: seq<set<Ptr>>, h': Heap, fp': seq<set<Ptr>>, x: Ptr, d: nat, X: Tree,
                  a: int, b: int, ps: seq<Ptr>, ts: seq<Tree>, M: set<Ptr>, j: int)
    requires Stands(h, fp, x, d, X) && d > 0 && 0 <= a <= b <= h[x].n + 1
    requires Same(h, fp, h', fp', M)
    requires Avoids(h, fp, x, a, b, M)
    requires 0 <= x < |h'| && Fits(h'[x])
    requires h'[x].n + 1 == a + |ps| + (h[x].n + 1 - b) && |ts| == |ps|
    requires forall j :: 0 <= j <= h'[x].n ==> h'[x].C[j] == Spliced(h[x].C[..h[x].n + 1], a, b, ps)[j]
    requires forall k :: 0 <= k < |ps| ==> Stands(h', fp', ps[k], d - 1, ts[k]) && Under(fp', ps[k], x)
    requires fp[x] <= fp'[x]
    requires 0 <= j <= h'[x].n
    ensures Stands(h', fp', h'[x].C[j], d - 1, Spliced(X.children, a, b, ts)[j]) && Under(fp', h'[x].C[j], x)
  {
    SplicedAt(h'[x].C, h'[x].n, h[x].C[..h[x].n + 1], a, b, ps, j);
    if j < a {
      Kept(h, fp, h', fp', x, d, X, M, j);
    } else if j >= a + |ps| {
      Kept(h, fp, h', fp', x, d, X, M, j - (a + |ps| - b));
    } else {
      assert Stands(h', fp', ps[j - a], d - 1, ts[j - a]) && Under(fp', ps[j - a], x);
    }
  }

  /** The step back up from the recursive call on child j: that call
      changed the child's subtree inside its own footprint and fresh records,
      and x's footprint takes in the child's new one. Then x stands for X
      with child j replaced. */
  lemma Descent(h: Heap, fp: seq<set<Ptr>>, h': Heap, fp': seq<set<Ptr>>, x: Ptr, d: nat, X: Tree, j: int, C': Tree)
    requires Stands(h, fp, x, d, X) && d > 0 && 0 <= j <= h[x].n
    requires Same(h, fp, h', fp', fp[h[x].C[j]])
    requires Stands(h', fp', h[x].C[j], d - 1, C') && Inside(fp'[h[x].C[j]], fp[h[x].C[j]], |h|)
    ensures var c := h[x].C[j]; var fp2 := fp'[x := fp'[x] + fp'[c]];
      && Stands(h', fp2, x, d, Node(X.keys, X.children[j := C']))
      && Same(h, fp, h', fp2, fp[x]) && fp2[x] == fp[x] + fp'[c]
  {
    var c := h[x].C[j];
    var fp2 := fp'[x := fp'[x] + fp'[c]];
    var M := {x} + fp[c];
    ChildStands(h, fp, x, d, X, j);
    assert h'[x] == h[x] && fp'[x] == fp[x];
    Untouched(h', fp', h', fp2, c, d - 1, C', {x});
    var cs := h[x].C[j..j + 1];
    assert cs[0] == c;
    InBelow(fp, cs, 0);
    AvoidsRun(h, fp, x, d, X, j, j + 1, M);
    AvoidsRun(h, fp, x, d, X, j, j + 1, fp2[c]);
    DescentSplice(h, fp, h', fp2, x, d, X, j, C', M);
  }

  lemma DescentSplice(h: Heap, fp: seq<set<Ptr>>, h': Heap, fp': seq<set<Ptr>>, x: Ptr, d: nat, X: Tree, j: int, C': Tree, M: set<Ptr>)
    requires Stands(h, fp, x, d, X) && d > 0 && 0 <= j <= h[x].n
    requires Same(h, fp, h', fp', M) && Avoids(h, fp, x, j, j + 1, M)
    requires 0 <= x < |h'| && h'[x] == h[x] && fp[x] <= fp'[x] && Within(fp'[x], |h'|)
    requires Stands(h', fp', h[x].C[j], d - 1, C') && Under(fp', h[x].C[j], x)
    requires Avoids(h, fp, x, j, j + 1, fp'[h[x].C[j]])
    ensures Stands(h', fp', x, d, Node(X.keys, X.children[j := C']))
  {
    var ps := [h[x].C[j]];
    assert |ps| == 1;
    assert Fits(h[x]) && !h[x].leaf;
    Splice(h, fp, h', fp', x, d, X, j, j + 1, ps, [C'], M);
    assert Spliced(X.children, j, j + 1, [C']) == X.children[j := C'];
  }

  /** Child j of x, whose footprint the change avoids, is unchanged and
      still under x. */
  lemma Kept(h: Heap, fp: seq<set<Ptr>>, h': Heap, fp': seq<set<Ptr>>, x: Ptr, d: nat, X: Tree, M: set<Ptr>, j: int)
    requires Stands(h, fp, x, d, X) && d > 0 && 0 <= j <= h[x].n
    requires Same(h, fp, h', fp', M) && fp[h[x].C[j]] !! M && fp[x] <= fp'[x] && x < |fp'|
    ensures var c := h[x].C[j];
      Stands(h', fp', c, d - 1, X.children[j]) && fp'[c] == fp[c] && Under(fp', c, x)
  {
    ChildStands(h, fp, x, d, X, j);
    Untouched(h, fp, h', fp', h[x].C[j], d - 1, X.children[j], M);
  }

  /** The children of the rewritten x are pairwise apart. */
  lemma SpliceApart(h: Heap, fp: seq<set<Ptr>>, h': Heap, fp': seq<set<Ptr>>, x: Ptr, d: nat, X: Tree,
                    a: int, b: int, ps: seq<Ptr>, M: set<Ptr>)
    requires Stands(h, fp, x, d, X) && d > 0 && 0 <= a <= b <= h[x].n + 1
    requires Same(h, fp, h', fp', M)
    requires Avoids(h, fp, x, a, b, M)
    requires 0 <= x < |h'| && Fits(h'[x])
    requires h'[x].n + 1 == a + |ps| + (h[x].n + 1 - b)
    requires forall j :: 0 <= j <= h'[x].n ==> h'[x].C[j] == Spliced(h[x].C[..h[x].n + 1], a, b, ps)[j]
    requires forall k :: 0 <= k < |ps| ==> 0 <= ps[k] < |fp'| && Avoids(h, fp, x, a, b, fp'[ps[k]])
    requires forall k, l :: 0 <= k < l < |ps| ==> Apart(fp', ps[k], ps[l])
    ensures forall i, j :: 0 <= i < j <= h'[x].n ==> Apart(fp', h'[x].C[i], h'[x].C[j])
  {
    forall i, j | 0 <= i < j <= h'[x].n ensures Apart(fp', h'[x].C[i], h'[x].C[j]) {
      SplicePair(h, fp, h', fp', x, d, X, a, b, ps, M, i, j);
    }
  }

  lemma SplicePair(h: Heap, fp: seq<set<Ptr>>, h': Heap, fp': seq<set<Ptr>>, x: Ptr, d: nat, X: Tree,
                   a: int, b: int, ps: seq<Ptr>, M: set<Ptr>, i: int, j: int)
    requires Stands(h, fp, x, d, X) && d > 0 && 0 <= a <= b <= h[x].n + 1
    requires Same(h, fp, h', fp', M)
    requires Avoids(h, fp, x, a, b, M)
    requires 0 <= x < |h'| && Fits(h'[x])
    requires h'[x].n + 1 == a + |ps| + (h[x].n + 1 - b)
    requires forall j :: 0 <= j <= h'[x].n ==> h'[x].C[j] == Spliced(h[x].C[..h[x].n + 1], a, b, ps)[j]
    requires forall k :: 0 <= k < |ps| ==> 0 <= ps[k] < |fp'| && Avoids(h, fp, x, a, b, fp'[ps[k]])
    requires forall k, l :: 0 <= k < l < |ps| ==> Apart(fp', ps[k], ps[l])
    requires 0 <= i < j <= h'[x].n
    ensures Apart(fp', h'[x].C[i], h'[x].C[j])
  {
    var s := h[x].C[..h[x].n + 1];
    var sh := a + |ps| - b;
    var oi, oj := if i < a then i else i - sh, if j < a then j else j - sh;
    SplicedAt(h'[x].C, h'[x].n, s, a, b, ps, i);
    SplicedAt(h'[x].C, h'[x].n, s, a, b, ps, j);
    if !(a <= i < a + |ps|) && !(a <= j < a + |ps|) {
      KeptApart(h, fp, h', fp', x, d, X, M, oi, oj);
    } else if !(a <= i < a + |ps|) {
      KeptAvoids(h, fp, h', fp', x, d, X, a, b, M, oi, ps[j - a]);
    } else if !(a <= j < a + |ps|) {
      KeptAvoids(h, fp, h', fp', x, d, X, a, b, M, oj, ps[i - a]);
    }
  }

  /** A kept child and a new one whose footprint avoids the kept children. */
  lemma KeptAvoids(h: Heap, fp: seq<set<Ptr>>, h': Heap, fp': seq<set<Ptr>>, x: Ptr, d: nat, X: Tree,
                   a: int, b: int, M: set<Ptr>, o: int, p: Ptr)
    requires Stands(h, fp, x, d, X) && d > 0 && 0 <= a <= b <= h[x].n + 1 && 0 <= o <= h[x].n && !(a <= o < b)
    requires Same(h, fp, h', fp', M) && Avoids(h, fp, x, a, b, M)
    requires 0 <= p < |fp'| && Avoids(h, fp, x, a, b, fp'[p])
    ensures Apart(fp', h[x].C[o], p) && Apart(fp', p, h[x].C[o])
  {
    KeptOne(h, fp, h', fp', x, d, X, M, o);
  }

  /** Entry i of a run of child slots that agrees with Spliced(s, a, b, ps). */
  lemma SplicedAt(cx: seq<Ptr>, m: int, s: seq<Ptr>, a: int, b: int, ps: seq<Ptr>, i: int)
    requires 0 <= a <= b <= |s| && m + 1 == a + |ps| + (|s| - b) && m < |cx|
    requires forall j :: 0 <= j <= m ==> cx[j] == Spliced(s, a, b, ps)[j]
    requires 0 <= i <= m
    ensures cx[i] == if i < a then s[i] else if i < a + |ps| then ps[i - a] else s[i - (a + |ps| - b)]
  {
  }

  lemma KeptOne(h: Heap, fp: seq<set<Ptr>>, h': Heap, fp': seq<set<Ptr>>, x: Ptr, d: nat, X: Tree, M: set<Ptr>, i: int)
    requires Stands(h, fp, x, d, X) && d > 0 && 0 <= i <= h[x].n
    requires Same(h, fp, h', fp', M) && fp[h[x].C[i]] !! M
    ensures 0 <= h[x].C[i] < |fp'| && fp'[h[x].C[i]] == fp[h[x].C[i]]
  {
    ChildStands(h, fp, x, d, X, i);
    Untouched(h, fp, h', fp', h[x].C[i], d - 1, X.children[i], M);
  }

  lemma KeptApart(h: Heap, fp: seq<set<Ptr>>, h': Heap, fp': seq<set<Ptr>>, x: Ptr, d: nat, X: Tree, M: set<Ptr>, i: int, j: int)
    requires Stands(h, fp, x, d, X) && d > 0 && 0 <= i <= h[x].n && 0 <= j <= h[x].n && i != j
    requires Same(h, fp, h', fp', M) && fp[h[x].C[i]] !! M && fp[h[x].C[j]] !! M
    ensures Apart(fp', h[x].C[i], h[x].C[j])
  {
    ChildStands(h, fp, x, d, X, j);
    KeptOne(h, fp, h', fp', x, d, X, M, i);
    KeptOne(h, fp, h', fp', x, d, X, M, j);
  }

  // ---------------------------------------------------------------------
  // Fresh nodes
  // ---------------------------------------------------------------------

  /** The record createNode(leaf) (btree.c:16-24) returns: no keys, every
      child slot NULL. The key slots are left uninitialised by the C code
      and are 0 here. */
  function NewRec(leaf: bool): (r: Rec)
    ensures Fits(r) && r.n == 0 && r.leaf == leaf && NoKids(r)
  {
    Rec(seq(2 * T - 1, _ => 0), seq(2 * T, _ => NULL), 0, leaf)
  }

  /** The union of the footprints of the pointers in cs that are records. */
  ghost function Below(fp: seq<set<Ptr>>, cs: seq<Ptr>): set<Ptr>
  {
    set j, q | 0 <= j < |cs| && 0 <= cs[j] < |fp| && q in fp[cs[j]] :: q
  }

  lemma InBelow(fp: seq<set<Ptr>>, cs: seq<Ptr>, j: int)
    requires 0 <= j < |cs| && 0 <= cs[j] < |fp|
    ensures fp[cs[j]] <= Below(fp, cs)
  {
    forall q | q in fp[cs[j]] ensures q in Below(fp, cs) {
    }
  }

  /** Below(fp, cs) holds only pointers of footprints inside S. */
  lemma BelowInside(fp: seq<set<Ptr>>, cs: seq<Ptr>, S: set<Ptr>)
    requires forall j :: 0 <= j < |cs| && 0 <= cs[j] < |fp| ==> fp[cs[j]] <= S
    ensures Below(fp, cs) <= S
  {
  }

  /** Below(fp, cs) avoids S when each footprint does. */
  lemma BelowDisjoint(fp: seq<set<Ptr>>, cs: seq<Ptr>, S: set<Ptr>)
    requires forall j :: 0 <= j < |cs| && 0 <= cs[j] < |fp| ==> fp[cs[j]] !! S
    ensures Below(fp, cs) !! S
  {
  }
}
