// The B-tree of btree.c as a value: a node is its live keys keys[0..n) and,
// for an internal node, its n+1 children. This is the abstraction the pointer
// structure of btree_heap.dfy is proved to refine; the operations below are
// the C functions rewritten over values, branch for branch.
module BTreeModel {
  import opened SortedSeqs

  /** Minimum degree (btree.c:5). A node holds at most 2T-1 keys. */
  const T: nat := 2

  /** A leaf has no children; an internal node has one more child than keys. */
  datatype Tree = Node(keys: seq<int>, children: seq<Tree>)

  // ---------------------------------------------------------------------
  // In-order key sequence
  // ---------------------------------------------------------------------

  /** fs[0] + [ks[0]] + fs[1] + [ks[1]] + ... + fs[|ks|]: the in-order walk of
      a node whose children walk to fs. */
  function Weave(fs: seq<seq<int>>, ks: seq<int>): seq<int>
    requires |fs| == |ks| + 1
  {
    if |ks| == 0 then fs[0] else fs[0] + [ks[0]] + Weave(fs[1..], ks[1..])
  }

  /** fs[0] + [ks[0]] + ... + fs[m-1] + [ks[m-1]]: the walk left of a child. */
  function Pairs(fs: seq<seq<int>>, ks: seq<int>): seq<int>
    requires |fs| == |ks|
  {
    if |ks| == 0 then [] else fs[0] + [ks[0]] + Pairs(fs[1..], ks[1..])
  }

  /** [ks[0]] + fs[0] + ... + [ks[m-1]] + fs[m-1]: the walk right of a child. */
  function Tails(ks: seq<int>, fs: seq<seq<int>>): seq<int>
    requires |fs| == |ks|
  {
    if |ks| == 0 then [] else [ks[0]] + fs[0] + Tails(ks[1..], fs[1..])
  }

  /** The keys of t in the order the in-order walk (printTree) visits them. */
  function Flat(t: Tree): seq<int>
  {
    if |t.children| == 0 then t.keys
    else if |t.children| == |t.keys| + 1 then
      Weave(seq(|t.children|, j requires 0 <= j < |t.children| => Flat(t.children[j])), t.keys)
    else []
  }

  function FlatsOf(cs: seq<Tree>): (fs: seq<seq<int>>)
    ensures |fs| == |cs|
    ensures forall j :: 0 <= j < |cs| ==> fs[j] == Flat(cs[j])
  {
    seq(|cs|, j requires 0 <= j < |cs| => Flat(cs[j]))
  }

  /** One more child than keys, or no children at all. */
  predicate NodeShaped(t: Tree)
  {
    t.children == [] || |t.children| == |t.keys| + 1
  }

  lemma FlatNode(t: Tree)
    requires |t.children| == |t.keys| + 1
    ensures Flat(t) == Weave(FlatsOf(t.children), t.keys)
  {
    assert seq(|t.children|, j requires 0 <= j < |t.children| => Flat(t.children[j])) == FlatsOf(t.children);
  }

  lemma FlatsOfAppend(a: seq<Tree>, b: seq<Tree>)
    ensures FlatsOf(a + b) == FlatsOf(a) + FlatsOf(b)
  {
  }

  lemma FlatsOfSlice(cs: seq<Tree>, i: int, j: int)
    requires 0 <= i <= j <= |cs|
    ensures FlatsOf(cs[i..j]) == FlatsOf(cs)[i..j]
  {
  }

  lemma FlatsOfSplit(cs: seq<Tree>, j: int)
    requires 0 <= j < |cs|
    ensures FlatsOf(cs) == FlatsOf(cs[..j]) + [Flat(cs[j])] + FlatsOf(cs[j + 1..])
  {
    var l, r := FlatsOf(cs[..j]), FlatsOf(cs[j + 1..]);
    var f, g := FlatsOf(cs), l + [Flat(cs[j])] + r;
    assert |f| == |g|;
    forall i | 0 <= i < |f| ensures f[i] == g[i] {
      if i < j {
        assert g[i] == l[i] == Flat(cs[..j][i]);
      } else if i > j {
        assert g[i] == r[i - j - 1] == Flat(cs[j + 1..][i - j - 1]);
      }
    }
  }

  lemma {:induction false} WeaveTails(x: seq<int>, b: seq<seq<int>>, kb: seq<int>)
    requires |b| == |kb|
    ensures Weave([x] + b, kb) == x + Tails(kb, b)
    decreases |b|
  {
    if |kb| > 0 {
      assert ([x] + b)[1..] == b == [b[0]] + b[1..];
      WeaveTails(b[0], b[1..], kb[1..]);
    }
  }

  /** The walk of a node split into the part left of one child, that child's
      walk, and the part right of it. */
  lemma {:induction false} DecomposeOne(a: seq<seq<int>>, x: seq<int>, b: seq<seq<int>>,
                                        ka: seq<int>, kb: seq<int>)
    requires |a| == |ka| && |b| == |kb|
    ensures Weave(a + [x] + b, ka + kb) == Pairs(a, ka) + x + Tails(kb, b)
    decreases |a|
  {
    if |a| == 0 {
      assert a + [x] + b == [x] + b && ka + kb == kb;
      WeaveTails(x, b, kb);
    } else {
      var f, k := a + [x] + b, ka + kb;
      assert f[0] == a[0] && f[1..] == a[1..] + [x] + b;
      assert k[0] == ka[0] && k[1..] == ka[1..] + kb;
      DecomposeOne(a[1..], x, b, ka[1..], kb);
    }
  }

  /** The walk of a node cut at its j-th key. */
  lemma {:induction false} Cut(f: seq<seq<int>>, k: seq<int>, j: int)
    requires |f| == |k| + 1 && 0 <= j < |k|
    ensures Weave(f, k) == Weave(f[..j + 1], k[..j]) + [k[j]] + Weave(f[j + 1..], k[j + 1..])
    decreases j
  {
    if j > 0 {
      Cut(f[1..], k[1..], j - 1);
      assert f[1..][..j] == f[1..j + 1] && f[1..][j..] == f[j + 1..];
      assert k[1..][..j - 1] == k[1..j] && k[1..][j..] == k[j + 1..];
      assert f[..j + 1][1..] == f[1..j + 1] && k[..j][1..] == k[1..j];
    }
  }

  lemma {:induction false} PairsLast(a: seq<seq<int>>, ka: seq<int>)
    requires |a| == |ka| > 0
    ensures Pairs(a, ka) == Pairs(a[..|a| - 1], ka[..|ka| - 1]) + a[|a| - 1] + [ka[|ka| - 1]]
    decreases |a|
  {
    if |a| > 1 {
      PairsLast(a[1..], ka[1..]);
      assert a[1..][..|a| - 2] == a[..|a| - 1][1..];
      assert ka[1..][..|ka| - 2] == ka[..|ka| - 1][1..];
    }
  }

  // ---------------------------------------------------------------------
  // A child in context
  // ---------------------------------------------------------------------

  /** The walk of an internal node left of its j-th child. */
  function Pre(t: Tree, j: int): seq<int>
    requires |t.children| == |t.keys| + 1 && 0 <= j <= |t.keys|
  {
    Pairs(FlatsOf(t.children[..j]), t.keys[..j])
  }

  /** The walk of an internal node right of its j-th child. */
  function Post(t: Tree, j: int): seq<int>
    requires |t.children| == |t.keys| + 1 && 0 <= j <= |t.keys|
  {
    Tails(t.keys[j..], FlatsOf(t.children[j + 1..]))
  }

  lemma Focus(t: Tree, j: int)
    requires |t.children| == |t.keys| + 1 && 0 <= j <= |t.keys|
    ensures Flat(t) == Pre(t, j) + Flat(t.children[j]) + Post(t, j)
  {
    FlatNode(t);
    FlatsOfSplit(t.children, j);
    assert t.keys == t.keys[..j] + t.keys[j..];
    DecomposeOne(FlatsOf(t.children[..j]), Flat(t.children[j]), FlatsOf(t.children[j + 1..]),
                 t.keys[..j], t.keys[j..]);
  }

  lemma PostStep(t: Tree, j: int)
    requires |t.children| == |t.keys| + 1 && 0 <= j < |t.keys|
    ensures Post(t, j) == [t.keys[j]] + Flat(t.children[j + 1]) + Post(t, j + 1)
  {
    var fs := FlatsOf(t.children[j + 1..]);
    assert t.keys[j..][1..] == t.keys[j + 1..];
    assert t.children[j + 1..][1..] == t.children[j + 2..];
    assert fs[1..] == FlatsOf(t.children[j + 2..]);
    assert fs[0] == Flat(t.children[j + 1]);
  }

  /** Two neighbouring children and the key that separates them. */
  lemma Focus2(t: Tree, j: int)
    requires |t.children| == |t.keys| + 1 && 0 <= j < |t.keys|
    ensures Flat(t) == Pre(t, j) + Flat(t.children[j]) + [t.keys[j]] + Flat(t.children[j + 1]) + Post(t, j + 1)
  {
    Focus(t, j);
    PostStep(t, j);
    Unwrap(Pre(t, j), Flat(t.children[j]), [t.keys[j]], Flat(t.children[j + 1]), Post(t, j + 1));
  }

  lemma Unwrap(a: seq<int>, b: seq<int>, m: seq<int>, c: seq<int>, e: seq<int>)
    ensures a + b + (m + c + e) == a + b + m + c + e
  {
  }

  lemma PreStep(t: Tree, j: int)
    requires |t.children| == |t.keys| + 1 && 0 < j <= |t.keys|
    ensures Pre(t, j) == Pre(t, j - 1) + Flat(t.children[j - 1]) + [t.keys[j - 1]]
  {
    var fs := FlatsOf(t.children[..j]);
    PairsLast(fs, t.keys[..j]);
    assert t.children[..j][..j - 1] == t.children[..j - 1];
    assert t.keys[..j][..j - 1] == t.keys[..j - 1];
    assert fs[..j - 1] == FlatsOf(t.children[..j - 1]);
    assert fs[j - 1] == Flat(t.children[j - 1]);
  }

  /** Two nodes of the same kind glued together around a separator: the merge
      of btree.c:169-197 and the halves of a split or a borrow. */
  function Join(a: Tree, m: int, b: Tree): Tree
  {
    Node(a.keys + [m] + b.keys, a.children + b.children)
  }

  /** The keys before keys[j] and the children left of it. */
  function Left(t: Tree, j: int): Tree
    requires NodeShaped(t) && 0 <= j < |t.keys|
  {
    Node(t.keys[..j], if t.children == [] then [] else t.children[..j + 1])
  }

  /** The keys after keys[j] and the children right of it. */
  function Right(t: Tree, j: int): Tree
    requires NodeShaped(t) && 0 <= j < |t.keys|
  {
    Node(t.keys[j + 1..], if t.children == [] then [] else t.children[j + 1..])
  }

  predicate SameKind(a: Tree, b: Tree)
  {
    (a.children == [] && b.children == [])
    || (|a.children| == |a.keys| + 1 && |b.children| == |b.keys| + 1)
  }

  lemma JoinFlat(a: Tree, m: int, b: Tree)
    requires SameKind(a, b)
    ensures Flat(Join(a, m, b)) == Flat(a) + [m] + Flat(b)
  {
    var j := Join(a, m, b);
    if a.children != [] {
      FlatNode(a);
      FlatNode(b);
      FlatNode(j);
      FlatsOfAppend(a.children, b.children);
      var f := FlatsOf(a.children) + FlatsOf(b.children);
      Cut(f, j.keys, |a.keys|);
      assert f[..|a.keys| + 1] == FlatsOf(a.children);
      assert f[|a.keys| + 1..] == FlatsOf(b.children);
      assert j.keys[..|a.keys|] == a.keys && j.keys[|a.keys|] == m && j.keys[|a.keys| + 1..] == b.keys;
    }
  }

  lemma LeftRight(t: Tree, j: int)
    requires NodeShaped(t) && 0 <= j < |t.keys|
    ensures SameKind(Left(t, j), Right(t, j))
    ensures Join(Left(t, j), t.keys[j], Right(t, j)) == t
    ensures Flat(t) == Flat(Left(t, j)) + [t.keys[j]] + Flat(Right(t, j))
  {
    assert t.keys == t.keys[..j] + [t.keys[j]] + t.keys[j + 1..];
    if t.children != [] {
      assert t.children == t.children[..j + 1] + t.children[j + 1..];
    }
    JoinFlat(Left(t, j), t.keys[j], Right(t, j));
  }

  // ---------------------------------------------------------------------
  // Order
  // ---------------------------------------------------------------------

  lemma SortedParts(a: seq<int>, b: seq<int>)
    requires Sorted(a + b)
    ensures Sorted(a) && Sorted(b)
    ensures forall x, y :: x in a && y in b ==> x <= y
  {
    forall x, y | x in a && y in b ensures x <= y {
      var i :| 0 <= i < |a| && a[i] == x;
      var j :| 0 <= j < |b| && b[j] == y;
      assert (a + b)[i] == x && (a + b)[|a| + j] == y;
    }
    assert forall i :: 0 <= i < |a| ==> (a + b)[i] == a[i];
    assert forall j :: 0 <= j < |b| ==> (a + b)[|a| + j] == b[j];
  }

  /** In a sorted walk, everything left of child j is at most keys[j-1],
      everything right of it at least keys[j], and the child lies between. */
  lemma Between(t: Tree, j: int)
    requires |t.children| == |t.keys| + 1 && 0 <= j <= |t.keys|
    requires Sorted(Flat(t))
    ensures Sorted(Flat(t.children[j]))
    ensures j > 0 ==> forall x :: x in Pre(t, j) ==> x <= t.keys[j - 1]
    ensures j > 0 ==> forall x :: x in Flat(t.children[j]) ==> t.keys[j - 1] <= x
    ensures j < |t.keys| ==> forall x :: x in Post(t, j) ==> t.keys[j] <= x
    ensures j < |t.keys| ==> forall x :: x in Flat(t.children[j]) ==> x <= t.keys[j]
  {
    var p, c, q := Pre(t, j), Flat(t.children[j]), Post(t, j);
    Focus(t, j);
    SortedThree(p, c, q);
    if j > 0 {
      var m := t.keys[j - 1];
      PreStep(t, j);
      LastIsMax(Pre(t, j - 1) + Flat(t.children[j - 1]), m);
      assert m in p;
    }
    if j < |t.keys| {
      var m := t.keys[j];
      PostStep(t, j);
      assert q == [m] + (Flat(t.children[j + 1]) + Post(t, j + 1));
      FirstIsMin(m, Flat(t.children[j + 1]) + Post(t, j + 1));
      assert m in q;
    }
  }

  /** The middle of a sorted concatenation is sorted and lies between the outer parts. */
  lemma SortedThree(p: seq<int>, c: seq<int>, q: seq<int>)
    requires Sorted(p + c + q)
    ensures Sorted(p) && Sorted(c) && Sorted(q)
    ensures forall x, y :: x in p && y in c ==> x <= y
    ensures forall x, y :: x in c && y in q ==> x <= y
  {
    assert p + c + q == p + (c + q);
    SortedParts(p, c + q);
    SortedParts(c, q);
    forall x, y | x in p && y in c ensures x <= y {
      assert y in c + q;
    }
  }

  lemma LastIsMax(a: seq<int>, m: int)
    requires Sorted(a + [m])
    ensures forall x :: x in a + [m] ==> x <= m
  {
    forall x | x in a + [m] ensures x <= m {
      var i :| 0 <= i < |a| + 1 && (a + [m])[i] == x;
      assert (a + [m])[|a|] == m;
    }
  }

  lemma FirstIsMin(m: int, a: seq<int>)
    requires Sorted([m] + a)
    ensures forall x :: x in [m] + a ==> m <= x
  {
    forall x | x in [m] + a ensures m <= x {
      var i :| 0 <= i < |a| + 1 && ([m] + a)[i] == x;
      assert ([m] + a)[0] == m;
    }
  }

  lemma ChildSorted(t: Tree, j: int)
    requires |t.children| == |t.keys| + 1 && 0 <= j <= |t.keys|
    requires Sorted(Flat(t))
    ensures Sorted(Flat(t.children[j]))
  {
    Focus(t, j);
    var p, c, q := Pre(t, j), Flat(t.children[j]), Post(t, j);
    assert p + c + q == p + (c + q);
    SortedParts(p, c + q);
    SortedParts(c, q);
  }

  lemma KeyInFlat(t: Tree, j: int)
    requires NodeShaped(t) && 0 <= j < |t.keys|
    ensures t.keys[j] in Flat(t)
  {
    LeftRight(t, j);
  }

  /** In a sorted walk, keys[j+1] lies right of child j. */
  lemma NextKeyInPost(t: Tree, j: int)
    requires |t.children| == |t.keys| + 1 && 0 <= j && j + 1 < |t.keys|
    ensures t.keys[j + 1] in Post(t, j)
  {
    PostStep(t, j);
    PostStep(t, j + 1);
  }

  // ---------------------------------------------------------------------
  // Shape
  // ---------------------------------------------------------------------

  /** Height d, at most 2T-1 keys in every node, every non-root node at least
      T-1, all leaves at depth d. The root's own lower bound is in RootOk. */
  predicate WellShaped(t: Tree, d: nat)
    decreases d
  {
    && |t.keys| <= 2 * T - 1
    && (d == 0 ==> t.children == [])
    && (d > 0 ==>
          && |t.children| == |t.keys| + 1
          && forall j :: 0 <= j < |t.children| ==>
               T - 1 <= |t.children[j].keys| && WellShaped(t.children[j], d - 1))
  }

  /** Child j of a shaped internal node is shaped one level lower, and is a
      leaf exactly when that level is 0. */
  lemma ChildOf(t: Tree, d: nat, j: int)
    requires WellShaped(t, d) && d > 0 && 0 <= j < |t.children|
    ensures WellShaped(t.children[j], d - 1) && T - 1 <= |t.children[j].keys|
    ensures NodeShaped(t.children[j]) && (t.children[j].children == [] <==> d == 1)
  {
  }

  /** The invariant of a whole tree: shaped, its walk sorted, and an internal
      root holding at least one key. */
  predicate RootOk(t: Tree, d: nat)
  {
    WellShaped(t, d) && Sorted(Flat(t)) && (d > 0 ==> |t.keys| >= 1)
  }

  lemma ReplaceShape(t: Tree, j: int, c: Tree, d: nat)
    requires WellShaped(t, d) && d > 0 && 0 <= j < |t.children|
    requires WellShaped(c, d - 1) && T - 1 <= |c.keys|
    ensures WellShaped(Node(t.keys, t.children[j := c]), d)
  {
  }

  /** The walk after child j is replaced by c. */
  lemma ReplaceFlat(t: Tree, j: int, c: Tree)
    requires |t.children| == |t.keys| + 1 && 0 <= j < |t.children|
    ensures Flat(Node(t.keys, t.children[j := c])) == Pre(t, j) + Flat(c) + Post(t, j)
  {
    var r := Node(t.keys, t.children[j := c]);
    Focus(r, j);
    assert r.children[..j] == t.children[..j] && r.children[j + 1..] == t.children[j + 1..];
  }

  // ---------------------------------------------------------------------
  // Insertion (btree.c:27-95)
  // ---------------------------------------------------------------------

  /** A node with 2T-1 keys. */
  predicate Full(y: Tree)
  {
    |y.keys| == 2 * T - 1 && NodeShaped(y)
  }

  /** splitChild(x, i, y) with y = x->C[i] (btree.c:27-55): y keeps its first
      T-1 keys, the new z takes the last T-1, and the median moves up into x
      at position i, with z as child i+1. */
  function SplitChild(t: Tree, i: int): Tree
    requires |t.children| == |t.keys| + 1 && 0 <= i < |t.children|
    requires Full(t.children[i])
  {
    var y := t.children[i];
    Node(t.keys[..i] + [y.keys[T - 1]] + t.keys[i..],
         t.children[..i] + [Left(y, T - 1), Right(y, T - 1)] + t.children[i + 1..])
  }

  /** A split keeps the walk. */
  lemma SplitChildFlat(t: Tree, i: int)
    requires |t.children| == |t.keys| + 1 && 0 <= i < |t.children|
    requires Full(t.children[i])
    ensures Flat(SplitChild(t, i)) == Flat(t)
  {
    var r, y := SplitChild(t, i), t.children[i];
    var p, q := Pre(t, i), Post(t, i);
    var fl, m, fr := Flat(Left(y, T - 1)), y.keys[T - 1], Flat(Right(y, T - 1));
    assert Flat(r) == p + fl + [m] + fr + q by {
      Focus2(r, i);
      SplitChildParts(t, i);
      PreEq(r, t, i);
      PostEq(r, i + 1, t, i);
    }
    assert Flat(t) == p + (fl + [m] + fr) + q by {
      Focus(t, i);
      LeftRight(y, T - 1);
    }
    Regroup(p, fl, [m], fr, q);
  }

  /** The node after a split, seen around the two halves. */
  lemma SplitChildParts(t: Tree, i: int)
    requires |t.children| == |t.keys| + 1 && 0 <= i < |t.children|
    requires Full(t.children[i])
    ensures var r, y := SplitChild(t, i), t.children[i];
      && |r.children| == |r.keys| + 1 && i < |r.keys|
      && r.children[..i] == t.children[..i] && r.keys[..i] == t.keys[..i]
      && r.children[i + 2..] == t.children[i + 1..] && r.keys[i + 1..] == t.keys[i..]
      && r.children[i] == Left(y, T - 1) && r.children[i + 1] == Right(y, T - 1)
      && r.keys[i] == y.keys[T - 1]
  {
  }

  /** Two nodes that agree left of their i-th children have the same Pre. */
  lemma PreEq(r: Tree, t: Tree, i: int)
    requires |r.children| == |r.keys| + 1 && 0 <= i <= |r.keys|
    requires |t.children| == |t.keys| + 1 && i <= |t.keys|
    requires r.children[..i] == t.children[..i] && r.keys[..i] == t.keys[..i]
    ensures Pre(r, i) == Pre(t, i)
  {
  }

  /** Two nodes that agree right of their j-th and i-th children have the same Post. */
  lemma PostEq(r: Tree, j: int, t: Tree, i: int)
    requires |r.children| == |r.keys| + 1 && 0 <= j <= |r.keys|
    requires |t.children| == |t.keys| + 1 && 0 <= i <= |t.keys|
    requires r.children[j + 1..] == t.children[i + 1..] && r.keys[j..] == t.keys[i..]
    ensures Post(r, j) == Post(t, i)
  {
  }

  /** A split of a full child of a non-full node keeps the shape; both halves
      hold T-1 keys and the parent one more. */
  lemma SplitChildShape(t: Tree, i: int, d: nat)
    requires WellShaped(t, d) && d > 0 && |t.keys| < 2 * T - 1 && 0 <= i < |t.children|
    requires |t.children[i].keys| == 2 * T - 1
    ensures Full(t.children[i])
    ensures WellShaped(SplitChild(t, i), d)
    ensures |SplitChild(t, i).keys| == |t.keys| + 1
    ensures SplitChild(t, i).keys[i] == t.children[i].keys[T - 1]
    ensures |SplitChild(t, i).children[i].keys| == T - 1 == |SplitChild(t, i).children[i + 1].keys|
  {
    var r, y := SplitChild(t, i), t.children[i];
    assert WellShaped(y, d - 1);
    var y1, z := Left(y, T - 1), Right(y, T - 1);
    assert WellShaped(y1, d - 1) by {
      if d - 1 > 0 {
        forall j | 0 <= j < |y1.children| ensures T - 1 <= |y1.children[j].keys| && WellShaped(y1.children[j], d - 2) {
          assert y1.children[j] == y.children[j];
        }
      }
    }
    assert WellShaped(z, d - 1) by {
      if d - 1 > 0 {
        forall j | 0 <= j < |z.children| ensures T - 1 <= |z.children[j].keys| && WellShaped(z.children[j], d - 2) {
          assert z.children[j] == y.children[j + T];
        }
      }
    }
    forall j | 0 <= j < |r.children| ensures T - 1 <= |r.children[j].keys| && WellShaped(r.children[j], d - 1) {
      if j < i {
        assert r.children[j] == t.children[j];
      } else if j == i {
        assert r.children[j] == y1;
      } else if j == i + 1 {
        assert r.children[j] == z;
      } else {
        assert r.children[j] == t.children[j - 1];
      }
    }
  }

  /** insertNonFull(x, k) (btree.c:58-80): in a leaf, the keys greater than k
      move one place right and k goes into the gap; in an internal node, the
      child to descend into is found by the same scan, split first if it is
      full, and the descent moves right when the promoted key is below k. */
  function InsertNonFull(t: Tree, k: int, d: nat): (r: Tree)
    requires WellShaped(t, d) && |t.keys| < 2 * T - 1
    ensures WellShaped(r, d)
    ensures |t.keys| <= |r.keys| <= |t.keys| + 1
    ensures t.children == [] ==> |r.keys| == |t.keys| + 1
    decreases d, 1
  {
    if t.children == [] then Node(InsertKey(t.keys, k), [])
    else
      var u := UpperIdx(t.keys, k);
      if |t.children[u].keys| == 2 * T - 1 then
        SplitChildShape(t, u, d);
        var t1 := SplitChild(t, u);
        Descend(t1, if t1.keys[u] < k then u + 1 else u, k, d)
      else
        assert WellShaped(t.children[u], d - 1);
        Descend(t, u, k, d)
  }

  /** The internal branch of InsertNonFull when child u is full: split it,
      then descend into the half that k belongs in. */
  lemma InsertNonFullSplit(t: Tree, k: int, d: nat, u: int, j: int)
    requires d > 0 && WellShaped(t, d) && |t.keys| < 2 * T - 1 && u == UpperIdx(t.keys, k)
    requires u < |t.children| && Full(t.children[u]) && WellShaped(SplitChild(t, u), d)
    requires j == (if SplitChild(t, u).keys[u] < k then u + 1 else u)
    requires j < |SplitChild(t, u).children| && |SplitChild(t, u).children[j].keys| < 2 * T - 1
    ensures Descend(SplitChild(t, u), j, k, d) == InsertNonFull(t, k, d)
  {
  }

  /** ... and when it is not full, descend into it directly. */
  lemma InsertNonFullKeep(t: Tree, k: int, d: nat, u: int)
    requires d > 0 && WellShaped(t, d) && |t.keys| < 2 * T - 1 && u == UpperIdx(t.keys, k)
    requires u < |t.children| && |t.children[u].keys| < 2 * T - 1
    ensures Descend(t, u, k, d) == InsertNonFull(t, k, d)
  {
  }

  /** The recursive call insertNonFull(x->C[j], k) (btree.c:78) and its
      effect on the parent. */
  function Descend(t: Tree, j: int, k: int, d: nat): (r: Tree)
    requires d > 0 && WellShaped(t, d) && 0 <= j < |t.children|
    requires |t.children[j].keys| < 2 * T - 1
    ensures WellShaped(r, d) && |r.keys| == |t.keys|
    decreases d, 0
  {
    var c := InsertNonFull(t.children[j], k, d - 1);
    ReplaceShape(t, j, c, d);
    Node(t.keys, t.children[j := c])
  }

  /** Inserting into the child between two keys that bracket k inserts into
      the whole walk. */
  lemma DescendInsert(t: Tree, j: int, k: int, c: Tree)
    requires |t.children| == |t.keys| + 1 && 0 <= j < |t.children|
    requires Sorted(Flat(t))
    requires j > 0 ==> t.keys[j - 1] <= k
    requires j < |t.keys| ==> k <= t.keys[j]
    requires Flat(c) == InsertKey(Flat(t.children[j]), k)
    ensures Flat(Node(t.keys, t.children[j := c])) == InsertKey(Flat(t), k)
  {
    Between(t, j);
    Focus(t, j);
    ReplaceFlat(t, j, c);
    InsertMiddle(Pre(t, j), Flat(t.children[j]), Post(t, j), k);
  }

  /** After the split at btree.c:72-76 the child descended into lies between
      two keys that bracket k. */
  lemma SplitDescent(t: Tree, u: int, k: int)
    requires |t.children| == |t.keys| + 1 && u == UpperIdx(t.keys, k) && Full(t.children[u])
    ensures var t1 := SplitChild(t, u);
      var j := if t1.keys[u] < k then u + 1 else u;
      && (j > 0 ==> t1.keys[j - 1] <= k)
      && (j < |t1.keys| ==> k <= t1.keys[j])
  {
    var t1 := SplitChild(t, u);
    assert u > 0 ==> t1.keys[u - 1] == t.keys[u - 1];
    assert u < |t.keys| ==> t1.keys[u + 1] == t.keys[u];
  }

  /** Insertion into a non-full node inserts k into its walk. */
  lemma {:induction false} InsertNonFullFlat(t: Tree, k: int, d: nat)
    requires WellShaped(t, d) && |t.keys| < 2 * T - 1 && Sorted(Flat(t))
    ensures Flat(InsertNonFull(t, k, d)) == InsertKey(Flat(t), k)
    decreases d, 2
  {
    if t.children != [] {
      var u := UpperIdx(t.keys, k);
      if |t.children[u].keys| == 2 * T - 1 {
        SplitThenDescendFlat(t, k, d);
      } else {
        assert WellShaped(t.children[u], d - 1);
        DescendFlat(t, u, k, d);
      }
    }
  }

  /** The split-then-descend branch of insertNonFull inserts k into the walk. */
  lemma {:induction false} SplitThenDescendFlat(t: Tree, k: int, d: nat)
    requires WellShaped(t, d) && |t.keys| < 2 * T - 1 && Sorted(Flat(t)) && t.children != []
    requires |t.children[UpperIdx(t.keys, k)].keys| == 2 * T - 1
    ensures var u := UpperIdx(t.keys, k);
      && Full(t.children[u]) && WellShaped(SplitChild(t, u), d)
      && var t1 := SplitChild(t, u);
      var j := if t1.keys[u] < k then u + 1 else u;
      && j < |t1.children| && |t1.children[j].keys| < 2 * T - 1
      && Flat(Descend(t1, j, k, d)) == InsertKey(Flat(t), k)
    decreases d, 1
  {
    var u := UpperIdx(t.keys, k);
    SplitChildShape(t, u, d);
    var t1 := SplitChild(t, u);
    SplitChildFlat(t, u);
    SplitDescent(t, u, k);
    DescendFlat(t1, if t1.keys[u] < k then u + 1 else u, k, d);
  }

  /** Descending into a child whose neighbouring keys bracket k inserts k
      into the walk. */
  lemma {:induction false} DescendFlat(t: Tree, j: int, k: int, d: nat)
    requires d > 0 && WellShaped(t, d) && 0 <= j < |t.children|
    requires |t.children[j].keys| < 2 * T - 1 && Sorted(Flat(t))
    requires j > 0 ==> t.keys[j - 1] <= k
    requires j < |t.keys| ==> k <= t.keys[j]
    ensures Flat(Descend(t, j, k, d)) == InsertKey(Flat(t), k)
    decreases d, 0
  {
    ChildSorted(t, j);
    InsertNonFullFlat(t.children[j], k, d - 1);
    DescendInsert(t, j, k, InsertNonFull(t.children[j], k, d - 1));
  }

  /** The new root of insert (btree.c:86-91): an empty internal node whose only
      child is the full old root, split at once. */
  function Grow(t: Tree): Tree
    requires Full(t)
  {
    SplitChild(Node([], [t]), 0)
  }

  /** The height after insert: one more exactly when the root was full. */
  function InsertHeight(t: Tree, d: nat): nat
  {
    if |t.keys| == 2 * T - 1 then d + 1 else d
  }

  /** insert(root, k) (btree.c:83-95). */
  function Insert(t: Tree, k: int, d: nat): Tree
    requires WellShaped(t, d)
  {
    if |t.keys| == 2 * T - 1 then
      SplitChildShape(Node([], [t]), 0, d + 1);
      InsertNonFull(Grow(t), k, d + 1)
    else InsertNonFull(t, k, d)
  }

  /** insert on a root with room is insertNonFull on it. */
  lemma InsertDirect(t: Tree, k: int, d: nat)
    requires WellShaped(t, d) && |t.keys| < 2 * T - 1
    ensures Insert(t, k, d) == InsertNonFull(t, k, d)
  {
  }

  /** insert on a full root is insertNonFull on the grown root, which has
      room for k one level higher. */
  lemma InsertGrown(t: Tree, k: int, d: nat)
    requires WellShaped(t, d) && |t.keys| == 2 * T - 1
    ensures Full(t) && WellShaped(Node([], [t]), d + 1)
    ensures WellShaped(Grow(t), d + 1) && |Grow(t).keys| < 2 * T - 1
    ensures Insert(t, k, d) == InsertNonFull(Grow(t), k, d + 1)
  {
    GrowShape(t, d);
  }

  /** A full root grows into a root with one key and two children of T-1 keys. */
  lemma GrowShape(t: Tree, d: nat)
    requires WellShaped(t, d) && |t.keys| == 2 * T - 1
    ensures WellShaped(Grow(t), d + 1) && Flat(Grow(t)) == Flat(t)
    ensures |Grow(t).keys| == 1 && |Grow(t).children| == 2
    ensures |Grow(t).children[0].keys| == T - 1 == |Grow(t).children[1].keys|
    ensures WellShaped(Node([], [t]), d + 1) && Grow(t) == SplitChild(Node([], [t]), 0)
  {
    var s := Node([], [t]);
    SplitChildShape(s, 0, d + 1);
    SplitChildFlat(s, 0);
    FlatNode(s);
  }

  /** Insertion keeps the tree invariant, inserts k into the walk, and grows
      the height only from a full root. */
  lemma InsertCorrect(t: Tree, k: int, d: nat)
    requires RootOk(t, d)
    ensures RootOk(Insert(t, k, d), InsertHeight(t, d))
    ensures Flat(Insert(t, k, d)) == InsertKey(Flat(t), k)
    ensures multiset(Flat(Insert(t, k, d))) == multiset(Flat(t)) + multiset{k}
  {
    if |t.keys| == 2 * T - 1 {
      GrowShape(t, d);
      InsertNonFullFlat(Grow(t), k, d + 1);
    } else {
      InsertNonFullFlat(t, k, d);
    }
    InsertKeyCorrect(Flat(t), k);
  }

  // ---------------------------------------------------------------------
  // Search (btree.c:293-306)
  // ---------------------------------------------------------------------

  /** Where the scan of search stops without a match, k is in the tree
      exactly when the node is internal and k is in the child at the stop. */
  lemma SearchStep(t: Tree, k: int)
    requires NodeShaped(t) && Sorted(Flat(t))
    requires var i := LowerIdx(t.keys, k); !(i < |t.keys| && t.keys[i] == k)
    ensures t.children == [] ==> k !in Flat(t)
    ensures t.children != [] ==> (k in Flat(t) <==> k in Flat(t.children[LowerIdx(t.keys, k)]))
  {
    var i := LowerIdx(t.keys, k);
    if t.children == [] {
      LowerIdxFinds(t.keys, k);
    } else {
      Between(t, i);
      Focus(t, i);
      var p, c, q := Pre(t, i), Flat(t.children[i]), Post(t, i);
      assert k !in p;
      assert k !in q;
      assert k in Flat(t) <==> k in c;
    }
  }
}
