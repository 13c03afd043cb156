// Deletion from the B-tree of btree.c, over the value model of btree_model.dfy.
// Every helper of btree.c:98-290 is a function here, branch for branch; the
// lemmas show that each rebalancing step keeps the in-order walk and the
// shape, and that deleteNode removes exactly one occurrence of the key.
module BTreeDelete {
  import opened SortedSeqs
  import opened BTreeModel

  // ---------------------------------------------------------------------
  // Sequence regrouping
  // ---------------------------------------------------------------------

  lemma Rotate(a: seq<int>, b: seq<int>, x: int, c: seq<int>, y: int, e: seq<int>, f: seq<int>)
    ensures a + (b + [x] + c) + [y] + e + f == a + b + [x] + (c + [y] + e) + f
  {
  }

  lemma Join3(a: seq<int>, b: seq<int>, y: int, c: seq<int>, f: seq<int>)
    ensures a + b + [y] + c + f == a + (b + [y] + c) + f
  {
  }

  /** Cutting the middle element out of a five-part concatenation. */
  lemma CutOut(p: seq<int>, a: seq<int>, m: int, b: seq<int>, q: seq<int>)
    ensures var s := p + a + [m] + b + q;
      && |p + a| < |s| && s[|p + a|] == m
      && s[..|p + a|] == p + a && s[|p + a| + 1..] == b + q
  {
    var s := p + a + [m] + b + q;
    assert s == (p + a) + [m] + (b + q);
  }

  lemma LeftKeyAssemble(p: seq<int>, a: seq<int>, x: int, b: seq<int>, q: seq<int>)
    ensures p + a + [x] + b + q == (p + (a + [x])) + (b + q)
  {
  }

  lemma RightKeyAssemble(p: seq<int>, a: seq<int>, x: int, b: seq<int>, q: seq<int>)
    ensures p + a + [x] + b + q == (p + a) + (([x] + b) + q)
  {
  }

  lemma Glue(p: seq<int>, a: seq<int>, b: seq<int>, q: seq<int>)
    ensures p + (a + b) + q == (p + a) + (b + q)
    ensures p + a + b + q == (p + a) + (b + q)
  {
  }

  // ---------------------------------------------------------------------
  // Rebalancing a child (btree.c:116-212)
  // ---------------------------------------------------------------------

  /** borrowFromPrev(x, idx) (btree.c:116-139): the separator keys[idx-1]
      moves down to the front of child idx, the last key of sibling idx-1
      moves up in its place, and the sibling's last child becomes the
      child's first. */
  function BorrowFromPrev(t: Tree, idx: int): Tree
    requires |t.children| == |t.keys| + 1 && 0 < idx <= |t.keys|
    requires NodeShaped(t.children[idx - 1]) && |t.children[idx - 1].keys| >= 1
  {
    var c, s := t.children[idx], t.children[idx - 1];
    var last := |s.keys| - 1;
    Node(t.keys[idx - 1 := s.keys[last]],
         t.children[idx - 1 := Left(s, last)][idx := Join(Right(s, last), t.keys[idx - 1], c)])
  }

  /** borrowFromNext(x, idx) (btree.c:142-166): the separator keys[idx]
      moves down to the end of child idx, the first key of sibling idx+1
      moves up in its place, and the sibling's first child becomes the
      child's last. */
  function BorrowFromNext(t: Tree, idx: int): Tree
    requires |t.children| == |t.keys| + 1 && 0 <= idx < |t.keys|
    requires NodeShaped(t.children[idx + 1]) && |t.children[idx + 1].keys| >= 1
  {
    var c, s := t.children[idx], t.children[idx + 1];
    Node(t.keys[idx := s.keys[0]],
         t.children[idx := Join(c, t.keys[idx], Left(s, 0))][idx + 1 := Right(s, 0)])
  }

  /** merge(x, idx) (btree.c:169-197): child idx absorbs the separator
      keys[idx] and all of sibling idx+1; the parent loses that key and that
      child. */
  function Merge(t: Tree, idx: int): Tree
    requires |t.children| == |t.keys| + 1 && 0 <= idx < |t.keys|
  {
    Node(t.keys[..idx] + t.keys[idx + 1..],
         t.children[..idx] + [Join(t.children[idx], t.keys[idx], t.children[idx + 1])] + t.children[idx + 2..])
  }

  /** fill(x, idx) (btree.c:200-212): borrow from the previous sibling when
      it can spare a key, else from the next one, else merge with the next
      sibling, or with the previous one when idx is the last child. */
  function Fill(t: Tree, idx: int, d: nat): Tree
    requires WellShaped(t, d) && d > 0 && 0 <= idx <= |t.keys| && |t.keys| >= 1
  {
    if idx != 0 && |t.children[idx - 1].keys| >= T then
      ChildOf(t, d, idx - 1);
      BorrowFromPrev(t, idx)
    else if idx != |t.keys| && |t.children[idx + 1].keys| >= T then
      ChildOf(t, d, idx + 1);
      BorrowFromNext(t, idx)
    else if idx != |t.keys| then
      Merge(t, idx)
    else
      Merge(t, idx - 1)
  }

  // ---------------------------------------------------------------------
  // The walk is kept
  // ---------------------------------------------------------------------

  /** The node after a borrow from the previous sibling, around the two children. */
  lemma BorrowFromPrevParts(t: Tree, idx: int)
    requires |t.children| == |t.keys| + 1 && 0 < idx <= |t.keys|
    requires NodeShaped(t.children[idx - 1]) && |t.children[idx - 1].keys| >= 1
    ensures var r, s := BorrowFromPrev(t, idx), t.children[idx - 1];
      var last := |s.keys| - 1;
      && |r.children| == |r.keys| + 1 == |t.keys| + 1
      && r.children[..idx - 1] == t.children[..idx - 1] && r.keys[..idx - 1] == t.keys[..idx - 1]
      && r.children[idx + 1..] == t.children[idx + 1..] && r.keys[idx..] == t.keys[idx..]
      && r.children[idx - 1] == Left(s, last) && r.keys[idx - 1] == s.keys[last]
      && r.children[idx] == Join(Right(s, last), t.keys[idx - 1], t.children[idx])
  {
  }

  /** A borrow from the previous sibling rotates keys through the parent
      and keeps the walk. */
  lemma BorrowFromPrevFlat(t: Tree, idx: int)
    requires |t.children| == |t.keys| + 1 && 0 < idx <= |t.keys|
    requires NodeShaped(t.children[idx - 1]) && |t.children[idx - 1].keys| >= 1
    requires SameKind(t.children[idx - 1], t.children[idx])
    ensures Flat(BorrowFromPrev(t, idx)) == Flat(t)
  {
    var r, s, c := BorrowFromPrev(t, idx), t.children[idx - 1], t.children[idx];
    var last := |s.keys| - 1;
    var p, q := Pre(t, idx - 1), Post(t, idx);
    var fl, sl, fr, m, fc := Flat(Left(s, last)), s.keys[last], Flat(Right(s, last)), t.keys[idx - 1], Flat(c);
    assert Flat(t) == p + (fl + [sl] + fr) + [m] + fc + q by {
      Focus2(t, idx - 1);
      LeftRight(s, last);
    }
    assert Flat(r) == p + fl + [sl] + (fr + [m] + fc) + q by {
      Focus2(r, idx - 1);
      BorrowFromPrevParts(t, idx);
      PreEq(r, t, idx - 1);
      PostEq(r, idx, t, idx);
      LeftRight(s, last);
      JoinFlat(Right(s, last), m, c);
    }
    Rotate(p, fl, sl, fr, m, fc, q);
  }

  /** The node after a borrow from the next sibling, around the two children. */
  lemma BorrowFromNextParts(t: Tree, idx: int)
    requires |t.children| == |t.keys| + 1 && 0 <= idx < |t.keys|
    requires NodeShaped(t.children[idx + 1]) && |t.children[idx + 1].keys| >= 1
    ensures var r, s := BorrowFromNext(t, idx), t.children[idx + 1];
      && |r.children| == |r.keys| + 1 == |t.keys| + 1
      && r.children[..idx] == t.children[..idx] && r.keys[..idx] == t.keys[..idx]
      && r.children[idx + 2..] == t.children[idx + 2..] && r.keys[idx + 1..] == t.keys[idx + 1..]
      && r.children[idx] == Join(t.children[idx], t.keys[idx], Left(s, 0))
      && r.keys[idx] == s.keys[0] && r.children[idx + 1] == Right(s, 0)
  {
  }

  /** A borrow from the next sibling keeps the walk. */
  lemma BorrowFromNextFlat(t: Tree, idx: int)
    requires |t.children| == |t.keys| + 1 && 0 <= idx < |t.keys|
    requires NodeShaped(t.children[idx + 1]) && |t.children[idx + 1].keys| >= 1
    requires SameKind(t.children[idx], t.children[idx + 1])
    ensures Flat(BorrowFromNext(t, idx)) == Flat(t)
  {
    var r, s, c := BorrowFromNext(t, idx), t.children[idx + 1], t.children[idx];
    var p, q := Pre(t, idx), Post(t, idx + 1);
    var fc, m, fl, s0, fr := Flat(c), t.keys[idx], Flat(Left(s, 0)), s.keys[0], Flat(Right(s, 0));
    assert Flat(t) == p + fc + [m] + (fl + [s0] + fr) + q by {
      Focus2(t, idx);
      LeftRight(s, 0);
    }
    assert Flat(r) == p + (fc + [m] + fl) + [s0] + fr + q by {
      Focus2(r, idx);
      BorrowFromNextParts(t, idx);
      PreEq(r, t, idx);
      PostEq(r, idx + 1, t, idx + 1);
      LeftRight(s, 0);
      JoinFlat(c, m, Left(s, 0));
    }
    Rotate(p, fc, m, fl, s0, fr, q);
  }

  /** The node after a merge, around the merged child. */
  lemma MergeParts(t: Tree, idx: int)
    requires |t.children| == |t.keys| + 1 && 0 <= idx < |t.keys|
    ensures var r := Merge(t, idx);
      && |r.children| == |r.keys| + 1 == |t.keys|
      && r.children[..idx] == t.children[..idx] && r.keys[..idx] == t.keys[..idx]
      && r.children[idx + 1..] == t.children[idx + 2..] && r.keys[idx..] == t.keys[idx + 1..]
      && r.children[idx] == Join(t.children[idx], t.keys[idx], t.children[idx + 1])
  {
  }

  /** A merge keeps the walk. */
  lemma MergeFlat(t: Tree, idx: int)
    requires |t.children| == |t.keys| + 1 && 0 <= idx < |t.keys|
    requires SameKind(t.children[idx], t.children[idx + 1])
    ensures Flat(Merge(t, idx)) == Flat(t)
  {
    var r, c, s := Merge(t, idx), t.children[idx], t.children[idx + 1];
    var p, q := Pre(t, idx), Post(t, idx + 1);
    var fc, m, fs := Flat(c), t.keys[idx], Flat(s);
    assert Flat(t) == p + fc + [m] + fs + q by {
      Focus2(t, idx);
    }
    assert Flat(r) == p + (fc + [m] + fs) + q by {
      Focus(r, idx);
      MergeParts(t, idx);
      PreEq(r, t, idx);
      PostEq(r, idx, t, idx + 1);
      JoinFlat(c, m, s);
    }
    Join3(p, fc, m, fs, q);
  }

  // ---------------------------------------------------------------------
  // The shape is kept
  // ---------------------------------------------------------------------

  lemma LeftShape(y: Tree, j: int, e: nat)
    requires WellShaped(y, e) && 0 <= j < |y.keys|
    ensures WellShaped(Left(y, j), e) && |Left(y, j).keys| == j
  {
    var l := Left(y, j);
    if e > 0 {
      forall i | 0 <= i < |l.children| ensures T - 1 <= |l.children[i].keys| && WellShaped(l.children[i], e - 1) {
        assert l.children[i] == y.children[i];
      }
    }
  }

  lemma RightShape(y: Tree, j: int, e: nat)
    requires WellShaped(y, e) && 0 <= j < |y.keys|
    ensures WellShaped(Right(y, j), e) && |Right(y, j).keys| == |y.keys| - j - 1
  {
    var r := Right(y, j);
    if e > 0 {
      forall i | 0 <= i < |r.children| ensures T - 1 <= |r.children[i].keys| && WellShaped(r.children[i], e - 1) {
        assert r.children[i] == y.children[j + 1 + i];
      }
    }
  }

  lemma JoinShape(a: Tree, m: int, b: Tree, e: nat)
    requires WellShaped(a, e) && WellShaped(b, e) && |a.keys| + |b.keys| + 1 <= 2 * T - 1
    ensures WellShaped(Join(a, m, b), e) && |Join(a, m, b).keys| == |a.keys| + |b.keys| + 1
  {
    var r := Join(a, m, b);
    if e > 0 {
      forall i | 0 <= i < |r.children| ensures T - 1 <= |r.children[i].keys| && WellShaped(r.children[i], e - 1) {
        if i < |a.children| {
          assert r.children[i] == a.children[i];
        } else {
          assert r.children[i] == b.children[i - |a.children|];
        }
      }
    }
  }

  /** A node whose children are all shaped one level lower, with at least T-1
      keys each, is shaped. */
  lemma NodeShape(r: Tree, d: nat)
    requires d > 0 && |r.keys| <= 2 * T - 1 && |r.children| == |r.keys| + 1
    requires forall j :: 0 <= j < |r.children| ==> T - 1 <= |r.children[j].keys| && WellShaped(r.children[j], d - 1)
    ensures WellShaped(r, d)
  {
  }

  /** Replacing two neighbouring children (and the keys, keeping their
      number) by shaped nodes keeps the shape. */
  lemma ReplaceTwoShape(t: Tree, ks: seq<int>, i: int, i1: int, a: Tree, b: Tree, d: nat)
    requires WellShaped(t, d) && d > 0 && 0 <= i < |t.keys| && i1 == i + 1 && |ks| == |t.keys|
    requires WellShaped(a, d - 1) && T - 1 <= |a.keys| && WellShaped(b, d - 1) && T - 1 <= |b.keys|
    ensures WellShaped(Node(ks, t.children[i := a][i1 := b]), d)
  {
    var r := Node(ks, t.children[i := a][i1 := b]);
    forall j | 0 <= j < |r.children| ensures T - 1 <= |r.children[j].keys| && WellShaped(r.children[j], d - 1) {
      if j != i && j != i1 {
        ChildOf(t, d, j);
      }
    }
    NodeShape(r, d);
  }

  /** A borrow from the previous sibling keeps the shape; the child gains a
      key, the sibling loses one, the parent keeps its count. */
  lemma BorrowFromPrevShape(t: Tree, idx: int, d: nat)
    requires WellShaped(t, d) && d > 0 && 0 < idx <= |t.keys|
    requires |t.children[idx - 1].keys| >= T && |t.children[idx].keys| < 2 * T - 1
    ensures NodeShaped(t.children[idx - 1]) && WellShaped(BorrowFromPrev(t, idx), d)
    ensures |BorrowFromPrev(t, idx).keys| == |t.keys|
    ensures |BorrowFromPrev(t, idx).children[idx].keys| == |t.children[idx].keys| + 1
    ensures |BorrowFromPrev(t, idx).children[idx - 1].keys| == |t.children[idx - 1].keys| - 1
  {
    ChildOf(t, d, idx - 1);
    var s, c := t.children[idx - 1], t.children[idx];
    var last := |s.keys| - 1;
    var l, j := Left(s, last), Join(Right(s, last), t.keys[idx - 1], c);
    assert WellShaped(l, d - 1) && |l.keys| == |s.keys| - 1 by {
      LeftShape(s, last, d - 1);
    }
    assert WellShaped(j, d - 1) && |j.keys| == |c.keys| + 1 by {
      ChildOf(t, d, idx);
      RightShape(s, last, d - 1);
      JoinShape(Right(s, last), t.keys[idx - 1], c, d - 1);
    }
    ReplaceTwoShape(t, t.keys[idx - 1 := s.keys[last]], idx - 1, idx, l, j, d);
  }

  /** A borrow from the next sibling keeps the shape. */
  lemma BorrowFromNextShape(t: Tree, idx: int, d: nat)
    requires WellShaped(t, d) && d > 0 && 0 <= idx < |t.keys|
    requires |t.children[idx + 1].keys| >= T && |t.children[idx].keys| < 2 * T - 1
    ensures NodeShaped(t.children[idx + 1]) && WellShaped(BorrowFromNext(t, idx), d)
    ensures |BorrowFromNext(t, idx).keys| == |t.keys|
    ensures |BorrowFromNext(t, idx).children[idx].keys| == |t.children[idx].keys| + 1
    ensures |BorrowFromNext(t, idx).children[idx + 1].keys| == |t.children[idx + 1].keys| - 1
  {
    ChildOf(t, d, idx + 1);
    var s, c := t.children[idx + 1], t.children[idx];
    var j, r := Join(c, t.keys[idx], Left(s, 0)), Right(s, 0);
    assert WellShaped(r, d - 1) && |r.keys| == |s.keys| - 1 by {
      RightShape(s, 0, d - 1);
    }
    assert WellShaped(j, d - 1) && |j.keys| == |c.keys| + 1 by {
      ChildOf(t, d, idx);
      LeftShape(s, 0, d - 1);
      JoinShape(c, t.keys[idx], Left(s, 0), d - 1);
    }
    ReplaceTwoShape(t, t.keys[idx := s.keys[0]], idx, idx + 1, j, r, d);
  }

  /** A merge of two children with T-1 keys each keeps the shape; the merged
      child holds 2T-1 keys and the parent one key fewer. */
  lemma MergeShape(t: Tree, idx: int, d: nat)
    requires WellShaped(t, d) && d > 0 && 0 <= idx < |t.keys|
    requires |t.children[idx].keys| + |t.children[idx + 1].keys| + 1 <= 2 * T - 1
    ensures WellShaped(Merge(t, idx), d)
    ensures |Merge(t, idx).keys| == |t.keys| - 1
    ensures |Merge(t, idx).children[idx].keys| == |t.children[idx].keys| + |t.children[idx + 1].keys| + 1
    ensures SameKind(t.children[idx], t.children[idx + 1])
  {
    ChildOf(t, d, idx);
    ChildOf(t, d, idx + 1);
    var r := Merge(t, idx);
    JoinShape(t.children[idx], t.keys[idx], t.children[idx + 1], d - 1);
    MergeParts(t, idx);
    forall j | 0 <= j < |r.children| ensures T - 1 <= |r.children[j].keys| && WellShaped(r.children[j], d - 1) {
      if j < idx {
        assert r.children[j] == t.children[j];
        ChildOf(t, d, j);
      } else if j > idx {
        assert r.children[j] == t.children[j + 1];
        ChildOf(t, d, j + 1);
      }
    }
    NodeShape(r, d);
  }

  /** Two children of a shaped node are both leaves or both internal. */
  lemma SiblingsSameKind(t: Tree, d: nat, i: int, j: int)
    requires WellShaped(t, d) && d > 0 && 0 <= i < |t.children| && 0 <= j < |t.children|
    ensures SameKind(t.children[i], t.children[j])
  {
    ChildOf(t, d, i);
    ChildOf(t, d, j);
  }

  /** The child deleteNode descends into after fill (btree.c:260-269): the
      same index, or the one before when the last child was merged into its
      previous sibling. */
  function DescentIdx(t: Tree, t1: Tree, idx: int): int
  {
    if idx == |t.keys| && idx > |t1.keys| then idx - 1 else idx
  }

  /** fill leaves the tree shaped, the parent with at most one key fewer,
      and the child to descend into with at least T keys. */
  lemma FillShape(t: Tree, idx: int, d: nat)
    requires WellShaped(t, d) && d > 0 && 0 <= idx <= |t.keys| && |t.keys| >= 1
    requires |t.children[idx].keys| < T
    ensures WellShaped(Fill(t, idx, d), d)
    ensures |t.keys| - 1 <= |Fill(t, idx, d).keys| <= |t.keys|
    ensures var j := DescentIdx(t, Fill(t, idx, d), idx);
      0 <= j < |Fill(t, idx, d).children| && |Fill(t, idx, d).children[j].keys| >= T
  {
    ChildOf(t, d, idx);
    if idx != 0 && |t.children[idx - 1].keys| >= T {
      BorrowFromPrevShape(t, idx, d);
    } else if idx != |t.keys| && |t.children[idx + 1].keys| >= T {
      BorrowFromNextShape(t, idx, d);
    } else if idx != |t.keys| {
      ChildOf(t, d, idx + 1);
      MergeShape(t, idx, d);
    } else {
      ChildOf(t, d, idx - 1);
      MergeShape(t, idx - 1, d);
    }
  }

  /** fill keeps the walk. */
  lemma FillFlat(t: Tree, idx: int, d: nat)
    requires WellShaped(t, d) && d > 0 && 0 <= idx <= |t.keys| && |t.keys| >= 1
    ensures Flat(Fill(t, idx, d)) == Flat(t)
  {
    if idx != 0 && |t.children[idx - 1].keys| >= T {
      ChildOf(t, d, idx - 1);
      SiblingsSameKind(t, d, idx - 1, idx);
      BorrowFromPrevFlat(t, idx);
    } else if idx != |t.keys| && |t.children[idx + 1].keys| >= T {
      ChildOf(t, d, idx + 1);
      SiblingsSameKind(t, d, idx, idx + 1);
      BorrowFromNextFlat(t, idx);
    } else if idx != |t.keys| {
      SiblingsSameKind(t, d, idx, idx + 1);
      MergeFlat(t, idx);
    } else {
      SiblingsSameKind(t, d, idx - 1, idx);
      MergeFlat(t, idx - 1);
    }
  }

  /** After fill, the keys around the child deleteNode descends into still
      bracket k strictly, as the scan found them before fill. */
  lemma FillBracket(t: Tree, idx: int, d: nat, k: int)
    requires WellShaped(t, d) && d > 0 && 0 <= idx <= |t.keys| && |t.keys| >= 1
    requires Sorted(Flat(t)) && idx == LowerIdx(t.keys, k)
    requires idx < |t.keys| ==> t.keys[idx] != k
    ensures var t1 := Fill(t, idx, d);
      var j := DescentIdx(t, t1, idx);
      && (0 < j <= |t1.keys| ==> t1.keys[j - 1] < k)
      && (0 <= j < |t1.keys| ==> k < t1.keys[j])
  {
    if idx != 0 && |t.children[idx - 1].keys| >= T {
      ChildOf(t, d, idx - 1);
      PrevBracket(t, idx, k);
    } else if idx != |t.keys| && |t.children[idx + 1].keys| >= T {
      ChildOf(t, d, idx + 1);
      NextBracket(t, idx, k);
    } else if idx != |t.keys| {
      MergeBracket(t, idx, k);
    } else {
      MergeLastBracket(t, k);
    }
  }

  lemma PrevBracket(t: Tree, idx: int, k: int)
    requires |t.children| == |t.keys| + 1 && 0 < idx <= |t.keys|
    requires NodeShaped(t.children[idx - 1]) && |t.children[idx - 1].keys| >= 1
    requires Sorted(Flat(t)) && t.keys[idx - 1] < k
    requires idx < |t.keys| ==> k < t.keys[idx]
    ensures var r := BorrowFromPrev(t, idx);
      |r.keys| == |t.keys| && r.keys[idx - 1] < k && (idx < |r.keys| ==> k < r.keys[idx])
  {
    var s := t.children[idx - 1];
    KeyInFlat(s, |s.keys| - 1);
    Between(t, idx - 1);
  }

  lemma NextBracket(t: Tree, idx: int, k: int)
    requires |t.children| == |t.keys| + 1 && 0 <= idx < |t.keys|
    requires NodeShaped(t.children[idx + 1]) && |t.children[idx + 1].keys| >= 1
    requires Sorted(Flat(t)) && k < t.keys[idx]
    requires idx > 0 ==> t.keys[idx - 1] < k
    ensures var r := BorrowFromNext(t, idx);
      |r.keys| == |t.keys| && k < r.keys[idx] && (idx > 0 ==> r.keys[idx - 1] < k)
  {
    KeyInFlat(t.children[idx + 1], 0);
    Between(t, idx + 1);
  }

  lemma MergeBracket(t: Tree, idx: int, k: int)
    requires |t.children| == |t.keys| + 1 && 0 <= idx < |t.keys|
    requires Sorted(Flat(t)) && k < t.keys[idx]
    requires idx > 0 ==> t.keys[idx - 1] < k
    ensures var r := Merge(t, idx);
      |r.keys| == |t.keys| - 1 && (idx > 0 ==> r.keys[idx - 1] < k)
      && (idx < |r.keys| ==> k < r.keys[idx])
  {
    if idx + 1 < |t.keys| {
      NextKeyInPost(t, idx);
      Between(t, idx);
      assert Merge(t, idx).keys[idx] == t.keys[idx + 1];
    }
    if idx > 0 {
      assert Merge(t, idx).keys[idx - 1] == t.keys[idx - 1];
    }
  }

  lemma MergeLastBracket(t: Tree, k: int)
    requires |t.children| == |t.keys| + 1 && 0 < |t.keys|
    requires forall j :: 0 <= j < |t.keys| ==> t.keys[j] < k
    ensures var r := Merge(t, |t.keys| - 1);
      |r.keys| == |t.keys| - 1 && (|t.keys| > 1 ==> r.keys[|t.keys| - 2] < k)
  {
    var n := |t.keys|;
    if n > 1 {
      assert Merge(t, n - 1).keys[n - 2] == t.keys[n - 2];
    }
  }

  // ---------------------------------------------------------------------
  // deleteNode
  // ---------------------------------------------------------------------

  /** removeFromLeaf(x, idx) (btree.c:235-240): shift the keys after idx left. */
  function RemoveFromLeaf(t: Tree, idx: int): Tree
    requires 0 <= idx < |t.keys|
  {
    Node(t.keys[..idx] + t.keys[idx + 1..], t.children)
  }

  /** getPred (btree.c:98-103): follow the last child down to a leaf and
      take its last key. */
  function Rightmost(t: Tree, d: nat): int
    requires WellShaped(t, d) && |t.keys| >= 1
    decreases d
  {
    if t.children == [] then t.keys[|t.keys| - 1]
    else
      ChildOf(t, d, |t.keys|);
      Rightmost(t.children[|t.keys|], d - 1)
  }

  /** getSucc (btree.c:106-111): follow the first child down to a leaf and
      take its first key. */
  function Leftmost(t: Tree, d: nat): int
    requires WellShaped(t, d) && |t.keys| >= 1
    decreases d
  {
    if t.children == [] then t.keys[0]
    else
      ChildOf(t, d, 0);
      Leftmost(t.children[0], d - 1)
  }

  /** deleteNode(x, k) (btree.c:243-271): find the first key at least k;
      remove it here if it is k, otherwise make sure the child to descend
      into has at least T keys (fill) and recurse into it. A leaf without k
      is left alone. */
  function DeleteNode(t: Tree, k: int, d: nat): (r: Tree)
    requires WellShaped(t, d) && (d > 0 ==> |t.keys| >= 1)
    ensures WellShaped(r, d) && |t.keys| - 1 <= |r.keys| <= |t.keys|
    decreases d, 2
  {
    var idx := LowerIdx(t.keys, k);
    if idx < |t.keys| && t.keys[idx] == k then
      if t.children == [] then RemoveFromLeaf(t, idx)
      else RemoveFromNonLeaf(t, idx, d)
    else if t.children == [] then t
    else if |t.children[idx].keys| < T then
      FillShape(t, idx, d);
      var t1 := Fill(t, idx, d);
      DeleteChild(t1, DescentIdx(t, t1, idx), k, d)
    else
      DeleteChild(t, idx, k, d)
  }

  /** The recursive call deleteNode(x->C[j], k) on a child holding at least T keys. */
  function DeleteChild(t: Tree, j: int, k: int, d: nat): (r: Tree)
    requires d > 0 && WellShaped(t, d) && 0 <= j < |t.children| && |t.children[j].keys| >= T
    ensures WellShaped(r, d) && |r.keys| == |t.keys|
    decreases d, 0
  {
    ChildOf(t, d, j);
    var c := DeleteNode(t.children[j], k, d - 1);
    ReplaceShape(t, j, c, d);
    Node(t.keys, t.children[j := c])
  }

  /** removeFromNonLeaf(x, idx) (btree.c:217-232): replace keys[idx] by its
      predecessor and delete that from child idx when the child has T keys;
      otherwise by its successor from child idx+1; otherwise merge the two
      children around it and delete it from the merged child. */
  function RemoveFromNonLeaf(t: Tree, idx: int, d: nat): (r: Tree)
    requires d > 0 && WellShaped(t, d) && 0 <= idx < |t.keys|
    ensures WellShaped(r, d) && |t.keys| - 1 <= |r.keys| <= |t.keys|
    decreases d, 1
  {
    if |t.children[idx].keys| >= T then
      ChildOf(t, d, idx);
      var pred := Rightmost(t.children[idx], d - 1);
      DeleteChild(Node(t.keys[idx := pred], t.children), idx, pred, d)
    else if |t.children[idx + 1].keys| >= T then
      ChildOf(t, d, idx + 1);
      var succ := Leftmost(t.children[idx + 1], d - 1);
      DeleteChild(Node(t.keys[idx := succ], t.children), idx + 1, succ, d)
    else
      ChildOf(t, d, idx);
      ChildOf(t, d, idx + 1);
      MergeShape(t, idx, d);
      DeleteChild(Merge(t, idx), idx, t.keys[idx], d)
  }

  // ---------------------------------------------------------------------
  // deleteNode removes one occurrence from the walk
  // ---------------------------------------------------------------------

  /** getPred returns the last key of the walk of the subtree. */
  lemma {:induction false} RightmostLast(t: Tree, d: nat)
    requires WellShaped(t, d) && |t.keys| >= 1
    ensures |Flat(t)| > 0 && Flat(t)[|Flat(t)| - 1] == Rightmost(t, d)
    decreases d
  {
    if t.children != [] {
      var n := |t.keys|;
      ChildOf(t, d, n);
      RightmostLast(t.children[n], d - 1);
      Focus(t, n);
      var p, c := Pre(t, n), Flat(t.children[n]);
      assert Flat(t) == p + c;
      assert Flat(t)[|Flat(t)| - 1] == c[|c| - 1];
    }
  }

  /** getSucc returns the first key of the walk of the subtree. */
  lemma {:induction false} LeftmostFirst(t: Tree, d: nat)
    requires WellShaped(t, d) && |t.keys| >= 1
    ensures |Flat(t)| > 0 && Flat(t)[0] == Leftmost(t, d)
    decreases d
  {
    if t.children != [] {
      ChildOf(t, d, 0);
      LeftmostFirst(t.children[0], d - 1);
      Focus(t, 0);
      var c, q := Flat(t.children[0]), Post(t, 0);
      assert Flat(t) == c + q;
      assert Flat(t)[0] == c[0];
    }
  }

  /** Deleting from the child between two keys that bracket k strictly
      deletes from the whole walk. */
  lemma DeleteDescent(t: Tree, j: int, k: int, c: Tree)
    requires |t.children| == |t.keys| + 1 && 0 <= j < |t.children|
    requires Sorted(Flat(t))
    requires j > 0 ==> t.keys[j - 1] < k
    requires j < |t.keys| ==> k < t.keys[j]
    requires Flat(c) == RemoveOne(Flat(t.children[j]), k)
    ensures Flat(Node(t.keys, t.children[j := c])) == RemoveOne(Flat(t), k)
  {
    var p, f, q := Pre(t, j), Flat(t.children[j]), Post(t, j);
    Between(t, j);
    Focus(t, j);
    ReplaceFlat(t, j, c);
    if j == 0 {
      assert p == [];
    }
    if j == |t.keys| {
      assert q == [];
    }
    RemoveMiddle(p, f, q, k);
  }

  /** deleteNode removes one occurrence of k from the walk (none when k is absent). */
  lemma {:induction false} DeleteFlat(t: Tree, k: int, d: nat)
    requires WellShaped(t, d) && (d > 0 ==> |t.keys| >= 1) && Sorted(Flat(t))
    ensures Flat(DeleteNode(t, k, d)) == RemoveOne(Flat(t), k)
    decreases d, 2
  {
    var idx := LowerIdx(t.keys, k);
    if idx < |t.keys| && t.keys[idx] == k {
      if t.children == [] {
        RemoveAt(t.keys, idx, k);
      } else {
        RemoveFromNonLeafFlat(t, idx, d);
      }
    } else if t.children == [] {
      LowerIdxFinds(t.keys, k);
      RemoveAbsent(t.keys, k);
    } else if |t.children[idx].keys| < T {
      FillDescentFlat(t, k, d);
    } else {
      DeleteChildFlat(t, idx, k, d);
    }
  }

  /** The descent after fill deletes from the whole walk. */
  lemma {:induction false} FillDescentFlat(t: Tree, k: int, d: nat)
    requires WellShaped(t, d) && d > 0 && |t.keys| >= 1 && Sorted(Flat(t))
    requires var idx := LowerIdx(t.keys, k);
      && !(idx < |t.keys| && t.keys[idx] == k) && |t.children[idx].keys| < T
    ensures Flat(DeleteNode(t, k, d)) == RemoveOne(Flat(t), k)
    decreases d, 1
  {
    var idx := LowerIdx(t.keys, k);
    var t1 := Fill(t, idx, d);
    FillShape(t, idx, d);
    FillFlat(t, idx, d);
    FillBracket(t, idx, d, k);
    DeleteChildFlat(t1, DescentIdx(t, t1, idx), k, d);
  }

  /** The recursive call on a child bracketed strictly by k deletes from the whole walk. */
  lemma {:induction false} DeleteChildFlat(t: Tree, j: int, k: int, d: nat)
    requires d > 0 && WellShaped(t, d) && 0 <= j < |t.children| && |t.children[j].keys| >= T
    requires Sorted(Flat(t))
    requires j > 0 ==> t.keys[j - 1] < k
    requires j < |t.keys| ==> k < t.keys[j]
    ensures Flat(DeleteChild(t, j, k, d)) == RemoveOne(Flat(t), k)
    decreases d, 0
  {
    ChildOf(t, d, j);
    ChildSorted(t, j);
    DeleteFlat(t.children[j], k, d - 1);
    DeleteDescent(t, j, k, DeleteNode(t.children[j], k, d - 1));
  }

  /** removeFromNonLeaf removes one occurrence of keys[idx] from the walk. */
  lemma {:induction false} RemoveFromNonLeafFlat(t: Tree, idx: int, d: nat)
    requires d > 0 && WellShaped(t, d) && 0 <= idx < |t.keys| && Sorted(Flat(t))
    ensures Flat(RemoveFromNonLeaf(t, idx, d)) == RemoveOne(Flat(t), t.keys[idx])
    decreases d, 1
  {
    if |t.children[idx].keys| >= T {
      PredFlat(t, idx, d);
    } else if |t.children[idx + 1].keys| >= T {
      SuccFlat(t, idx, d);
    } else {
      MergeDeleteFlat(t, idx, d);
    }
  }

  /** Overwriting keys[idx] by the last key x of child idx and dropping x
      from that child removes keys[idx] from the walk. */
  lemma ReplaceLeftKey(t: Tree, idx: int, x: int, c: Tree)
    requires |t.children| == |t.keys| + 1 && 0 <= idx < |t.keys| && Sorted(Flat(t))
    requires Flat(t.children[idx]) == Flat(c) + [x]
    ensures Flat(Node(t.keys[idx := x], t.children[idx := c])) == RemoveOne(Flat(t), t.keys[idx])
  {
    var r := Node(t.keys[idx := x], t.children[idx := c]);
    var p, fc, m, fs, q := Pre(t, idx), Flat(t.children[idx]), t.keys[idx], Flat(t.children[idx + 1]), Post(t, idx + 1);
    var w := p + fc + [m] + fs + q;
    assert Flat(t) == w by {
      Focus2(t, idx);
    }
    assert Flat(r) == (p + fc) + (fs + q) by {
      Focus2(r, idx);
      assert r.children[..idx] == t.children[..idx] && r.keys[..idx] == t.keys[..idx];
      assert r.children[idx + 2..] == t.children[idx + 2..] && r.keys[idx + 1..] == t.keys[idx + 1..];
      PreEq(r, t, idx);
      PostEq(r, idx + 1, t, idx + 1);
      LeftKeyAssemble(p, Flat(c), x, fs, q);
    }
    CutOut(p, fc, m, fs, q);
    RemoveAt(w, |p + fc|, m);
  }

  /** Overwriting keys[idx] by the first key x of child idx+1 and dropping x
      from that child removes keys[idx] from the walk. */
  lemma ReplaceRightKey(t: Tree, idx: int, x: int, c: Tree)
    requires |t.children| == |t.keys| + 1 && 0 <= idx < |t.keys| && Sorted(Flat(t))
    requires Flat(t.children[idx + 1]) == [x] + Flat(c)
    ensures Flat(Node(t.keys[idx := x], t.children[idx + 1 := c])) == RemoveOne(Flat(t), t.keys[idx])
  {
    var r := Node(t.keys[idx := x], t.children[idx + 1 := c]);
    var p, fc, m, fs, q := Pre(t, idx), Flat(t.children[idx]), t.keys[idx], Flat(t.children[idx + 1]), Post(t, idx + 1);
    var w := p + fc + [m] + fs + q;
    assert Flat(t) == w by {
      Focus2(t, idx);
    }
    assert Flat(r) == (p + fc) + (fs + q) by {
      Focus2(r, idx);
      assert r.children[..idx] == t.children[..idx] && r.keys[..idx] == t.keys[..idx];
      assert r.children[idx + 2..] == t.children[idx + 2..] && r.keys[idx + 1..] == t.keys[idx + 1..];
      PreEq(r, t, idx);
      PostEq(r, idx + 1, t, idx + 1);
      RightKeyAssemble(p, fc, x, Flat(c), q);
    }
    CutOut(p, fc, m, fs, q);
    RemoveAt(w, |p + fc|, m);
  }

  /** Replacing child j, whose walk is a + [m] + b, by a child whose walk is
      a + b removes m from the walk. */
  lemma ReplaceDropKey(t: Tree, j: int, a: seq<int>, m: int, b: seq<int>, c: Tree)
    requires |t.children| == |t.keys| + 1 && 0 <= j < |t.children| && Sorted(Flat(t))
    requires Flat(t.children[j]) == a + [m] + b && Flat(c) == a + b
    ensures Flat(Node(t.keys, t.children[j := c])) == RemoveOne(Flat(t), m)
  {
    var p, q := Pre(t, j), Post(t, j);
    ReplaceFlat(t, j, c);
    assert Flat(t) == p + a + [m] + b + q by {
      Focus(t, j);
      Join3(p, a, m, b, q);
    }
    Glue(p, a, b, q);
    CutOut(p, a, m, b, q);
    RemoveAt(Flat(t), |p + a|, m);
  }

  /** Deleting getPred's key from a subtree drops the last element of its walk. */
  lemma {:induction false} DropLast(c: Tree, e: nat)
    requires WellShaped(c, e) && |c.keys| >= 1 && Sorted(Flat(c))
    ensures Flat(c) == Flat(DeleteNode(c, Rightmost(c, e), e)) + [Rightmost(c, e)]
    decreases e, 3
  {
    DeleteFlat(c, Rightmost(c, e), e);
    RightmostLast(c, e);
    RemoveLast(Flat(c), Rightmost(c, e));
  }

  /** Deleting getSucc's key from a subtree drops the first element of its walk. */
  lemma {:induction false} DropFirst(c: Tree, e: nat)
    requires WellShaped(c, e) && |c.keys| >= 1 && Sorted(Flat(c))
    ensures Flat(c) == [Leftmost(c, e)] + Flat(DeleteNode(c, Leftmost(c, e), e))
    decreases e, 3
  {
    DeleteFlat(c, Leftmost(c, e), e);
    LeftmostFirst(c, e);
    RemoveFirst(Flat(c), Leftmost(c, e));
  }

  /** Deleting the separator from a merged child drops it from between the two halves. */
  lemma {:induction false} DropSeparator(c: Tree, a: seq<int>, m: int, b: seq<int>, e: nat)
    requires WellShaped(c, e) && |c.keys| >= 1 && Sorted(Flat(c)) && Flat(c) == a + [m] + b
    ensures Flat(DeleteNode(c, m, e)) == a + b
    decreases e, 3
  {
    DeleteFlat(c, m, e);
    RemoveSeparator(a, m, b);
  }

  /** The predecessor case: keys[idx] is overwritten by the last key of
      child idx, which is then deleted from that child. */
  lemma {:induction false} PredFlat(t: Tree, idx: int, d: nat)
    requires d > 0 && WellShaped(t, d) && 0 <= idx < |t.keys| && Sorted(Flat(t))
    requires |t.children[idx].keys| >= T
    ensures Flat(RemoveFromNonLeaf(t, idx, d)) == RemoveOne(Flat(t), t.keys[idx])
    decreases d, 0
  {
    var c := t.children[idx];
    ChildOf(t, d, idx);
    var pred := Rightmost(c, d - 1);
    var c' := DeleteNode(c, pred, d - 1);
    assert Flat(c) == Flat(c') + [pred] by {
      ChildSorted(t, idx);
      DropLast(c, d - 1);
    }
    var t' := Node(t.keys[idx := pred], t.children);
    assert DeleteChild(t', idx, pred, d) == Node(t'.keys, t.children[idx := c']);
    assert RemoveFromNonLeaf(t, idx, d) == DeleteChild(t', idx, pred, d);
    ReplaceLeftKey(t, idx, pred, c');
  }

  /** The successor case: keys[idx] is overwritten by the first key of
      child idx+1, which is then deleted from that child. */
  lemma {:induction false} SuccFlat(t: Tree, idx: int, d: nat)
    requires d > 0 && WellShaped(t, d) && 0 <= idx < |t.keys| && Sorted(Flat(t))
    requires |t.children[idx].keys| < T && |t.children[idx + 1].keys| >= T
    ensures Flat(RemoveFromNonLeaf(t, idx, d)) == RemoveOne(Flat(t), t.keys[idx])
    decreases d, 0
  {
    var s := t.children[idx + 1];
    ChildOf(t, d, idx + 1);
    var succ := Leftmost(s, d - 1);
    var s' := DeleteNode(s, succ, d - 1);
    assert Flat(s) == [succ] + Flat(s') by {
      ChildSorted(t, idx + 1);
      DropFirst(s, d - 1);
    }
    var t' := Node(t.keys[idx := succ], t.children);
    assert DeleteChild(t', idx + 1, succ, d) == Node(t'.keys, t.children[idx + 1 := s']);
    assert RemoveFromNonLeaf(t, idx, d) == DeleteChild(t', idx + 1, succ, d);
    ReplaceRightKey(t, idx, succ, s');
  }

  /** The merged child walks to the two old children around the separator. */
  lemma MergedChild(t: Tree, idx: int, d: nat)
    requires d > 0 && WellShaped(t, d) && 0 <= idx < |t.keys|
    ensures Flat(Merge(t, idx)) == Flat(t)
    ensures Flat(Merge(t, idx).children[idx]) == Flat(t.children[idx]) + [t.keys[idx]] + Flat(t.children[idx + 1])
  {
    SiblingsSameKind(t, d, idx, idx + 1);
    MergeFlat(t, idx);
    MergeParts(t, idx);
    JoinFlat(t.children[idx], t.keys[idx], t.children[idx + 1]);
  }

  /** The merge case: both neighbours of keys[idx] hold T-1 keys; they are
      merged around it and it is deleted from the merged child. */
  lemma {:induction false} MergeDeleteFlat(t: Tree, idx: int, d: nat)
    requires d > 0 && WellShaped(t, d) && 0 <= idx < |t.keys| && Sorted(Flat(t))
    requires |t.children[idx].keys| < T && |t.children[idx + 1].keys| < T
    ensures Flat(RemoveFromNonLeaf(t, idx, d)) == RemoveOne(Flat(t), t.keys[idx])
    decreases d, 0
  {
    var m := t.keys[idx];
    var fc, fs := Flat(t.children[idx]), Flat(t.children[idx + 1]);
    var t1 := Merge(t, idx);
    var j := t1.children[idx];
    MergePrep(t, idx, d);
    var j' := DeleteNode(j, m, d - 1);
    DropSeparator(j, fc, m, fs, d - 1);
    assert DeleteChild(t1, idx, m, d) == Node(t1.keys, t1.children[idx := j']);
    ReplaceDropKey(t1, idx, fc, m, fs, j');
  }

  /** The merged tree and its merged child, ready for the descent. */
  lemma MergePrep(t: Tree, idx: int, d: nat)
    requires d > 0 && WellShaped(t, d) && 0 <= idx < |t.keys| && Sorted(Flat(t))
    requires |t.children[idx].keys| < T && |t.children[idx + 1].keys| < T
    ensures var t1 := Merge(t, idx); var j := t1.children[idx];
      && WellShaped(t1, d) && idx < |t1.children| && Sorted(Flat(t1)) && Flat(t1) == Flat(t)
      && WellShaped(j, d - 1) && |j.keys| == 2 * T - 1 && Sorted(Flat(j))
      && Flat(j) == Flat(t.children[idx]) + [t.keys[idx]] + Flat(t.children[idx + 1])
      && RemoveFromNonLeaf(t, idx, d) == DeleteChild(t1, idx, t.keys[idx], d)
  {
    var t1 := Merge(t, idx);
    var j := t1.children[idx];
    assert WellShaped(t1, d) && |j.keys| == 2 * T - 1 by {
      ChildOf(t, d, idx);
      ChildOf(t, d, idx + 1);
      MergeShape(t, idx, d);
    }
    assert Flat(t1) == Flat(t) && Flat(j) == Flat(t.children[idx]) + [t.keys[idx]] + Flat(t.children[idx + 1]) by {
      ChildOf(t, d, idx);
      ChildOf(t, d, idx + 1);
      MergedChild(t, idx, d);
    }
    ChildOf(t1, d, idx);
    ChildSorted(t1, idx);
  }

  // ---------------------------------------------------------------------
  // delete (btree.c:274-290)
  // ---------------------------------------------------------------------

  /** The *root variable of btree.c: NULL, or a tree of a known height. */
  datatype Handle = Null | Root(tree: Tree, height: nat)

  predicate ValidHandle(h: Handle)
  {
    h.Null? || RootOk(h.tree, h.height)
  }

  function Elements(h: Handle): seq<int>
  {
    if h.Null? then [] else Flat(h.tree)
  }

  /** The root replacement at the end of delete: a root left with no keys
      gives way to its only child, or to NULL when it is a leaf. */
  function Shrink(t: Tree, d: nat): Handle
    requires WellShaped(t, d)
  {
    if |t.keys| == 0 then
      if t.children == [] then Null else Root(t.children[0], d - 1)
    else Root(t, d)
  }

  /** delete(root, k) (btree.c:274-290). */
  function Delete(h: Handle, k: int): Handle
    requires ValidHandle(h)
  {
    if h.Null? then Null else Shrink(DeleteNode(h.tree, k, h.height), h.height)
  }

  /** The replaced root keeps the invariant, the key sequence, and a height
      at most one lower. */
  lemma ShrinkCorrect(t: Tree, d: nat)
    requires WellShaped(t, d) && Sorted(Flat(t))
    ensures ValidHandle(Shrink(t, d)) && Elements(Shrink(t, d)) == Flat(t)
    ensures Shrink(t, d).Root? ==> d - 1 <= Shrink(t, d).height <= d
  {
    if |t.keys| == 0 && t.children != [] {
      ChildOf(t, d, 0);
      FlatNode(t);
    }
  }

  /** delete keeps the tree invariant and removes exactly one occurrence of
      k from the key sequence when k is present, nothing otherwise; the
      height drops by at most one. */
  lemma DeleteCorrect(h: Handle, k: int)
    requires ValidHandle(h)
    ensures ValidHandle(Delete(h, k))
    ensures Elements(Delete(h, k)) == RemoveOne(Elements(h), k)
    ensures k in Elements(h) ==> multiset(Elements(Delete(h, k))) == multiset(Elements(h)) - multiset{k}
    ensures k !in Elements(h) ==> Elements(Delete(h, k)) == Elements(h)
    ensures h.Root? && Delete(h, k).Root? ==> h.height - 1 <= Delete(h, k).height <= h.height
  {
    if h.Root? {
      var t := DeleteNode(h.tree, k, h.height);
      DeleteFlat(h.tree, k, h.height);
      RemoveOneCorrect(Flat(h.tree), k);
      ShrinkCorrect(t, h.height);
    }
  }
}
