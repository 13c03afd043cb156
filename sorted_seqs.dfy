// Sorted integer sequences: the in-order key sequence of a search tree and the
// live prefix keys[0..n) of one node. The two scans below are the ones the
// trees run: insertion scans from the right past every key greater than the
// new one, search and deletion scan from the left past every smaller key.
module SortedSeqs {

  /** Non-decreasing: duplicate keys are allowed, as insertion never rejects one. */
  predicate Sorted(s: seq<int>)
  {
    forall i, j :: 0 <= i < j < |s| ==> s[i] <= s[j]
  }

  /** The slot the right-to-left insertion scan stops at: every element from
      there on is greater than k, and the element just before it is not. */
  function UpperIdx(s: seq<int>, k: int): (u: nat)
    ensures u <= |s|
    ensures forall j :: u <= j < |s| ==> s[j] > k
    ensures u > 0 ==> s[u - 1] <= k
  {
    if |s| == 0 then 0
    else if s[|s| - 1] > k then UpperIdx(s[..|s| - 1], k)
    else |s|
  }

  /** The stopping point of the right-to-left scan, told by what lies on
      either side of it, is UpperIdx. */
  lemma {:induction false} UpperIdxAt(s: seq<int>, k: int, u: int)
    requires 0 <= u <= |s| && (forall t :: u <= t < |s| ==> s[t] > k) && (u > 0 ==> s[u - 1] <= k)
    ensures UpperIdx(s, k) == u
    decreases |s|
  {
    if u < |s| {
      UpperIdxAt(s[..|s| - 1], k, u);
    }
  }

  /** The index the left-to-right scan stops at: every element before it is
      smaller than k, and the element there (if any) is not. */
  function LowerIdx(s: seq<int>, k: int): (l: nat)
    ensures l <= |s|
    ensures forall j :: 0 <= j < l ==> s[j] < k
    ensures l < |s| ==> s[l] >= k
  {
    if |s| == 0 || s[0] >= k then 0
    else 1 + LowerIdx(s[1..], k)
  }

  /** The stopping point of the left-to-right scan, told by what lies on
      either side of it, is LowerIdx. */
  lemma {:induction false} LowerIdxAt(s: seq<int>, k: int, l: int)
    requires 0 <= l <= |s| && (forall t :: 0 <= t < l ==> s[t] < k) && (l < |s| ==> s[l] >= k)
    ensures LowerIdx(s, k) == l
    decreases |s|
  {
    if l > 0 {
      LowerIdxAt(s[1..], k, l - 1);
    }
  }

  /** k placed where the right-to-left scan stops: after every element <= k. */
  function InsertKey(s: seq<int>, k: int): seq<int>
  {
    s[..UpperIdx(s, k)] + [k] + s[UpperIdx(s, k)..]
  }

  /** The first occurrence of k removed, if the left-to-right scan finds one. */
  function RemoveOne(s: seq<int>, k: int): seq<int>
  {
    var l := LowerIdx(s, k);
    if l < |s| && s[l] == k then s[..l] + s[l + 1..] else s
  }

  lemma SortedSlice(s: seq<int>, i: int, j: int)
    requires Sorted(s) && 0 <= i <= j <= |s|
    ensures Sorted(s[i..j])
  {
  }

  /** On a sorted sequence the left-to-right scan decides membership. */
  lemma LowerIdxFinds(s: seq<int>, k: int)
    requires Sorted(s)
    ensures (k in s) <==> (LowerIdx(s, k) < |s| && s[LowerIdx(s, k)] == k)
  {
    var l := LowerIdx(s, k);
    if k in s {
      var i :| 0 <= i < |s| && s[i] == k;
      assert l <= i;
      assert s[l] <= s[i];
    }
  }

  lemma InsertKeyAt(s: seq<int>, k: int, i: int)
    requires 0 <= i <= |s|
    ensures |InsertKey(s, k)| == |s| + 1
    ensures var u := UpperIdx(s, k);
      InsertKey(s, k)[i] == if i < u then s[i] else if i == u then k else s[i - 1]
  {
  }

  /** Insertion keeps the sequence sorted and adds exactly one k. */
  lemma InsertKeyCorrect(s: seq<int>, k: int)
    ensures multiset(InsertKey(s, k)) == multiset(s) + multiset{k}
    ensures |InsertKey(s, k)| == |s| + 1
    ensures Sorted(s) ==> Sorted(InsertKey(s, k))
  {
    var u := UpperIdx(s, k);
    var a, b := s[..u], s[u..];
    assert s == a + b;
    MultisetPut(a, k, b);
    if Sorted(s) {
      InsertKeySorted(s, k);
    }
  }

  lemma MultisetPut(a: seq<int>, k: int, b: seq<int>)
    ensures multiset(a + [k] + b) == multiset(a + b) + multiset{k}
  {
    assert a + [k] + b == a + ([k] + b);
  }

  lemma InsertKeySorted(s: seq<int>, k: int)
    requires Sorted(s)
    ensures Sorted(InsertKey(s, k))
  {
    var u := UpperIdx(s, k);
    var r := InsertKey(s, k);
    forall i, j | 0 <= i < j < |r| ensures r[i] <= r[j] {
      InsertKeyAt(s, k, i);
      InsertKeyAt(s, k, j);
      if i < u && j > u { assert s[i] <= s[j - 1]; }
      if i > u { assert s[i - 1] <= s[j - 1]; }
    }
  }

  /** Removal keeps the sequence sorted and takes away exactly one k when k
      is present, and changes nothing when it is absent. */
  lemma RemoveOneCorrect(s: seq<int>, k: int)
    requires Sorted(s)
    ensures Sorted(RemoveOne(s, k))
    ensures k in s ==> multiset(RemoveOne(s, k)) == multiset(s) - multiset{k}
    ensures k in s ==> |RemoveOne(s, k)| == |s| - 1
    ensures k !in s ==> RemoveOne(s, k) == s
  {
    LowerIdxFinds(s, k);
    var l := LowerIdx(s, k);
    if l < |s| && s[l] == k {
      RemoveIdx(s, l);
    }
  }

  /** Dropping one element of a sorted sequence keeps it sorted. */
  lemma RemoveIdx(s: seq<int>, l: int)
    requires Sorted(s) && 0 <= l < |s|
    ensures Sorted(s[..l] + s[l + 1..])
    ensures multiset(s[..l] + s[l + 1..]) == multiset(s) - multiset{s[l]}
  {
    var r := s[..l] + s[l + 1..];
    assert s == s[..l] + [s[l]] + s[l + 1..];
    forall i, j | 0 <= i < j < |r| ensures r[i] <= r[j] {
      if j < l {
        assert r[i] == s[i] && r[j] == s[j];
      } else if i < l {
        assert r[i] == s[i] && r[j] == s[j + 1];
      } else {
        assert r[i] == s[i + 1] && r[j] == s[j + 1];
      }
    }
  }

  /** In a sorted sequence, putting k at any slot with nothing greater before
      it and nothing smaller after it gives the same sequence as InsertKey. */
  lemma {:induction false} InsertAt(s: seq<int>, p: int, k: int)
    requires Sorted(s) && 0 <= p <= |s|
    requires forall i :: 0 <= i < p ==> s[i] <= k
    requires forall i :: p <= i < |s| ==> k <= s[i]
    ensures s[..p] + [k] + s[p..] == InsertKey(s, k)
  {
    var u := UpperIdx(s, k);
    assert p <= u by { if u < |s| { assert s[u] > k; } }
    var a, b := s[..p] + [k] + s[p..], InsertKey(s, k);
    assert |a| == |b|;
    forall i | 0 <= i < |a| ensures a[i] == b[i] {
      if i < p {
      } else if i == p {
        if p < u { assert s[p] == k; }
      } else if i <= u {
        assert a[i] == s[i - 1];
        assert s[i - 1] == k;
      } else {
      }
    }
  }

  lemma SliceAround(s: seq<int>, lo: int, p: int, hi: int)
    requires 0 <= lo <= p <= hi <= |s|
    ensures s[..p] == s[..lo] + s[lo..hi][..p - lo]
    ensures s[p..] == s[lo..hi][p - lo..] + s[hi..]
  {
  }

  /** Insertion into the slice s[lo..hi] of a sorted sequence, when nothing
      before the slice is greater than k and nothing after it is smaller. */
  lemma InsertMiddleIdx(s: seq<int>, lo: int, hi: int, k: int)
    requires Sorted(s) && 0 <= lo <= hi <= |s|
    requires forall i :: 0 <= i < lo ==> s[i] <= k
    requires forall i :: hi <= i < |s| ==> k <= s[i]
    ensures InsertKey(s, k) == s[..lo] + InsertKey(s[lo..hi], k) + s[hi..]
  {
    var b := s[lo..hi];
    var ub := UpperIdx(b, k);
    var p := lo + ub;
    forall i | lo <= i < p ensures s[i] <= k {
      assert s[i] == b[i - lo] && b[ub - 1] == s[p - 1];
    }
    forall i | p <= i < hi ensures k <= s[i] {
      assert s[i] == b[i - lo];
    }
    InsertAt(s, p, k);
    InsertAssemble(s, lo, hi, ub, k);
  }

  lemma InsertAssemble(s: seq<int>, lo: int, hi: int, ub: int, k: int)
    requires 0 <= lo <= lo + ub <= hi <= |s|
    ensures var b := s[lo..hi];
      s[..lo + ub] + [k] + s[lo + ub..] == s[..lo] + (b[..ub] + [k] + b[ub..]) + s[hi..]
  {
    var b := s[lo..hi];
    SliceAround(s, lo, lo + ub, hi);
    Regroup(s[..lo], b[..ub], [k], b[ub..], s[hi..]);
  }

  lemma Regroup(a: seq<int>, b: seq<int>, m: seq<int>, c: seq<int>, e: seq<int>)
    ensures (a + b) + m + (c + e) == a + (b + m + c) + e
    ensures a + b + m + c + e == a + (b + m + c) + e
  {
  }

  /** Insertion into the middle part of a sorted concatenation, when k belongs
      between the outer parts. */
  lemma InsertMiddle(a: seq<int>, b: seq<int>, c: seq<int>, k: int)
    requires Sorted(a + b + c)
    requires forall x :: x in a ==> x <= k
    requires forall x :: x in c ==> k <= x
    ensures InsertKey(a + b + c, k) == a + InsertKey(b, k) + c
  {
    var s := a + b + c;
    forall i | 0 <= i < |a| ensures s[i] <= k {
      assert s[i] == a[i] && a[i] in a;
    }
    forall i | |a| + |b| <= i < |s| ensures k <= s[i] {
      assert s[i] == c[i - |a| - |b|] && c[i - |a| - |b|] in c;
    }
    InsertMiddleIdx(s, |a|, |a| + |b|, k);
    assert s[..|a|] == a && s[|a|..|a| + |b|] == b && s[|a| + |b|..] == c;
  }

  /** In a sorted sequence, removing any occurrence of k gives RemoveOne. */
  lemma RemoveAt(s: seq<int>, i: int, k: int)
    requires Sorted(s) && 0 <= i < |s| && s[i] == k
    ensures s[..i] + s[i + 1..] == RemoveOne(s, k)
  {
    var l := LowerIdx(s, k);
    assert l <= i;
    assert s[l] == k by { assert s[l] <= s[i]; }
    var a, b := s[..i] + s[i + 1..], s[..l] + s[l + 1..];
    assert |a| == |b|;
    forall j | 0 <= j < |a| ensures a[j] == b[j] {
      if j < l {
      } else if j < i {
        assert a[j] == s[j] && b[j] == s[j + 1];
        assert s[l] <= s[j] <= s[j + 1] <= s[i];
      } else {
      }
    }
  }

  /** Removal from the slice s[lo..hi] of a sorted sequence: everything
      before the slice is smaller than k, and k is in the slice or everything
      after it is greater. */
  lemma RemoveMiddleIdx(s: seq<int>, lo: int, hi: int, k: int)
    requires Sorted(s) && 0 <= lo <= hi <= |s|
    requires forall i :: 0 <= i < lo ==> s[i] < k
    requires k in s[lo..hi] || forall i :: hi <= i < |s| ==> k < s[i]
    ensures RemoveOne(s, k) == s[..lo] + RemoveOne(s[lo..hi], k) + s[hi..]
  {
    if k in s[lo..hi] {
      RemoveMiddleFound(s, lo, hi, k);
    } else {
      RemoveMiddleAbsent(s, lo, hi, k);
    }
  }

  lemma RemoveMiddleFound(s: seq<int>, lo: int, hi: int, k: int)
    requires Sorted(s) && 0 <= lo <= hi <= |s|
    requires k in s[lo..hi]
    ensures RemoveOne(s, k) == s[..lo] + RemoveOne(s[lo..hi], k) + s[hi..]
  {
    var b := s[lo..hi];
    var l := FoundAt(s, lo, hi, k);
    RemoveAt(s, lo + l, k);
    RemoveAssemble(s, lo, lo + l, hi);
  }

  lemma FoundAt(s: seq<int>, lo: int, hi: int, k: int) returns (l: int)
    requires Sorted(s) && 0 <= lo <= hi <= |s|
    requires k in s[lo..hi]
    ensures 0 <= l < hi - lo && s[lo + l] == k
    ensures RemoveOne(s[lo..hi], k) == s[lo..hi][..l] + s[lo..hi][l + 1..]
  {
    var b := s[lo..hi];
    SortedSlice(s, lo, hi);
    LowerIdxFinds(b, k);
    l := LowerIdx(b, k);
    assert s[lo + l] == b[l];
  }

  lemma RemoveMiddleAbsent(s: seq<int>, lo: int, hi: int, k: int)
    requires 0 <= lo <= hi <= |s|
    requires forall i :: 0 <= i < lo ==> s[i] < k
    requires k !in s[lo..hi] && forall i :: hi <= i < |s| ==> k < s[i]
    ensures RemoveOne(s, k) == s[..lo] + RemoveOne(s[lo..hi], k) + s[hi..]
  {
    var b := s[lo..hi];
    forall i | 0 <= i < |s| ensures s[i] != k {
      if lo <= i < hi { assert s[i] == b[i - lo]; }
    }
    RemoveAbsent(s, k);
    RemoveAbsent(b, k);
    SliceAround(s, lo, lo, hi);
  }

  lemma RemoveAbsent(s: seq<int>, k: int)
    requires k !in s
    ensures RemoveOne(s, k) == s
  {
    var l := LowerIdx(s, k);
    if l < |s| { assert s[l] in s; }
  }

  lemma RemoveAssemble(s: seq<int>, lo: int, i: int, hi: int)
    requires 0 <= lo <= i < hi <= |s|
    ensures var b := s[lo..hi];
      s[..i] + s[i + 1..] == s[..lo] + (b[..i - lo] + b[i - lo + 1..]) + s[hi..]
  {
    SliceAround(s, lo, i, hi);
    SliceAround(s, lo, i + 1, hi);
  }

  /** Removal from the middle part of a sorted concatenation: everything in
      the left part is smaller than k, and k is in the middle part or
      everything in the right part is greater. */
  lemma RemoveMiddle(a: seq<int>, b: seq<int>, c: seq<int>, k: int)
    requires Sorted(a + b + c)
    requires forall x :: x in a ==> x < k
    requires k in b || forall x :: x in c ==> k < x
    ensures RemoveOne(a + b + c, k) == a + RemoveOne(b, k) + c
  {
    var s := a + b + c;
    forall i | 0 <= i < |a| ensures s[i] < k {
      assert s[i] == a[i] && a[i] in a;
    }
    assert s[..|a|] == a && s[|a|..|a| + |b|] == b && s[|a| + |b|..] == c;
    if k !in b {
      forall i | |a| + |b| <= i < |s| ensures k < s[i] {
        assert s[i] == c[i - |a| - |b|] && c[i - |a| - |b|] in c;
      }
    }
    RemoveMiddleIdx(s, |a|, |a| + |b|, k);
  }

  /** Removing the last element of a sorted sequence by value. */
  lemma RemoveLast(s: seq<int>, k: int)
    requires Sorted(s) && |s| > 0 && s[|s| - 1] == k
    ensures s == RemoveOne(s, k) + [k]
  {
    RemoveAt(s, |s| - 1, k);
    assert s == s[..|s| - 1] + [k];
  }

  /** Removing the first element of a sorted sequence by value. */
  lemma RemoveFirst(s: seq<int>, k: int)
    requires Sorted(s) && |s| > 0 && s[0] == k
    ensures s == [k] + RemoveOne(s, k)
  {
    RemoveAt(s, 0, k);
    assert s == [k] + s[1..];
  }

  /** Removing a separator from between two parts of a sorted sequence. */
  lemma RemoveSeparator(a: seq<int>, k: int, b: seq<int>)
    requires Sorted(a + [k] + b)
    ensures RemoveOne(a + [k] + b, k) == a + b
  {
    var s := a + [k] + b;
    assert s[..|a|] == a && s[|a| + 1..] == b;
    RemoveAt(s, |a|, k);
  }
}
