// The three array moves both trees are built from, as functions on the
// whole array (the C loops that open a slot, close a slot, and copy a run
// of entries from one node into another), and the shifting scan both
// trees run to put a key into a leaf.
module Shifts {
  /** for (j = hi - 1; j >= lo; j--) a[j + 1] = a[j]: the entries
      a[lo..hi) move one slot right; a[lo] keeps its old value. */
  function ShiftR<A>(s: seq<A>, lo: int, hi: int): (r: seq<A>)
    requires 0 <= lo <= hi < |s|
    ensures |r| == |s|
    ensures forall t {:trigger r[t]} :: 0 <= t < |s| ==> r[t] == if lo < t <= hi then s[t - 1] else s[t]
  {
    s[..lo + 1] + s[lo..hi] + s[hi + 1..]
  }

  /** for (j = lo + 1; j < hi; j++) a[j - 1] = a[j]: the entries
      a[lo+1..hi) move one slot left over a[lo]; a[hi-1] keeps its value. */
  function ShiftL<A>(s: seq<A>, lo: int, hi: int): (r: seq<A>)
    requires 0 <= lo < hi <= |s|
    ensures |r| == |s|
    ensures forall t {:trigger r[t]} :: 0 <= t < |s| ==> r[t] == if lo <= t < hi - 1 then s[t + 1] else s[t]
  {
    s[..lo] + s[lo + 1..hi] + s[hi - 1..]
  }

  /** for (j = 0; j < m; j++) dst[at + j] = src[from + j]. */
  function Blit<A>(dst: seq<A>, at: int, src: seq<A>, from: int, m: int): (r: seq<A>)
    requires 0 <= at && 0 <= m && at + m <= |dst| && 0 <= from && from + m <= |src|
    ensures |r| == |dst|
    ensures forall t {:trigger r[t]} :: 0 <= t < |dst| ==> r[t] == if at <= t < at + m then src[t - at + from] else dst[t]
  {
    dst[..at] + src[from..from + m] + dst[at + m..]
  }

  /** Opening slot i of the live prefix s[..n] and writing v there inserts v
      at position i of that prefix. */
  lemma OpenSlot<A>(s: seq<A>, i: int, n: int, v: A)
    requires 0 <= i <= n < |s|
    ensures ShiftR(s, i, n)[i := v][..n + 1] == s[..i] + [v] + s[i..n]
  {
    var r := ShiftR(s, i, n)[i := v];
    var w := s[..i] + [v] + s[i..n];
    assert |r[..n + 1]| == |w|;
    forall t | 0 <= t <= n ensures r[t] == w[t] {
      if t < i {
        assert w[t] == s[t];
      } else if t > i {
        assert w[t] == s[i..n][t - i - 1];
      }
    }
  }

  /** Closing slot i of the live prefix s[..n] removes position i from it. */
  lemma CloseSlot<A>(s: seq<A>, i: int, n: int)
    requires 0 <= i < n <= |s|
    ensures ShiftL(s, i, n)[..n - 1] == s[..i] + s[i + 1..n]
  {
    var r := ShiftL(s, i, n);
    var w := s[..i] + s[i + 1..n];
    assert |r[..n - 1]| == |w|;
    forall t | 0 <= t < n - 1 ensures r[t] == w[t] {
      if t < i {
        assert w[t] == s[t];
      } else {
        assert w[t] == s[i + 1..n][t - i];
      }
    }
  }

  /** One more step of the right-shift loop, which runs downwards. */
  lemma ShiftRStep<A>(s: seq<A>, lo: int, hi: int)
    requires 0 < lo <= hi < |s|
    ensures ShiftR(s, lo, hi)[lo := s[lo - 1]] == ShiftR(s, lo - 1, hi)
  {
  }

  /** One more step of the left-shift loop, which runs upwards. */
  lemma ShiftLStep<A>(s: seq<A>, lo: int, i: int)
    requires 0 <= lo < i < |s|
    ensures ShiftL(s, lo, i)[i - 1 := s[i]] == ShiftL(s, lo, i + 1)
  {
  }

  /** One more step of the copy loop. */
  lemma BlitStep<A>(dst: seq<A>, at: int, src: seq<A>, from: int, m: int)
    requires 0 <= at && 0 <= m && at + m < |dst| && 0 <= from && from + m < |src|
    ensures Blit(dst, at, src, from, m)[at + m := src[from + m]] == Blit(dst, at, src, from, m + 1)
  {
  }

  /** The copy reads src only at from..from+m. */
  lemma BlitSrc<A>(dst: seq<A>, at: int, src: seq<A>, src': seq<A>, from: int, m: int)
    requires 0 <= at && 0 <= m && at + m <= |dst| && 0 <= from && from + m <= |src| && from + m <= |src'|
    requires src[from..from + m] == src'[from..from + m]
    ensures Blit(dst, at, src, from, m) == Blit(dst, at, src', from, m)
  {
  }

  /** An array that agrees with s left of lo, holds s[t-1] at each t in
      lo+1..hi and agrees with s right of hi is ShiftR(s, lo, hi). */
  lemma ShiftRFrom<A>(s: seq<A>, a: seq<A>, lo: int, hi: int)
    requires 0 <= lo <= hi < |s| && |a| == |s|
    requires forall t {:trigger a[t]} :: 0 <= t <= lo ==> a[t] == s[t]
    requires forall t {:trigger a[t]} :: lo < t <= hi ==> a[t] == s[t - 1]
    requires forall t {:trigger a[t]} :: hi < t < |s| ==> a[t] == s[t]
    ensures a == ShiftR(s, lo, hi)
  {
    var r := ShiftR(s, lo, hi);
    forall t | 0 <= t < |s| ensures a[t] == r[t] {
    }
  }

  /** The loop of btree.c:62-65 and bplustree.c:69-72 on the key array s
      with n live keys: from the right, each key greater than k moves one
      slot right; i is where the scan stops. */
  method ScanRight(s: seq<int>, n: int, k: int) returns (a: seq<int>, i: int)
    requires 0 <= n < |s|
    ensures -1 <= i < n
    ensures forall t :: i < t < n ==> s[t] > k
    ensures i >= 0 ==> s[i] <= k
    ensures a == ShiftR(s, i + 1, n)
  {
    a := s;
    i := n - 1;
    while i >= 0 && a[i] > k
      invariant -1 <= i <= n - 1 && |a| == |s|
      invariant forall t {:trigger a[t]} :: 0 <= t <= i + 1 ==> a[t] == s[t]
      invariant forall t {:trigger a[t]} :: i + 1 < t <= n ==> a[t] == s[t - 1] && a[t] > k
      invariant forall t {:trigger a[t]} :: n < t < |s| ==> a[t] == s[t]
    {
      a := a[i + 1 := a[i]];
      i := i - 1;
    }
    forall t | i < t < n ensures s[t] > k {
      assert a[t + 1] == s[t];
    }
    ghost var lo := i + 1;
    ShiftRFrom(s, a, lo, n);
    assert a == ShiftR(s, lo, n);
  }

  /** Before the first step the loops have moved nothing. */
  lemma ShiftRNone<A>(s: seq<A>, hi: int)
    requires 0 <= hi < |s|
    ensures ShiftR(s, hi, hi) == s
  {
  }

  lemma ShiftLNone<A>(s: seq<A>, lo: int)
    requires 0 <= lo < |s|
    ensures ShiftL(s, lo, lo + 1) == s
  {
  }

  lemma BlitNone<A>(dst: seq<A>, at: int, src: seq<A>, from: int)
    requires 0 <= at <= |dst| && 0 <= from <= |src|
    ensures Blit(dst, at, src, from, 0) == dst
  {
  }
}
