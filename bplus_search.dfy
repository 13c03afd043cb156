// search (bplustree.c:105-118) as a function over the arena: it reads
// records only. The B+ split copies the median up, so a key can sit in an
// internal node as well as in its leaf; search stops at the first node on
// its way down that holds it, which may be an internal one.
module BPlusSearch {
  import opened SortedSeqs
  import opened BPlusHeap

  /** What search returns: NULL, or the node and the *index it writes. */
  datatype Found = Missing | Found(node: Ptr, index: int)

  /** The scan of bplustree.c:107-109: the first live key that is not
      below k, or n. */
  function Scan(r: Rec, k: int): (i: int)
    requires Fits(r)
    ensures 0 <= i <= r.n
    ensures forall j :: 0 <= j < i ==> r.keys[j] < k
    ensures i < r.n ==> r.keys[i] >= k
  {
    LowerIdx(r.keys[..r.n], k)
  }

  /** The node holds k where the scan stops (bplustree.c:110). */
  predicate Hit(r: Rec, k: int)
    requires Fits(r)
  {
    Scan(r, k) < r.n && r.keys[Scan(r, k)] == k
  }

  /** search(x, k, &index): stop where the scan finds k, give up at a leaf,
      and otherwise go down into child i. */
  function Search(h: Heap, rank: seq<nat>, root: Ptr, height: nat, x: Ptr, k: int): (r: Found)
    requires Arena(h, rank, root, height) && Live(h, rank, height, x)
    ensures r.Found? ==> 0 <= r.node < |h| && Fits(h[r.node]) && 0 <= r.index < h[r.node].n && h[r.node].keys[r.index] == k
    decreases rank[x]
  {
    LiveOk(h, rank, root, height, x);
    var i := Scan(h[x], k);
    if i < h[x].n && h[x].keys[i] == k then Found(x, i)
    else if h[x].leaf then Missing
    else
      Kid(h, rank, root, height, x, i);
      Search(h, rank, root, height, h[x].C[i], k)
  }

  /** The nodes the descent for k passes through from x when it does not
      stop early: at each node the child the scan picks, down to a leaf,
      one node per level. */
  function Path(h: Heap, rank: seq<nat>, root: Ptr, height: nat, x: Ptr, k: int): (p: seq<Ptr>)
    requires Arena(h, rank, root, height) && Live(h, rank, height, x)
    ensures |p| == rank[x] + 1 && p[0] == x
    ensures forall j :: 0 <= j < |p| ==>
      && Live(h, rank, height, p[j]) && Fits(h[p[j]]) && rank[p[j]] + j == rank[x]
      && (h[p[j]].leaf <==> j == |p| - 1)
      && (j < |p| - 1 ==> p[j + 1] == h[p[j]].C[Scan(h[p[j]], k)])
    decreases rank[x]
  {
    LiveOk(h, rank, root, height, x);
    if h[x].leaf then [x]
    else
      var c := h[x].C[Scan(h[x], k)];
      Kid(h, rank, root, height, x, Scan(h[x], k));
      var q := Path(h, rank, root, height, c, k);
      forall j | 0 <= j < |q| ensures h[q[j]].leaf <==> rank[q[j]] == 0 {
        LiveOk(h, rank, root, height, q[j]);
      }
      [x] + q
  }

  /** The place of the first node on p that holds k where its scan
      stops, or |p| when none does. */
  function FirstHit(h: Heap, p: seq<Ptr>, k: int): (j: int)
    requires forall j :: 0 <= j < |p| ==> 0 <= p[j] < |h| && Fits(h[p[j]])
    ensures 0 <= j <= |p|
    ensures forall i :: 0 <= i < j ==> !Hit(h[p[i]], k)
    ensures j < |p| ==> Hit(h[p[j]], k)
  {
    if |p| == 0 then 0
    else if Hit(h[p[0]], k) then 0
    else 1 + FirstHit(h, p[1..], k)
  }

  /** search finds k exactly when the scan of some node on the descent
      path stops on a key equal to k (`Hit`), and then it returns the first
      such node and that position: it does not go on to the leaf. On a node
      with sorted live keys a hit is the same as holding k (`HitSorted`). */
  lemma {:induction false} SearchFirst(h: Heap, rank: seq<nat>, root: Ptr, height: nat, x: Ptr, k: int)
    requires Arena(h, rank, root, height) && Live(h, rank, height, x)
    ensures var p, r := Path(h, rank, root, height, x, k), Search(h, rank, root, height, x, k);
      var j := FirstHit(h, p, k);
      && (r.Found? <==> j < |p|)
      && (r.Found? ==> r.node == p[j] && r.index == Scan(h[p[j]], k))
    decreases rank[x]
  {
    LiveOk(h, rank, root, height, x);
    if !Hit(h[x], k) && !h[x].leaf {
      var c := h[x].C[Scan(h[x], k)];
      Kid(h, rank, root, height, x, Scan(h[x], k));
      SearchFirst(h, rank, root, height, c, k);
      PassOn(h, Path(h, rank, root, height, x, k), Path(h, rank, root, height, c, k), k,
             Search(h, rank, root, height, x, k));
    }
  }

  /** Putting a node that does not hold k in front of a path moves its
      first hit one place on. */
  lemma PassOn(h: Heap, p: seq<Ptr>, q: seq<Ptr>, k: int, r: Found)
    requires forall j :: 0 <= j < |p| ==> 0 <= p[j] < |h| && Fits(h[p[j]])
    requires |p| >= 1 && p[1..] == q && !Hit(h[p[0]], k)
    requires (r.Found? <==> FirstHit(h, q, k) < |q|)
    requires r.Found? ==> r.node == q[FirstHit(h, q, k)] && r.index == Scan(h[q[FirstHit(h, q, k)]], k)
    ensures (r.Found? <==> FirstHit(h, p, k) < |p|)
    ensures r.Found? ==> r.node == p[FirstHit(h, p, k)] && r.index == Scan(h[p[FirstHit(h, p, k)]], k)
  {
    assert FirstHit(h, p, k) == 1 + FirstHit(h, q, k);
  }

  /** On a node whose live keys are sorted, the scan stops on k exactly
      when k is among them. */
  lemma HitSorted(r: Rec, k: int)
    requires Fits(r) && Sorted(r.keys[..r.n])
    ensures Hit(r, k) <==> k in r.keys[..r.n]
  {
    LowerIdxFinds(r.keys[..r.n], k);
  }
}
