/**
 * `around`: the best-first k-nearest-neighbour query over a kdbush index.
 * One priority queue holds both resolved points and k-d tree nodes keyed by
 * their distance bound; each round expands the current node, drains every
 * point that is nearer than everything else queued, then pops the next node.
 */
module Geokdbush {
  import opened Options
  import opened Haversine
  import opened KdTree
  import opened Queue

  // ---------------------------------------------------------------------
  // Query set-up
  // ---------------------------------------------------------------------

  /** Longitude in degrees to half-circles: `1/180`. */
  const DEGREE2HALFCIRCLE: real := 1.0 / 180.0

  /** Projects the query location: x = lng / 180, y = braunY(lat in radians). */
  function QueryOf<T>(trig: Trig, lng: real, lat: real, filter: Option<T -> bool>): (q: Query<T>)
    ensures q.x * 180.0 == lng
    ensures q.y == trig.braunY(lat * trig.degree)
    ensures q.trig == trig && q.filter == filter && q.dist == HaverSinDist
  {
    Query(trig, lng * DEGREE2HALFCIRCLE, trig.braunY(lat * trig.degree), filter, HaverSinDist)
  }

  /**
   * The largest admitted haversine: 1 (half the globe, so everything) by
   * default, else the haversine of `maxDistance` kilometres.
   */
  function Threshold(trig: Trig, maxDistance: Option<real>): real {
    if maxDistance.None? then 1.0 else trig.haverSin(maxDistance.value / EARTH_RADIUS)
  }

  /**
   * `result.length === maxResults` can only fire for a limit of at least 1;
   * an absent, zero or negative limit never stops the query.
   */
  predicate Caps(maxResults: Option<int>) {
    maxResults.Some? && maxResults.value >= 1
  }

  predicate CapReached(maxResults: Option<int>, count: int) {
    Caps(maxResults) && count == maxResults.value
  }

  predicate Accepted<T>(index: KdIndex<T>, q: Query<T>, i: int)
    requires index.Valid() && 0 <= i < |index.ids|
  {
    Accepts(q.filter, index.ItemAt(i))
  }

  /** The queue entry `{item, dist}` of the point at position i. */
  function PointEntry<T>(index: KdIndex<T>, q: Query<T>, i: int): Entry<T>
    requires index.Valid() && 0 <= i < |index.ids|
  {
    Point(i, index.ItemAt(i), PointDist(index, q, i))
  }

  /** The queue entry of a child node, keyed by its `boxDist`. */
  function NodeEntry<T>(q: Query<T>, n: Node): Entry<T> {
    Box(n, BoxDist(q.trig, q.dist, q.x, q.y, n.bounds))
  }

  // ---------------------------------------------------------------------
  // Positions held by queue entries
  // ---------------------------------------------------------------------

  /** The tree positions an entry stands for. */
  ghost function Positions<T>(e: Entry<T>): set<int> {
    match e
    case Point(p, _, _) => {p}
    case Box(n, _) => Span(n.left, n.right)
  }

  /** The positions still held by the queue. */
  ghost function Pending<T>(s: seq<Entry<T>>): set<int>
    decreases |s|
  {
    if s == [] then {} else Pending(s[..|s| - 1]) + Positions(s[|s| - 1])
  }

  ghost function NodeSpan(node: Option<Node>): set<int> {
    if node.None? then {} else Span(node.value.left, node.value.right)
  }

  /** No tree position is held by two entries. */
  ghost predicate DisjointEntries<T>(s: seq<Entry<T>>) {
    forall a, b :: 0 <= a < b < |s| ==> Positions(s[a]) !! Positions(s[b])
  }

  lemma {:induction false} PendingAppend<T>(s: seq<Entry<T>>, t: seq<Entry<T>>)
    ensures Pending(s + t) == Pending(s) + Pending(t)
    decreases |t|
  {
    if t == [] {
      assert s + t == s;
    } else {
      var t' := t[..|t| - 1];
      assert (s + t)[..|s + t| - 1] == s + t';
      PendingAppend(s, t');
    }
  }

  lemma PendingSingle<T>(e: Entry<T>)
    ensures Pending([e]) == Positions(e)
  {
    assert [e][..0] == [];
  }

  /** Removing the k-th entry gives up exactly that entry's positions. */
  lemma PendingRemove<T>(s: seq<Entry<T>>, k: nat)
    requires k < |s|
    ensures Pending(s) == Pending(RemoveAt(s, k)) + Positions(s[k])
    ensures Positions(s[k]) <= Pending(s)
  {
    SplitAt(s, k);
    PendingSplice(s[..k], s[k], s[k + 1..]);
  }

  lemma SplitAt<T>(s: seq<T>, k: nat)
    requires k < |s|
    ensures s == s[..k] + [s[k]] + s[k + 1..]
    ensures RemoveAt(s, k) == s[..k] + s[k + 1..]
  {
  }

  lemma PendingSplice<T>(front: seq<Entry<T>>, e: Entry<T>, back: seq<Entry<T>>)
    ensures Pending(front + [e] + back) == Pending(front + back) + Positions(e)
  {
    PendingAppend(front + [e], back);
    PendingAppend(front, [e]);
    PendingAppend(front, back);
    PendingSingle(e);
  }

  /** A set apart from every entry is apart from all pending positions. */
  lemma {:induction false} ApartFromPending<T>(p: set<int>, t: seq<Entry<T>>)
    requires forall j :: 0 <= j < |t| ==> p !! Positions(t[j])
    ensures p !! Pending(t)
    decreases |t|
  {
    if t != [] {
      ApartFromPending(p, t[..|t| - 1]);
    }
  }

  /** Removing an entry keeps the rest disjoint, and apart from the removed one. */
  lemma DisjointRemove<T>(s: seq<Entry<T>>, k: nat)
    requires k < |s| && DisjointEntries(s)
    ensures DisjointEntries(RemoveAt(s, k))
    ensures Positions(s[k]) !! Pending(RemoveAt(s, k))
  {
    var r := RemoveAt(s, k);
    forall j | 0 <= j < |r|
      ensures Positions(s[k]) !! Positions(r[j])
    {
      if j < k {
        assert Positions(s[j]) !! Positions(s[k]);
      } else {
        assert Positions(s[k]) !! Positions(s[j + 1]);
      }
    }
    ApartFromPending(Positions(s[k]), r);
  }

  /** Appending a disjoint batch apart from the queue keeps it disjoint. */
  lemma DisjointAppend<T>(s: seq<Entry<T>>, t: seq<Entry<T>>)
    requires DisjointEntries(s) && DisjointEntries(t)
    requires Pending(s) !! Pending(t)
    ensures DisjointEntries(s + t)
  {
    var u := s + t;
    forall a, b | 0 <= a < b < |u|
      ensures Positions(u[a]) !! Positions(u[b])
    {
      if b < |s| {
        assert u[a] == s[a] && u[b] == s[b];
      } else if a >= |s| {
        assert u[a] == t[a - |s|] && u[b] == t[b - |s|];
      } else {
        PendingRemove(s, a);
        PendingRemove(t, b - |s|);
        assert u[a] == s[a] && u[b] == t[b - |s|];
      }
    }
  }

  // ---------------------------------------------------------------------
  // Termination measure
  // ---------------------------------------------------------------------

  /** A node of s positions can still produce at most 3s queue operations. */
  function NodeWeight(n: Node): nat {
    if n.right < n.left then 1 else 3 * (n.right - n.left + 1) + 1
  }

  function Weight<T>(e: Entry<T>): nat {
    match e
    case Point(_, _, _) => 1
    case Box(n, _) => NodeWeight(n)
  }

  function TotalWeight<T>(s: seq<Entry<T>>): nat
    decreases |s|
  {
    if s == [] then 0 else TotalWeight(s[..|s| - 1]) + Weight(s[|s| - 1])
  }

  function Measure<T>(s: seq<Entry<T>>, node: Option<Node>): nat {
    TotalWeight(s) + if node.None? then 0 else NodeWeight(node.value)
  }

  lemma {:induction false} TotalWeightAppend<T>(s: seq<Entry<T>>, t: seq<Entry<T>>)
    ensures TotalWeight(s + t) == TotalWeight(s) + TotalWeight(t)
    decreases |t|
  {
    if t == [] {
      assert s + t == s;
    } else {
      var t' := t[..|t| - 1];
      assert (s + t)[..|s + t| - 1] == s + t';
      TotalWeightAppend(s, t');
    }
  }

  lemma TotalWeightRemove<T>(s: seq<Entry<T>>, k: nat)
    requires k < |s|
    ensures TotalWeight(s) == TotalWeight(RemoveAt(s, k)) + Weight(s[k])
  {
    SplitAt(s, k);
    TotalWeightSplice(s[..k], s[k], s[k + 1..]);
  }

  lemma TotalWeightSplice<T>(front: seq<Entry<T>>, e: Entry<T>, back: seq<Entry<T>>)
    ensures TotalWeight(front + [e] + back) == TotalWeight(front + back) + Weight(e)
  {
    TotalWeightAppend(front + [e], back);
    TotalWeightAppend(front, [e]);
    TotalWeightAppend(front, back);
    assert [e][..0] == [];
  }

  // ---------------------------------------------------------------------
  // Expanding a node
  // ---------------------------------------------------------------------

  /**
   * The point entries a leaf pushes for positions left .. hi - 1, in
   * position order, leaving out those the filter rejects.
   */
  function LeafEntries<T>(index: KdIndex<T>, q: Query<T>, left: int, hi: int): seq<Entry<T>>
    requires index.Valid() && 0 <= left && hi <= |index.ids|
    decreases hi - left
  {
    if hi <= left then []
    else
      LeafEntries(index, q, left, hi - 1)
        + (if Accepted(index, q, hi - 1) then [PointEntry(index, q, hi - 1)] else [])
  }

  /** An internal node pushes its median point (if accepted), then its two halves. */
  function SplitEntries<T>(index: KdIndex<T>, q: Query<T>, n: Node): seq<Entry<T>>
    requires index.Valid() && WfNode(index, n) && !IsLeaf(index, n)
  {
    var m := Median(n.left, n.right);
    (if Accepted(index, q, m) then [PointEntry(index, q, m)] else [])
      + [NodeEntry(q, LeftChild(index, n)), NodeEntry(q, RightChild(index, n))]
  }

  /** What expanding node n pushes onto the queue. */
  function Expand<T>(index: KdIndex<T>, q: Query<T>, n: Node): seq<Entry<T>>
    requires index.Valid() && WfNode(index, n)
  {
    if IsLeaf(index, n) then LeafEntries(index, q, n.left, n.right + 1) else SplitEntries(index, q, n)
  }

  /** A point entry is the accepted point at its position; a node entry is a node of the index. */
  ghost predicate WfEntry<T>(index: KdIndex<T>, q: Query<T>, e: Entry<T>)
    requires index.Valid()
  {
    match e
    case Point(p, item, d) =>
      && 0 <= p < |index.ids|
      && item == index.ItemAt(p)
      && d == PointDist(index, q, p)
      && Accepts(q.filter, item)
    case Box(n, _) => WfNode(index, n)
  }

  /** A node entry whose key bounds every point below it and whose subtree is sound. */
  ghost predicate SoundBox<T>(index: KdIndex<T>, q: Query<T>, e: Entry<T>)
    requires index.Valid() && e.Box? && WfNode(index, e.node)
  {
    && SoundNode(index, q, e.node)
    && forall i :: e.node.left <= i <= e.node.right ==> e.dist <= PointDist(index, q, i)
  }

  /** The accepted positions among left .. hi - 1. */
  ghost function AcceptedIn<T>(index: KdIndex<T>, q: Query<T>, left: int, hi: int): set<int>
    requires index.Valid() && 0 <= left && hi <= |index.ids|
    decreases hi - left
  {
    if hi <= left then {}
    else if Accepted(index, q, hi - 1) then AcceptedIn(index, q, left, hi - 1) + {hi - 1}
    else AcceptedIn(index, q, left, hi - 1)
  }

  /** A position is in AcceptedIn exactly when it is in range and accepted. */
  lemma {:induction false} AcceptedInMembers<T>(index: KdIndex<T>, q: Query<T>, left: int, hi: int)
    requires index.Valid() && 0 <= left && hi <= |index.ids|
    ensures forall i :: i in AcceptedIn(index, q, left, hi) <==> left <= i < hi && Accepted(index, q, i)
    decreases hi - left
  {
    if hi > left {
      AcceptedInMembers(index, q, left, hi - 1);
    }
  }

  /** The positions a leaf pushes are exactly the accepted ones of its range. */
  lemma {:induction false} LeafEntriesPending<T>(index: KdIndex<T>, q: Query<T>, left: int, hi: int)
    requires index.Valid() && 0 <= left && hi <= |index.ids|
    ensures Pending(LeafEntries(index, q, left, hi)) == AcceptedIn(index, q, left, hi)
    decreases hi - left
  {
    if hi > left {
      var init := LeafEntries(index, q, left, hi - 1);
      LeafEntriesPending(index, q, left, hi - 1);
      if Accepted(index, q, hi - 1) {
        var p := PointEntry(index, q, hi - 1);
        assert LeafEntries(index, q, left, hi) == init + [p];
        PendingAppend(init, [p]);
        PendingSingle(p);
      } else {
        assert LeafEntries(index, q, left, hi) == init;
      }
    }
  }

  /** A leaf pushes at most one entry per position. */
  lemma {:induction false} LeafEntriesWeight<T>(index: KdIndex<T>, q: Query<T>, left: int, hi: int)
    requires index.Valid() && 0 <= left && hi <= |index.ids|
    ensures TotalWeight(LeafEntries(index, q, left, hi)) <= if hi < left then 0 else hi - left
    decreases hi - left
  {
    if hi > left {
      var init := LeafEntries(index, q, left, hi - 1);
      LeafEntriesWeight(index, q, left, hi - 1);
      if Accepted(index, q, hi - 1) {
        var p := PointEntry(index, q, hi - 1);
        assert LeafEntries(index, q, left, hi) == init + [p];
        TotalWeightAppend(init, [p]);
        assert [p][..0] == [];
      } else {
        assert LeafEntries(index, q, left, hi) == init;
      }
    }
  }

  ghost predicate WfEntries<T>(index: KdIndex<T>, q: Query<T>, s: seq<Entry<T>>)
    requires index.Valid()
  {
    forall k :: 0 <= k < |s| ==> WfEntry(index, q, s[k])
  }

  ghost predicate SoundBoxes<T>(index: KdIndex<T>, q: Query<T>, s: seq<Entry<T>>)
    requires index.Valid() && WfEntries(index, q, s)
  {
    forall k :: 0 <= k < |s| && s[k].Box? ==> SoundBox(index, q, s[k])
  }

  lemma PendingPair<T>(a: Entry<T>, b: Entry<T>)
    ensures Pending([a, b]) == Positions(a) + Positions(b)
    ensures TotalWeight([a, b]) == Weight(a) + Weight(b)
  {
    assert [a, b] == [a] + [b];
    PendingAppend([a], [b]);
    PendingSingle(a);
    PendingSingle(b);
    TotalWeightAppend([a], [b]);
    assert [a][..0] == [];
    assert [b][..0] == [];
  }

  /**
   * Expanding a leaf queues exactly its accepted points, each once; nothing
   * outside its range; and less weight than the leaf had.
   */
  lemma LeafExpandFacts<T>(index: KdIndex<T>, q: Query<T>, n: Node)
    requires index.Valid() && WfNode(index, n) && IsLeaf(index, n)
    ensures WfEntries(index, q, Expand(index, q, n))
    ensures DisjointEntries(Expand(index, q, n))
    ensures TotalWeight(Expand(index, q, n)) < NodeWeight(n)
    ensures SoundBoxes(index, q, Expand(index, q, n))
  {
    var e := LeafEntries(index, q, n.left, n.right + 1);
    assert Expand(index, q, n) == e;
    LeafEntriesWeight(index, q, n.left, n.right + 1);
    assert TotalWeight(e) <= n.right + 1 - n.left;
    LeafWf(index, q, n.left, n.right + 1);
  }

  /** A leaf's entries hold positions of its range only, and every accepted one of them. */
  lemma LeafCovers<T>(index: KdIndex<T>, q: Query<T>, n: Node)
    requires index.Valid() && WfNode(index, n) && IsLeaf(index, n)
    ensures Pending(Expand(index, q, n)) <= Span(n.left, n.right)
    ensures forall i :: n.left <= i <= n.right && Accepted(index, q, i) ==> i in Pending(Expand(index, q, n))
  {
    assert Expand(index, q, n) == LeafEntries(index, q, n.left, n.right + 1);
    LeafEntriesPending(index, q, n.left, n.right + 1);
    AcceptedInMembers(index, q, n.left, n.right + 1);
  }

  lemma LeafWf<T>(index: KdIndex<T>, q: Query<T>, left: int, hi: int)
    requires index.Valid() && 0 <= left && hi <= |index.ids|
    ensures WfEntries(index, q, LeafEntries(index, q, left, hi))
    ensures DisjointEntries(LeafEntries(index, q, left, hi))
    ensures SoundBoxes(index, q, LeafEntries(index, q, left, hi))
  {
    var e := LeafEntries(index, q, left, hi);
    LeafEntriesPoints(index, q, left, hi);
    LeafEntriesIncreasing(index, q, left, hi);
    forall a, b | 0 <= a < b < |e|
      ensures Positions(e[a]) !! Positions(e[b])
    {
      assert e[a].Point? && e[b].Point? && e[a].pos < e[b].pos;
    }
  }

  /** Only accepted points of left .. hi - 1, each with its distance. */
  ghost predicate PointsIn<T>(index: KdIndex<T>, q: Query<T>, left: int, hi: int, r: seq<Entry<T>>)
    requires index.Valid()
  {
    forall k :: 0 <= k < |r| ==>
      && r[k].Point? && left <= r[k].pos < hi && 0 <= r[k].pos < |index.ids|
      && r[k] == PointEntry(index, q, r[k].pos) && Accepted(index, q, r[k].pos)
  }

  /** Points in strictly increasing position order. */
  ghost predicate Increasing<T>(r: seq<Entry<T>>) {
    forall a, b :: 0 <= a < b < |r| ==> r[a].Point? && r[b].Point? && r[a].pos < r[b].pos
  }

  /** A leaf queues only accepted points of its range, each with its distance. */
  lemma {:induction false} LeafEntriesPoints<T>(index: KdIndex<T>, q: Query<T>, left: int, hi: int)
    requires index.Valid() && 0 <= left && hi <= |index.ids|
    ensures PointsIn(index, q, left, hi, LeafEntries(index, q, left, hi))
    decreases hi - left
  {
    if hi > left {
      var r := LeafEntries(index, q, left, hi);
      var init := LeafEntries(index, q, left, hi - 1);
      LeafEntriesPoints(index, q, left, hi - 1);
      if Accepted(index, q, hi - 1) {
        assert r == init + [PointEntry(index, q, hi - 1)];
        forall k | 0 <= k < |r|
          ensures r[k].Point? && left <= r[k].pos < hi
          ensures r[k] == PointEntry(index, q, r[k].pos) && Accepted(index, q, r[k].pos)
        {
          if k < |init| {
            assert r[k] == init[k];
          } else {
            assert r[k] == PointEntry(index, q, hi - 1);
          }
        }
      } else {
        assert r == init;
      }
    }
  }

  /** A leaf queues its points in increasing position order. */
  lemma {:induction false} LeafEntriesIncreasing<T>(index: KdIndex<T>, q: Query<T>, left: int, hi: int)
    requires index.Valid() && 0 <= left && hi <= |index.ids|
    ensures Increasing(LeafEntries(index, q, left, hi))
    decreases hi - left
  {
    if hi > left {
      var r := LeafEntries(index, q, left, hi);
      var init := LeafEntries(index, q, left, hi - 1);
      LeafEntriesIncreasing(index, q, left, hi - 1);
      LeafEntriesPoints(index, q, left, hi - 1);
      if Accepted(index, q, hi - 1) {
        assert r == init + [PointEntry(index, q, hi - 1)];
        forall a, b | 0 <= a < b < |r|
          ensures r[a].Point? && r[b].Point? && r[a].pos < r[b].pos
        {
          assert r[a] == init[a];
          if b < |init| {
            assert r[b] == init[b];
          } else {
            assert r[b] == PointEntry(index, q, hi - 1);
          }
        }
      } else {
        assert r == init;
      }
    }
  }

  /**
   * Expanding an internal node queues its median point (when accepted) and
   * its two halves: together they hold the node's accepted positions, apart
   * from each other, with less weight than the node had; below a sound node
   * each half is keyed by a bound on its points.
   */
  lemma SplitExpandFacts<T>(index: KdIndex<T>, q: Query<T>, n: Node)
    requires index.Valid() && WfNode(index, n) && !IsLeaf(index, n)
    ensures WfEntries(index, q, Expand(index, q, n))
    ensures DisjointEntries(Expand(index, q, n))
    ensures Pending(Expand(index, q, n)) <= Span(n.left, n.right)
    ensures forall i :: n.left <= i <= n.right && Accepted(index, q, i) ==> i in Pending(Expand(index, q, n))
    ensures TotalWeight(Expand(index, q, n)) < NodeWeight(n)
    ensures SoundNode(index, q, n) ==> SoundBoxes(index, q, Expand(index, q, n))
  {
    SplitPending(index, q, n);
    SplitWeight(index, q, n);
    SplitWf(index, q, n);
  }

  lemma SplitPending<T>(index: KdIndex<T>, q: Query<T>, n: Node)
    requires index.Valid() && WfNode(index, n) && !IsLeaf(index, n)
    ensures var m := Median(n.left, n.right);
      Pending(SplitEntries(index, q, n))
        == (if Accepted(index, q, m) then {m} else {}) + Span(n.left, m - 1) + Span(m + 1, n.right)
  {
    var m := Median(n.left, n.right);
    var l := NodeEntry(q, LeftChild(index, n));
    var r := NodeEntry(q, RightChild(index, n));
    var pre := if Accepted(index, q, m) then [PointEntry(index, q, m)] else [];
    PendingPair(l, r);
    PendingAppend(pre, [l, r]);
    if pre != [] {
      PendingSingle(pre[0]);
    }
  }

  lemma SplitWeight<T>(index: KdIndex<T>, q: Query<T>, n: Node)
    requires index.Valid() && WfNode(index, n) && !IsLeaf(index, n)
    ensures TotalWeight(SplitEntries(index, q, n)) < NodeWeight(n)
  {
    var m := Median(n.left, n.right);
    var l := NodeEntry(q, LeftChild(index, n));
    var r := NodeEntry(q, RightChild(index, n));
    var pre := if Accepted(index, q, m) then [PointEntry(index, q, m)] else [];
    PendingPair(l, r);
    TotalWeightAppend(pre, [l, r]);
    if pre != [] {
      assert [pre[0]][..0] == [];
    }
  }

  lemma SplitWf<T>(index: KdIndex<T>, q: Query<T>, n: Node)
    requires index.Valid() && WfNode(index, n) && !IsLeaf(index, n)
    ensures WfEntries(index, q, SplitEntries(index, q, n))
    ensures DisjointEntries(SplitEntries(index, q, n))
    ensures SoundNode(index, q, n) ==> SoundBoxes(index, q, SplitEntries(index, q, n))
  {
    SplitWfEntries(index, q, n);
    SplitDisjoint(index, q, n);
    if SoundNode(index, q, n) {
      SplitSound(index, q, n);
    }
  }

  lemma SplitWfEntries<T>(index: KdIndex<T>, q: Query<T>, n: Node)
    requires index.Valid() && WfNode(index, n) && !IsLeaf(index, n)
    ensures WfEntries(index, q, SplitEntries(index, q, n))
  {
    var m := Median(n.left, n.right);
    var pre := if Accepted(index, q, m) then [PointEntry(index, q, m)] else [];
    var s := pre + [NodeEntry(q, LeftChild(index, n)), NodeEntry(q, RightChild(index, n))];
    assert SplitEntries(index, q, n) == s;
  }

  lemma SplitDisjoint<T>(index: KdIndex<T>, q: Query<T>, n: Node)
    requires index.Valid() && WfNode(index, n) && !IsLeaf(index, n)
    ensures DisjointEntries(SplitEntries(index, q, n))
  {
    var m := Median(n.left, n.right);
    var pre := if Accepted(index, q, m) then [PointEntry(index, q, m)] else [];
    var s := pre + [NodeEntry(q, LeftChild(index, n)), NodeEntry(q, RightChild(index, n))];
    assert SplitEntries(index, q, n) == s;
    SplitPartitions(index, n);
    forall a, b | 0 <= a < b < |s|
      ensures Positions(s[a]) !! Positions(s[b])
    {
      if |pre| == 1 && a == 0 {
        assert Positions(s[a]) == {m};
      }
    }
  }

  lemma SplitSound<T>(index: KdIndex<T>, q: Query<T>, n: Node)
    requires index.Valid() && WfNode(index, n) && !IsLeaf(index, n)
    requires SoundNode(index, q, n)
    ensures SoundBoxes(index, q, SplitEntries(index, q, n))
  {
    var m := Median(n.left, n.right);
    var pre := if Accepted(index, q, m) then [PointEntry(index, q, m)] else [];
    var l := NodeEntry(q, LeftChild(index, n));
    var r := NodeEntry(q, RightChild(index, n));
    var s := pre + [l, r];
    assert SplitEntries(index, q, n) == s;
    SplitWfEntries(index, q, n);
    assert SoundBox(index, q, l) && SoundBox(index, q, r);
    forall k | 0 <= k < |s| && s[k].Box?
      ensures SoundBox(index, q, s[k])
    {
      assert s[k] == l || s[k] == r;
    }
  }

  // ---------------------------------------------------------------------
  // The traversal invariant
  // ---------------------------------------------------------------------

  predicate Distinct(s: seq<int>) {
    forall a, b :: 0 <= a < b < |s| ==> s[a] != s[b]
  }

  ghost predicate InIndex<T>(index: KdIndex<T>, order: seq<int>) {
    forall j :: 0 <= j < |order| ==> 0 <= order[j] < |index.ids|
  }

  /** The listed positions: distinct accepted points within the threshold. */
  ghost predicate Answered<T>(index: KdIndex<T>, q: Query<T>, thr: real, order: seq<int>)
    requires index.Valid()
  {
    && Distinct(order)
    && InIndex(index, order)
    && forall j :: 0 <= j < |order| ==>
         Accepted(index, q, order[j]) && PointDist(index, q, order[j]) <= thr
  }

  /** Positions held by the queue or by the node about to be expanded. */
  ghost function Open<T>(data: seq<Entry<T>>, node: Option<Node>): set<int> {
    Pending(data) + NodeSpan(node)
  }

  /**
   * Between steps: the queue and the current node hold well-formed, disjoint
   * parts of the tree; each accepted position is either listed or still
   * held, and never both.
   */
  ghost predicate Inv<T>(index: KdIndex<T>, q: Query<T>, thr: real,
                         data: seq<Entry<T>>, node: Option<Node>, order: seq<int>)
    requires index.Valid()
  {
    && WfEntries(index, q, data)
    && (node.Some? ==> WfNode(index, node.value))
    && DisjointEntries(data)
    && Pending(data) !! NodeSpan(node)
    && Answered(index, q, thr, order)
    && (forall j :: 0 <= j < |order| ==> order[j] !in Open(data, node))
    && (forall i :: 0 <= i < |index.ids| && Accepted(index, q, i) ==> i in order || i in Open(data, node))
  }

  /** Listed points in non-decreasing distance. */
  ghost predicate Sorted<T>(index: KdIndex<T>, q: Query<T>, order: seq<int>)
    requires index.Valid() && InIndex(index, order)
  {
    forall a, b :: 0 <= a < b < |order| ==> PointDist(index, q, order[a]) <= PointDist(index, q, order[b])
  }

  /**
   * For a sound tree: every queued node's key bounds its points, the listed
   * points are sorted, and nothing still held is nearer than the last one.
   */
  ghost predicate SoundInv<T>(index: KdIndex<T>, q: Query<T>, thr: real,
                              data: seq<Entry<T>>, node: Option<Node>, order: seq<int>)
    requires index.Valid() && Inv(index, q, thr, data, node, order)
  {
    && SoundBoxes(index, q, data)
    && (node.Some? ==> SoundNode(index, q, node.value))
    && Sorted(index, q, order)
    && (|order| > 0 ==> forall i :: 0 <= i < |index.ids| && i in Open(data, node) ==>
          PointDist(index, q, order[|order| - 1]) <= PointDist(index, q, i))
  }

  /** Every point held by a sound queue is at least as far as every key in it. */
  lemma {:induction false} PendingAbove<T>(index: KdIndex<T>, q: Query<T>, s: seq<Entry<T>>, d: real)
    requires index.Valid() && WfEntries(index, q, s) && SoundBoxes(index, q, s)
    requires forall k :: 0 <= k < |s| ==> d <= s[k].dist
    ensures forall i :: 0 <= i < |index.ids| && i in Pending(s) ==> d <= PointDist(index, q, i)
    decreases |s|
  {
    if s != [] {
      var init := s[..|s| - 1];
      assert forall k :: 0 <= k < |init| ==> init[k] == s[k];
      PendingAbove(index, q, init, d);
      var e := s[|s| - 1];
      assert WfEntry(index, q, e);
      if e.Box? {
        assert SoundBox(index, q, e);
      }
    }
  }

  /** The state before the first round: nothing queued, the root to expand. */
  lemma InitStep<T>(index: KdIndex<T>, q: Query<T>, thr: real)
    requires index.Valid()
    ensures Inv(index, q, thr, [], Some(Root(index)), [])
    ensures SoundTree(index, q) ==> SoundInv(index, q, thr, [], Some(Root(index)), [])
  {
  }

  /** What expanding node n queues, in the form the invariant needs. */
  lemma ExpandFacts<T>(index: KdIndex<T>, q: Query<T>, n: Node)
    requires index.Valid() && WfNode(index, n)
    ensures WfEntries(index, q, Expand(index, q, n))
    ensures DisjointEntries(Expand(index, q, n))
    ensures Pending(Expand(index, q, n)) <= Span(n.left, n.right)
    ensures forall i :: n.left <= i <= n.right && Accepted(index, q, i) ==> i in Pending(Expand(index, q, n))
    ensures TotalWeight(Expand(index, q, n)) < NodeWeight(n)
    ensures SoundNode(index, q, n) ==> SoundBoxes(index, q, Expand(index, q, n))
  {
    if IsLeaf(index, n) {
      LeafExpandFacts(index, q, n);
      LeafCovers(index, q, n);
    } else {
      SplitExpandFacts(index, q, n);
    }
  }

  /** Expanding the current node keeps the invariant and lowers the measure. */
  lemma ExpandStep<T>(index: KdIndex<T>, q: Query<T>, thr: real,
                      data: seq<Entry<T>>, n: Node, order: seq<int>)
    requires index.Valid() && Inv(index, q, thr, data, Some(n), order)
    ensures Inv(index, q, thr, data + Expand(index, q, n), None, order)
    ensures Open(data + Expand(index, q, n), None) <= Open(data, Some(n))
    ensures Measure(data + Expand(index, q, n), None) < Measure(data, Some(n))
  {
    var e := Expand(index, q, n);
    var d := data + e;
    ExpandFacts(index, q, n);
    PendingAppend(data, e);
    TotalWeightAppend(data, e);
    DisjointAppend(data, e);
    assert WfEntries(index, q, d) by {
      forall k | 0 <= k < |d|
        ensures WfEntry(index, q, d[k])
      {
        if k < |data| {
          assert d[k] == data[k];
        } else {
          assert d[k] == e[k - |data|];
        }
      }
    }
  }

  /** Below a sound node, expanding it keeps the ordering invariant. */
  lemma ExpandSound<T>(index: KdIndex<T>, q: Query<T>, thr: real,
                       data: seq<Entry<T>>, n: Node, order: seq<int>)
    requires index.Valid() && Inv(index, q, thr, data, Some(n), order)
    requires SoundInv(index, q, thr, data, Some(n), order)
    requires Inv(index, q, thr, data + Expand(index, q, n), None, order)
    requires Open(data + Expand(index, q, n), None) <= Open(data, Some(n))
    ensures SoundInv(index, q, thr, data + Expand(index, q, n), None, order)
  {
    var e := Expand(index, q, n);
    var d := data + e;
    ExpandFacts(index, q, n);
    forall k | 0 <= k < |d| && d[k].Box?
      ensures SoundBox(index, q, d[k])
    {
      if k < |data| {
        assert d[k] == data[k];
      } else {
        assert d[k] == e[k - |data|];
      }
    }
  }

  /**
   * Draining the queue's minimum point within the threshold: it is listed,
   * the invariant holds again, and the queue loses weight.
   */
  lemma DrainStep<T>(index: KdIndex<T>, q: Query<T>, thr: real, data: seq<Entry<T>>, order: seq<int>)
    requires index.Valid() && Inv(index, q, thr, data, None, order)
    requires |data| > 0 && data[ArgMin(data)].Point? && data[ArgMin(data)].dist <= thr
    ensures var k := ArgMin(data);
      && Inv(index, q, thr, RemoveAt(data, k), None, order + [data[k].pos])
      && Open(RemoveAt(data, k), None) <= Open(data, None)
      && TotalWeight(RemoveAt(data, k)) < TotalWeight(data)
  {
    var k := ArgMin(data);
    var e := data[k];
    var r := RemoveAt(data, k);
    assert WfEntry(index, q, e);
    RemoveEntry(index, q, data, k);
    assert Positions(e) == {e.pos};
    assert Open(data, None) == Open(r, None) + {e.pos};
    ListPoint(index, q, thr, order, e.pos, Open(data, None), Open(r, None));
  }

  /**
   * Moving an accepted point within the threshold from the held positions to
   * the listed ones keeps the listing answered, apart from what is still
   * held, and complete.
   */
  lemma ListPoint<T>(index: KdIndex<T>, q: Query<T>, thr: real, order: seq<int>, p: int,
                     before: set<int>, after: set<int>)
    requires index.Valid() && Answered(index, q, thr, order)
    requires 0 <= p < |index.ids| && Accepted(index, q, p) && PointDist(index, q, p) <= thr
    requires before == after + {p} && p !in after
    requires forall j :: 0 <= j < |order| ==> order[j] !in before
    requires forall i :: 0 <= i < |index.ids| && Accepted(index, q, i) ==> i in order || i in before
    ensures Answered(index, q, thr, order + [p])
    ensures forall j :: 0 <= j < |order + [p]| ==> (order + [p])[j] !in after
    ensures forall i :: 0 <= i < |index.ids| && Accepted(index, q, i) ==> i in order + [p] || i in after
  {
    var o := order + [p];
    forall a, b | 0 <= a < b < |o|
      ensures o[a] != o[b]
    {
      if b == |order| {
        assert order[a] !in before;
      }
    }
  }

  /** Removing one entry from a well-formed, disjoint queue. */
  lemma RemoveEntry<T>(index: KdIndex<T>, q: Query<T>, data: seq<Entry<T>>, k: nat)
    requires index.Valid() && k < |data|
    requires WfEntries(index, q, data) && DisjointEntries(data)
    ensures WfEntries(index, q, RemoveAt(data, k))
    ensures DisjointEntries(RemoveAt(data, k))
    ensures Pending(data) == Pending(RemoveAt(data, k)) + Positions(data[k])
    ensures Positions(data[k]) !! Pending(RemoveAt(data, k))
    ensures TotalWeight(RemoveAt(data, k)) + Weight(data[k]) == TotalWeight(data)
    ensures SoundBoxes(index, q, data) ==> SoundBoxes(index, q, RemoveAt(data, k))
  {
    var r := RemoveAt(data, k);
    PendingRemove(data, k);
    DisjointRemove(data, k);
    TotalWeightRemove(data, k);
    forall j | 0 <= j < |r|
      ensures r[j] == data[if j < k then j else j + 1]
    {
    }
  }

  /** With a sound tree, the drained point is no nearer than anything listed before it. */
  lemma DrainSound<T>(index: KdIndex<T>, q: Query<T>, thr: real, data: seq<Entry<T>>, order: seq<int>)
    requires index.Valid() && Inv(index, q, thr, data, None, order)
    requires SoundInv(index, q, thr, data, None, order)
    requires |data| > 0 && data[ArgMin(data)].Point? && data[ArgMin(data)].dist <= thr
    requires Inv(index, q, thr, RemoveAt(data, ArgMin(data)), None, order + [data[ArgMin(data)].pos])
    requires Open(RemoveAt(data, ArgMin(data)), None) <= Open(data, None)
    ensures SoundInv(index, q, thr, RemoveAt(data, ArgMin(data)), None, order + [data[ArgMin(data)].pos])
  {
    var k := ArgMin(data);
    var e := data[k];
    var r := RemoveAt(data, k);
    assert WfEntry(index, q, e);
    RemoveEntry(index, q, data, k);
    assert Positions(e) == {e.pos};
    PendingAbove(index, q, data, e.dist);
    assert e.pos in Open(data, None);
    ListNearest(index, q, order, e.pos);
  }

  /**
   * Listing a point no nearer than the last listed one keeps the listing sorted.
   */
  lemma ListNearest<T>(index: KdIndex<T>, q: Query<T>, order: seq<int>, p: int)
    requires index.Valid() && InIndex(index, order) && Sorted(index, q, order)
    requires 0 <= p < |index.ids|
    requires |order| > 0 ==> PointDist(index, q, order[|order| - 1]) <= PointDist(index, q, p)
    ensures InIndex(index, order + [p]) && Sorted(index, q, order + [p])
    ensures (order + [p])[|order|] == p
  {
    var o := order + [p];
    forall a, b | 0 <= a < b < |o|
      ensures PointDist(index, q, o[a]) <= PointDist(index, q, o[b])
    {
      if b == |order| && a < |order| - 1 {
        assert PointDist(index, q, order[a]) <= PointDist(index, q, order[|order| - 1]);
      }
    }
  }

  /** Popping a node from the queue makes it the node to expand. */
  lemma AdvanceStep<T>(index: KdIndex<T>, q: Query<T>, thr: real, data: seq<Entry<T>>, order: seq<int>)
    requires index.Valid() && Inv(index, q, thr, data, None, order)
    requires |data| > 0 && data[ArgMin(data)].Box?
    ensures var k := ArgMin(data);
      && Inv(index, q, thr, RemoveAt(data, k), Some(data[k].node), order)
      && Open(RemoveAt(data, k), Some(data[k].node)) == Open(data, None)
      && Measure(RemoveAt(data, k), Some(data[k].node)) == TotalWeight(data)
  {
    var k := ArgMin(data);
    var e := data[k];
    var r := RemoveAt(data, k);
    assert WfEntry(index, q, e);
    RemoveEntry(index, q, data, k);
    assert NodeSpan(Some(e.node)) == Positions(e);
    assert Open(r, Some(e.node)) == Open(data, None);
    SameOpen(index, q, thr, data, r, e.node, order);
  }

  /** A queue and node holding exactly what the old queue held keep the invariant. */
  lemma SameOpen<T>(index: KdIndex<T>, q: Query<T>, thr: real, data: seq<Entry<T>>,
                    r: seq<Entry<T>>, n: Node, order: seq<int>)
    requires index.Valid() && Inv(index, q, thr, data, None, order)
    requires WfEntries(index, q, r) && WfNode(index, n) && DisjointEntries(r)
    requires Pending(r) !! NodeSpan(Some(n))
    requires Open(r, Some(n)) == Open(data, None)
    ensures Inv(index, q, thr, r, Some(n), order)
  {
  }

  /** Popping a node from a sound queue keeps the ordering invariant. */
  lemma AdvanceSound<T>(index: KdIndex<T>, q: Query<T>, thr: real, data: seq<Entry<T>>, order: seq<int>)
    requires index.Valid() && Inv(index, q, thr, data, None, order)
    requires SoundInv(index, q, thr, data, None, order)
    requires |data| > 0 && data[ArgMin(data)].Box?
    requires Inv(index, q, thr, RemoveAt(data, ArgMin(data)), Some(data[ArgMin(data)].node), order)
    requires Open(RemoveAt(data, ArgMin(data)), Some(data[ArgMin(data)].node)) == Open(data, None)
    ensures SoundInv(index, q, thr, RemoveAt(data, ArgMin(data)), Some(data[ArgMin(data)].node), order)
  {
    var k := ArgMin(data);
    var e := data[k];
    assert WfEntry(index, q, e);
    RemoveEntry(index, q, data, k);
    assert SoundBox(index, q, e);
  }

  // ---------------------------------------------------------------------
  // What the query returns
  // ---------------------------------------------------------------------

  /** `result[j]` is the item at the j-th listed position. */
  ghost predicate Listed<T>(index: KdIndex<T>, result: seq<T>, order: seq<int>)
    requires index.Valid()
  {
    && |result| == |order|
    && InIndex(index, order)
    && forall j :: 0 <= j < |order| ==> result[j] == index.ItemAt(order[j])
  }

  /** Every accepted point left out is at least as far as every listed one. */
  ghost predicate NearestFirst<T>(index: KdIndex<T>, q: Query<T>, order: seq<int>)
    requires index.Valid() && InIndex(index, order)
  {
    forall i, j :: 0 <= i < |index.ids| && Accepted(index, q, i) && i !in order && 0 <= j < |order| ==>
      PointDist(index, q, order[j]) <= PointDist(index, q, i)
  }

  /** Every accepted point within the threshold is listed. */
  ghost predicate AllWithin<T>(index: KdIndex<T>, q: Query<T>, thr: real, order: seq<int>)
    requires index.Valid()
  {
    forall i :: 0 <= i < |index.ids| && Accepted(index, q, i) && PointDist(index, q, i) <= thr ==> i in order
  }

  /** Every accepted point is listed. */
  ghost predicate AllFound<T>(index: KdIndex<T>, q: Query<T>, order: seq<int>)
    requires index.Valid()
  {
    forall i :: 0 <= i < |index.ids| && Accepted(index, q, i) ==> i in order
  }

  /** No accepted point lies beyond the threshold. */
  ghost predicate InReach<T>(index: KdIndex<T>, q: Query<T>, thr: real)
    requires index.Valid()
  {
    forall i :: 0 <= i < |index.ids| && Accepted(index, q, i) ==> PointDist(index, q, i) <= thr
  }

  /**
   * The values the trigonometric helpers produce on the globe: the query's
   * and the points' projected latitudes in [-1, 1], and the longitude
   * haversines in [0, 1].
   */
  ghost predicate UnitRange<T>(index: KdIndex<T>, q: Query<T>)
    requires index.Valid()
  {
    && -1.0 <= q.y <= 1.0
    && forall i :: 0 <= i < |index.ids| ==>
         && 0.0 <= q.trig.haverSinX(q.x - index.X(i)) <= 1.0
         && -1.0 <= index.Y(i) <= 1.0
  }

  /** On the globe every point lies within the default threshold of 1 (half the globe). */
  lemma UnitRangeInReach<T>(index: KdIndex<T>, q: Query<T>)
    requires index.Valid() && UnitRange(index, q) && q.dist == HaverSinDist
    ensures InReach(index, q, Threshold(q.trig, None))
  {
    forall i | 0 <= i < |index.ids| && Accepted(index, q, i)
      ensures PointDist(index, q, i) <= Threshold(q.trig, None)
    {
      HaverSinDistRange(q.trig.haverSinX(q.x - index.X(i)), q.y, index.Y(i));
    }
  }

  /** A sound traversal lists nearest first: nothing held is nearer than anything listed. */
  lemma SoundNearestFirst<T>(index: KdIndex<T>, q: Query<T>, thr: real,
                             data: seq<Entry<T>>, node: Option<Node>, order: seq<int>)
    requires index.Valid() && Inv(index, q, thr, data, node, order)
    requires SoundInv(index, q, thr, data, node, order)
    ensures NearestFirst(index, q, order)
  {
    forall i, j | 0 <= i < |index.ids| && Accepted(index, q, i) && i !in order && 0 <= j < |order|
      ensures PointDist(index, q, order[j]) <= PointDist(index, q, i)
    {
      assert i in Open(data, node);
      if j < |order| - 1 {
        assert PointDist(index, q, order[j]) <= PointDist(index, q, order[|order| - 1]);
      }
    }
  }

  /**
   * Stopping at a nearest point beyond the threshold: some accepted point is
   * out of reach, and with a sound tree every accepted point within reach is
   * already listed.
   */
  lemma ThresholdExit<T>(index: KdIndex<T>, q: Query<T>, thr: real, data: seq<Entry<T>>, order: seq<int>)
    requires index.Valid() && Inv(index, q, thr, data, None, order)
    requires |data| > 0 && data[ArgMin(data)].Point? && data[ArgMin(data)].dist > thr
    ensures !InReach(index, q, thr)
    ensures SoundInv(index, q, thr, data, None, order) ==> AllWithin(index, q, thr, order)
  {
    var e := data[ArgMin(data)];
    assert WfEntry(index, q, e);
    if SoundInv(index, q, thr, data, None, order) {
      PendingAbove(index, q, data, e.dist);
    }
  }

  /** The elements of a sequence of positions. */
  function Elems(s: seq<int>): (r: set<int>)
    ensures forall x :: x in r <==> x in s
    decreases |s|
  {
    if s == [] then {} else Elems(s[..|s| - 1]) + {s[|s| - 1]}
  }

  lemma {:induction false} DistinctCard(s: seq<int>)
    requires Distinct(s)
    ensures |Elems(s)| == |s|
    decreases |s|
  {
    if s != [] {
      var init := s[..|s| - 1];
      DistinctCard(init);
      assert s[|s| - 1] !in init;
    }
  }

  lemma {:induction false} SpanCard(left: int, right: int)
    requires left <= right + 1
    ensures |Span(left, right)| == right - left + 1
    decreases right - left
  {
    if left <= right {
      SpanCard(left, right - 1);
    }
  }

  /** Without a filter, a distinct listing that finds every point has N entries. */
  lemma ListsWholeIndex<T>(index: KdIndex<T>, q: Query<T>, order: seq<int>)
    requires index.Valid() && Distinct(order) && InIndex(index, order)
    ensures q.filter.None? && AllFound(index, q, order) ==> |order| == |index.ids|
  {
    if q.filter.None? && AllFound(index, q, order) {
      DistinctCard(order);
      SpanCard(0, |index.ids| - 1);
      assert Elems(order) == Span(0, |index.ids| - 1);
    }
  }

  // ---------------------------------------------------------------------
  // The query
  // ---------------------------------------------------------------------

  /** A leaf queues each point of [left, right] that the filter accepts, in order. */
  method PushLeaf<T>(index: KdIndex<T>, q: Query<T>, queue: MinQueue<T>, left: int, right: int)
    requires index.Valid() && 0 <= left <= right + 1 && right < |index.ids|
    modifies queue
    ensures queue.data == old(queue.data) + LeafEntries(index, q, left, right + 1)
  {
    for i := left to right + 1
      invariant queue.data == old(queue.data) + LeafEntries(index, q, left, i)
    {
      var item := index.points[index.ids[i]];
      if Accepts(q.filter, item) {
        var haverSinDX := q.trig.haverSinX(q.x - index.coords[2 * i]);
        queue.Push(Point(i, item, q.dist(haverSinDX, q.y, index.coords[2 * i + 1])));
      }
    }
  }

  /**
   * An internal node queues its median point when the filter accepts it,
   * then its two halves, each keyed by the bound of its clipped box.
   */
  method PushSplit<T>(index: KdIndex<T>, q: Query<T>, queue: MinQueue<T>, n: Node)
    requires index.Valid() && WfNode(index, n) && !IsLeaf(index, n)
    modifies queue
    ensures queue.data == old(queue.data) + SplitEntries(index, q, n)
  {
    var m := Median(n.left, n.right);
    var midX := index.coords[2 * m];
    var midY := index.coords[2 * m + 1];
    var item := index.points[index.ids[m]];
    ghost var median: seq<Entry<T>> := [];
    if Accepts(q.filter, item) {
      var haverSinDX := q.trig.haverSinX(q.x - midX);
      var p := Point(m, item, q.dist(haverSinDX, q.y, midY));
      median := [p];
      queue.Push(p);
    }
    assert median == if Accepted(index, q, m) then [PointEntry(index, q, m)] else [];
    assert queue.data == old(queue.data) + median;
    var nextAxis := NextAxis(n.axis);
    var leftNode := Node(n.left, m - 1, nextAxis, LeftBounds(n.bounds, n.axis, midX, midY));
    var rightNode := Node(m + 1, n.right, nextAxis, RightBounds(n.bounds, n.axis, midX, midY));
    var l := Box(leftNode, BoxDist(q.trig, q.dist, q.x, q.y, leftNode.bounds));
    var r := Box(rightNode, BoxDist(q.trig, q.dist, q.x, q.y, rightNode.bounds));
    assert l == NodeEntry(q, LeftChild(index, n)) && r == NodeEntry(q, RightChild(index, n));
    queue.Push(l);
    queue.Push(r);
    assert old(queue.data) + median + [l] + [r] == old(queue.data) + (median + [l, r]);
  }

  /** Expands a node: a leaf queues its points, an internal node its median and halves. */
  method PushNode<T>(index: KdIndex<T>, q: Query<T>, queue: MinQueue<T>, n: Node)
    requires index.Valid() && WfNode(index, n)
    modifies queue
    ensures queue.data == old(queue.data) + Expand(index, q, n)
  {
    if n.right - n.left <= index.nodeSize {
      PushLeaf(index, q, queue, n.left, n.right);
    } else {
      PushSplit(index, q, queue, n);
    }
  }

  /** The traversal invariant, with its ordering half when the tree is sound. */
  ghost predicate Walk<T>(index: KdIndex<T>, q: Query<T>, thr: real,
                          data: seq<Entry<T>>, node: Option<Node>, order: seq<int>)
    requires index.Valid()
  {
    && Inv(index, q, thr, data, node, order)
    && (SoundTree(index, q) ==> SoundInv(index, q, thr, data, node, order))
  }

  /** Expanding the current node keeps both invariants and lowers the measure. */
  lemma Expanded<T>(index: KdIndex<T>, q: Query<T>, thr: real, data: seq<Entry<T>>, n: Node, order: seq<int>)
    requires index.Valid() && Walk(index, q, thr, data, Some(n), order)
    ensures Walk(index, q, thr, data + Expand(index, q, n), None, order)
    ensures Measure(data + Expand(index, q, n), None) < Measure(data, Some(n))
  {
    ExpandStep(index, q, thr, data, n, order);
    if SoundTree(index, q) {
      ExpandSound(index, q, thr, data, n, order);
    }
  }

  /** Pops the next node to expand: None once the queue is empty. */
  method NextNode<T>(index: KdIndex<T>, q: Query<T>, thr: real, queue: MinQueue<T>, ghost order: seq<int>)
    returns (node: Option<Node>)
    requires index.Valid() && Walk(index, q, thr, queue.data, None, order)
    requires queue.data != [] ==> queue.data[ArgMin(queue.data)].Box?
    modifies queue
    ensures Walk(index, q, thr, queue.data, node, order)
    ensures Measure(queue.data, node) <= old(TotalWeight(queue.data))
    ensures node.None? ==> queue.data == []
    ensures old(queue.data) != [] ==>
      && node == Some(old(queue.data)[ArgMin(old(queue.data))].node)
      && queue.data == RemoveAt(old(queue.data), ArgMin(old(queue.data)))
  {
    ghost var d := queue.data;
    var next := queue.Pop();
    if next.Some? {
      AdvanceStep(index, q, thr, d, order);
      if SoundTree(index, q) {
        AdvanceSound(index, q, thr, d, order);
      }
      node := Some(next.value.node);
    } else {
      node := None;
    }
  }

  /**
   * What a query that has stopped answers: the listing is answered and
   * within the limit; unless the limit stopped it, it found every accepted
   * point when all are within reach; and over a sound tree it is nearest
   * first and, unless the limit stopped it, complete within the threshold.
   */
  ghost predicate Stopped<T>(index: KdIndex<T>, q: Query<T>, thr: real, maxResults: Option<int>,
                             result: seq<T>, order: seq<int>)
    requires index.Valid()
  {
    && Listed(index, result, order)
    && Answered(index, q, thr, order)
    && (Caps(maxResults) ==> |result| <= maxResults.value)
    && (!CapReached(maxResults, |result|) && InReach(index, q, thr) ==> AllFound(index, q, order))
    && (SoundTree(index, q) ==> Sorted(index, q, order) && NearestFirst(index, q, order))
    && (SoundTree(index, q) && !CapReached(maxResults, |result|) ==> AllWithin(index, q, thr, order))
  }

  /** The item and position of a drained point extend the listing. */
  lemma ListedAppend<T>(index: KdIndex<T>, q: Query<T>, result: seq<T>, order: seq<int>, e: Entry<T>)
    requires index.Valid() && Listed(index, result, order)
    requires e.Point? && WfEntry(index, q, e)
    ensures Listed(index, result + [e.item], order + [e.pos])
  {
  }

  /** Stopping at a nearest point beyond the threshold answers the query. */
  lemma ThresholdStops<T>(index: KdIndex<T>, q: Query<T>, thr: real, data: seq<Entry<T>>,
                          maxResults: Option<int>, result: seq<T>, order: seq<int>)
    requires index.Valid() && Walk(index, q, thr, data, None, order)
    requires Listed(index, result, order)
    requires Caps(maxResults) ==> |result| < maxResults.value
    requires |data| > 0 && data[ArgMin(data)].Point? && data[ArgMin(data)].dist > thr
    ensures Stopped(index, q, thr, maxResults, result, order)
  {
    ThresholdExit(index, q, thr, data, order);
    if SoundTree(index, q) {
      SoundNearestFirst(index, q, thr, data, None, order);
    }
  }

  /** Stopping when the limit is reached answers the query. */
  lemma CapStops<T>(index: KdIndex<T>, q: Query<T>, thr: real, data: seq<Entry<T>>,
                    maxResults: Option<int>, result: seq<T>, order: seq<int>)
    requires index.Valid() && Walk(index, q, thr, data, None, order)
    requires Listed(index, result, order)
    requires CapReached(maxResults, |result|)
    ensures Stopped(index, q, thr, maxResults, result, order)
  {
    if SoundTree(index, q) {
      SoundNearestFirst(index, q, thr, data, None, order);
    }
  }

  /** Running out of queue and nodes answers the query: every accepted point is listed. */
  lemma ExhaustedStops<T>(index: KdIndex<T>, q: Query<T>, thr: real,
                          maxResults: Option<int>, result: seq<T>, order: seq<int>)
    requires index.Valid() && Walk(index, q, thr, [], None, order)
    requires Listed(index, result, order)
    requires Caps(maxResults) ==> |result| < maxResults.value
    ensures Stopped(index, q, thr, maxResults, result, order)
    ensures AllFound(index, q, order)
  {
    assert Open<T>([], None) == {};
    if SoundTree(index, q) {
      SoundNearestFirst(index, q, thr, [], None, order);
    }
  }

  /**
   * `result` and `order` are `result0` and `order0` followed by the items and
   * positions of the points `listed`, in order.
   */
  ghost predicate ListedFrom<T>(result0: seq<T>, order0: seq<int>, result: seq<T>, order: seq<int>,
                                listed: seq<Entry<T>>) {
    && |result| == |result0| + |listed| && result[..|result0|] == result0
    && |order| == |order0| + |listed| && order[..|order0|] == order0
    && forall j :: 0 <= j < |listed| ==>
         listed[j].Point? && order[|order0| + j] == listed[j].pos && result[|result0| + j] == listed[j].item
  }

  /** Listing one more point extends `ListedFrom`. */
  lemma ListedFromAppend<T>(result0: seq<T>, order0: seq<int>, result: seq<T>, order: seq<int>,
                            listed: seq<Entry<T>>, e: Entry<T>)
    requires ListedFrom(result0, order0, result, order, listed) && e.Point?
    ensures ListedFrom(result0, order0, result + [e.item], order + [e.pos], listed + [e])
  {
    assert (result + [e.item])[..|result0|] == result[..|result0|];
    assert (order + [e.pos])[..|order0|] == order[..|order0|];
  }

  /**
   * Lists queued points for as long as a point is nearest: `done` when a
   * nearest point lies beyond the threshold or the limit is reached, else
   * the queue is empty or a node is nearest. `popped` is every entry taken
   * from the queue, in pop order; all but a last one beyond the threshold
   * are listed, in that order.
   */
  method Drain<T>(index: KdIndex<T>, q: Query<T>, thr: real, queue: MinQueue<T>, maxResults: Option<int>,
                  result0: seq<T>, ghost order0: seq<int>)
    returns (result: seq<T>, ghost order: seq<int>, done: bool, ghost popped: seq<Entry<T>>)
    requires index.Valid() && Walk(index, q, thr, queue.data, None, order0)
    requires Listed(index, result0, order0)
    requires Caps(maxResults) ==> |result0| < maxResults.value
    modifies queue
    ensures done ==> Stopped(index, q, thr, maxResults, result, order)
    ensures !done ==>
      && Walk(index, q, thr, queue.data, None, order)
      && Listed(index, result, order)
      && (Caps(maxResults) ==> |result| < maxResults.value)
      && TotalWeight(queue.data) <= old(TotalWeight(queue.data))
      && (queue.data != [] ==> queue.data[ArgMin(queue.data)].Box?)
    ensures Drained(old(queue.data), queue.data, popped)
    ensures || ListedFrom(result0, order0, result, order, popped)
            || (done && |popped| > 0 && popped[|popped| - 1].dist > thr
                && ListedFrom(result0, order0, result, order, popped[..|popped| - 1]))
  {
    result, order, done, popped := result0, order0, false, [];
    while |queue.data| > 0 && queue.Peek().value.Point?
      invariant Walk(index, q, thr, queue.data, None, order)
      invariant Listed(index, result, order)
      invariant Caps(maxResults) ==> |result| < maxResults.value
      invariant TotalWeight(queue.data) <= old(TotalWeight(queue.data))
      invariant Drained(old(queue.data), queue.data, popped)
      invariant ListedFrom(result0, order0, result, order, popped)
      decreases TotalWeight(queue.data)
    {
      ghost var d := queue.data;
      DrainedPop(old(queue.data), d, popped);
      var candidate := queue.Pop();
      if candidate.value.dist > thr {
        ThresholdStops(index, q, thr, d, maxResults, result, order);
        assert (popped + [candidate.value])[..|popped|] == popped;
        done, popped := true, popped + [candidate.value];
        break;
      }
      DrainStep(index, q, thr, d, order);
      if SoundTree(index, q) {
        DrainSound(index, q, thr, d, order);
      }
      ListedAppend(index, q, result, order, candidate.value);
      ListedFromAppend(result0, order0, result, order, popped, candidate.value);
      popped := popped + [candidate.value];
      result := result + [candidate.value.item];
      order := order + [candidate.value.pos];
      if maxResults.Some? && |result| == maxResults.value {
        CapStops(index, q, thr, queue.data, maxResults, result, order);
        done := true;
        break;
      }
    }
  }

  /**
   * The best-first walk from the root: expand the current node, drain the
   * points nearer than everything else queued, pop the next node.
   */
  method Search<T>(index: KdIndex<T>, q: Query<T>, thr: real, maxResults: Option<int>)
    returns (result: seq<T>, ghost order: seq<int>)
    requires index.Valid()
    ensures Stopped(index, q, thr, maxResults, result, order)
    ensures Caps(maxResults) ==> |result| <= maxResults.value
    ensures forall j :: 0 <= j < |result| ==> Accepts(q.filter, result[j])
  {
    result := [];
    order := [];
    var queue := new MinQueue<T>();
    var node: Option<Node> := Some(Root(index));
    InitStep(index, q, thr);
    while node.Some?
      invariant Walk(index, q, thr, queue.data, node, order)
      invariant Listed(index, result, order)
      invariant Caps(maxResults) ==> |result| < maxResults.value
      invariant node.None? ==> queue.data == []
      decreases Measure(queue.data, node)
    {
      var n := node.value;
      ghost var before := queue.data;
      PushNode(index, q, queue, n);
      Expanded(index, q, thr, before, n, order);
      var done;
      ghost var popped;
      result, order, done, popped := Drain(index, q, thr, queue, maxResults, result, order);
      if done {
        return;
      }
      node := NextNode(index, q, thr, queue, order);
    }
    ExhaustedStops(index, q, thr, maxResults, result, order);
  }

  /**
   * The k nearest points around (lng, lat), nearest first: `result` holds
   * the items and `order` their tree positions.
   */
  method Around<T>(index: KdIndex<T>, trig: Trig, lng: real, lat: real,
                   maxResults: Option<int>, maxDistance: Option<real>, filter: Option<T -> bool>)
    returns (result: seq<T>, ghost order: seq<int>)
    requires index.Valid()
    ensures var q := QueryOf(trig, lng, lat, filter);
      var thr := Threshold(trig, maxDistance);
      && Listed(index, result, order)
      && Answered(index, q, thr, order)
      && (!CapReached(maxResults, |result|) && InReach(index, q, thr) ==> AllFound(index, q, order))
      && (SoundTree(index, q) ==> Sorted(index, q, order) && NearestFirst(index, q, order))
      && (SoundTree(index, q) && !CapReached(maxResults, |result|) ==> AllWithin(index, q, thr, order))
    ensures Caps(maxResults) ==> |result| <= maxResults.value
    ensures forall j :: 0 <= j < |result| ==> Accepts(filter, result[j])
    ensures !Caps(maxResults) && maxDistance.None? && filter.None? && UnitRange(index, QueryOf(trig, lng, lat, filter)) ==>
      |result| == |index.ids|
    ensures |index.ids| == 0 ==> result == []
  {
    var q := QueryOf(trig, lng, lat, filter);
    var thr := Threshold(trig, maxDistance);
    result, order := Search(index, q, thr, maxResults);
    if UnitRange(index, q) {
      UnitRangeInReach(index, q);
    }
    ListsWholeIndex(index, q, order);
    assert |order| > 0 ==> 0 <= order[0] < |index.ids|;
  }
}
