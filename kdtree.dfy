/**
 * The flat k-d tree that `around` walks: positions 0..N-1 of `ids`, each with
 * projected coordinates (coords[2i], coords[2i+1]); a node is a range of
 * positions [left, right] with a split axis and a bounding box, and an
 * internal node splits at its median position.
 */
module KdTree {
  import opened Options
  import opened Haversine

  /**
   * A kdbush index as `around` reads it: `ids[i]` is the item id stored at
   * position i, `points[id]` the item itself, `nodeSize` the leaf size.
   */
  datatype KdIndex<T> = KdIndex(ids: seq<int>, coords: seq<real>, points: seq<T>, nodeSize: int)
  {
    predicate Valid() {
      && nodeSize >= 0
      && |coords| == 2 * |ids|
      && forall i :: 0 <= i < |ids| ==> 0 <= ids[i] < |points|
    }

    /** The item at tree position i: `index.points[index.ids[i]]`. */
    function ItemAt(i: int): T
      requires Valid() && 0 <= i < |ids|
    {
      points[ids[i]]
    }

    function X(i: int): real
      requires Valid() && 0 <= i < |ids|
    {
      coords[2 * i]
    }

    function Y(i: int): real
      requires Valid() && 0 <= i < |ids|
    {
      coords[2 * i + 1]
    }
  }

  /**
   * The query point in projected units, the trigonometric helpers and the
   * optional filter (the source's `predicate` argument).
   */
  datatype Query<-T> = Query(trig: Trig, x: real, y: real, filter: Option<T -> bool>,
                             dist: (real, real, real) -> real)

  /** `!predicate || predicate(item)` */
  predicate Accepts<T>(filter: Option<T -> bool>, item: T) {
    filter.None? || filter.value(item)
  }

  /** Haversine of the distance from the query to the point at position i. */
  function PointDist<T>(index: KdIndex<T>, q: Query<T>, i: int): real
    requires index.Valid() && 0 <= i < |index.ids|
  {
    q.dist(q.trig.haverSinX(q.x - index.X(i)), q.y, index.Y(i))
  }

  /** A k-d tree node: a range of positions, its split axis and its box. */
  datatype Node = Node(left: int, right: int, axis: int, bounds: Bounds)

  /** A node of `index`: a possibly empty range inside [0, N-1], axis 0 or 1. */
  predicate WfNode<T>(index: KdIndex<T>, n: Node) {
    && 0 <= n.left <= n.right + 1
    && n.right < |index.ids|
    && (n.axis == 0 || n.axis == 1)
  }

  /** The positions of a node. */
  function Span(left: int, right: int): (s: set<int>)
    ensures forall i :: i in s <==> left <= i <= right
    decreases right - left
  {
    if right < left then {} else Span(left, right - 1) + {right}
  }

  /** The whole tree: every position, longitude axis first, the whole projected plane. */
  function Root<T>(index: KdIndex<T>): (n: Node)
    ensures WfNode(index, n)
    ensures Span(n.left, n.right) == Span(0, |index.ids| - 1)
  {
    Node(0, |index.ids| - 1, 0, Bounds(-1.0, -1.0, 1.0, 1.0))
  }

  /** A node is a leaf when it holds at most nodeSize + 1 positions. */
  predicate IsLeaf<T>(index: KdIndex<T>, n: Node) {
    n.right - n.left <= index.nodeSize
  }

  /**
   * The middle position `(left + right) >> 1`; for the non-negative sums that
   * occur here the shift is halving rounded down.
   */
  function Median(left: int, right: int): (m: int)
    requires 0 <= left <= right
    ensures left <= m <= right
    ensures m - left <= right - m <= m - left + 1
  {
    (left + right) / 2
  }

  /** `(axis + 1) % 2`: the split axis alternates between longitude and latitude. */
  function NextAxis(axis: int): (r: int)
    requires axis == 0 || axis == 1
    ensures r == 0 || r == 1
    ensures r != axis
  {
    (axis + 1) % 2
  }

  /** The box of the first half: clipped at the median on the split axis. */
  function LeftBounds(b: Bounds, axis: int, midX: real, midY: real): Bounds {
    Bounds(b.minX, b.minY,
           if axis == 0 then midX else b.maxX,
           if axis == 1 then midY else b.maxY)
  }

  /** The box of the second half: clipped at the median on the split axis. */
  function RightBounds(b: Bounds, axis: int, midX: real, midY: real): Bounds {
    Bounds(if axis == 0 then midX else b.minX,
           if axis == 1 then midY else b.minY,
           b.maxX, b.maxY)
  }

  /** The first half [left, m - 1] of an internal node. */
  function LeftChild<T>(index: KdIndex<T>, n: Node): (c: Node)
    requires index.Valid() && WfNode(index, n) && !IsLeaf(index, n)
    ensures WfNode(index, c)
    ensures c.left == n.left && c.right == Median(n.left, n.right) - 1
    ensures c.right - c.left < n.right - n.left
  {
    var m := Median(n.left, n.right);
    Node(n.left, m - 1, NextAxis(n.axis), LeftBounds(n.bounds, n.axis, index.X(m), index.Y(m)))
  }

  /** The second half [m + 1, right] of an internal node. */
  function RightChild<T>(index: KdIndex<T>, n: Node): (c: Node)
    requires index.Valid() && WfNode(index, n) && !IsLeaf(index, n)
    ensures WfNode(index, c)
    ensures c.left == Median(n.left, n.right) + 1 && c.right == n.right
    ensures c.right - c.left < n.right - n.left
  {
    var m := Median(n.left, n.right);
    Node(m + 1, n.right, NextAxis(n.axis), RightBounds(n.bounds, n.axis, index.X(m), index.Y(m)))
  }

  /**
   * The halves of an internal node take the next axis and copy the parent's
   * box except on the split axis, where the first half's maximum and the
   * second half's minimum become the median point's coordinate.
   */
  lemma ChildBoxes<T>(index: KdIndex<T>, n: Node)
    requires index.Valid() && WfNode(index, n) && !IsLeaf(index, n)
    ensures var m := Median(n.left, n.right);
      var l := LeftChild(index, n);
      var r := RightChild(index, n);
      && l.axis == r.axis == NextAxis(n.axis)
      && l.bounds.minX == n.bounds.minX && l.bounds.minY == n.bounds.minY
      && r.bounds.maxX == n.bounds.maxX && r.bounds.maxY == n.bounds.maxY
      && (n.axis == 0 ==>
            && l.bounds.maxX == index.X(m) == r.bounds.minX
            && l.bounds.maxY == n.bounds.maxY && r.bounds.minY == n.bounds.minY)
      && (n.axis == 1 ==>
            && l.bounds.maxY == index.Y(m) == r.bounds.minY
            && l.bounds.maxX == n.bounds.maxX && r.bounds.minX == n.bounds.minX)
  {
  }

  /**
   * An internal node has at least two positions, and its two halves and its
   * median partition its range.
   */
  lemma SplitPartitions<T>(index: KdIndex<T>, n: Node)
    requires index.Valid() && WfNode(index, n) && !IsLeaf(index, n)
    ensures n.left < n.right
    ensures var m := Median(n.left, n.right);
      && Span(n.left, n.right) == Span(n.left, m - 1) + {m} + Span(m + 1, n.right)
      && Span(n.left, m - 1) !! Span(m + 1, n.right)
      && m !in Span(n.left, m - 1) && m !in Span(m + 1, n.right)
  {
  }

  /**
   * The children alternate the axis and clip only that axis at the median;
   * their boxes together are exactly the parent's box when the median point
   * lies inside it, and each lies inside the parent's box.
   */
  lemma SplitBounds(b: Bounds, axis: int, midX: real, midY: real, px: real, py: real)
    requires axis == 0 || axis == 1
    requires InBounds(midX, midY, b)
    ensures InBounds(px, py, LeftBounds(b, axis, midX, midY)) ==> InBounds(px, py, b)
    ensures InBounds(px, py, RightBounds(b, axis, midX, midY)) ==> InBounds(px, py, b)
    ensures InBounds(px, py, b) ==>
      InBounds(px, py, LeftBounds(b, axis, midX, midY)) || InBounds(px, py, RightBounds(b, axis, midX, midY))
  {
  }

  /**
   * The k-d ordering kdbush establishes: in every internal node, positions
   * before the median are at most the median on the split axis and positions
   * after it at least.
   */
  ghost predicate KdOrdered<T>(index: KdIndex<T>, n: Node)
    requires index.Valid() && WfNode(index, n)
    decreases n.right - n.left + 1
  {
    !IsLeaf(index, n) ==>
      var m := Median(n.left, n.right);
      && (forall i :: n.left <= i < m ==> Coord(index, i, n.axis) <= Coord(index, m, n.axis))
      && (forall i :: m < i <= n.right ==> Coord(index, m, n.axis) <= Coord(index, i, n.axis))
      && KdOrdered(index, LeftChild(index, n))
      && KdOrdered(index, RightChild(index, n))
  }

  function Coord<T>(index: KdIndex<T>, i: int, axis: int): real
    requires index.Valid() && 0 <= i < |index.ids|
  {
    if axis == 0 then index.X(i) else index.Y(i)
  }

  /** Every position of the node lies inside the node's box. */
  ghost predicate InsideBox<T>(index: KdIndex<T>, n: Node)
    requires index.Valid() && WfNode(index, n)
  {
    forall i :: n.left <= i <= n.right ==> InBounds(index.X(i), index.Y(i), n.bounds)
  }

  /**
   * The spherical fact `boxDist` relies on, taken as a hypothesis: for the
   * query, the bound of a box inside the projected globe is at most the
   * distance to any point inside it.
   */
  ghost predicate LowerBoundGeometry<T>(q: Query<T>) {
    forall b: Bounds, px: real, py: real :: InGlobe(b) && InBounds(px, py, b) ==>
      BoxDist(q.trig, q.dist, q.x, q.y, b) <= q.dist(q.trig.haverSinX(q.x - px), q.y, py)
  }

  /**
   * The hypothesis is not contradictory: with a degenerate trigonometry that
   * ignores longitude (every point on the query's meridian, the vertex
   * latitude the query's own), the corrected formula meets it for every
   * query at a real latitude.
   */
  lemma MeridianGeometry<T>(trig: Trig, x: real, y: real, filter: Option<T -> bool>)
    requires forall d :: trig.haverSinX(d) == 0.0
    requires forall y', h :: trig.vertexY(y', h) == y'
    requires -1.0 <= y <= 1.0
    ensures LowerBoundGeometry(Query(trig, x, y, filter, HaverSinDist))
  {
    forall b: Bounds, px: real, py: real | InGlobe(b) && InBounds(px, py, b)
      ensures BoxDist(trig, HaverSinDist, x, y, b) <= HaverSinDist(trig.haverSinX(x - px), y, py)
    {
      assert trig.haverSinX(x - px) == 0.0;
      MeridianBound(trig, x, y, b, py);
    }
  }

  lemma MeridianBound(trig: Trig, x: real, y: real, b: Bounds, py: real)
    requires forall d :: trig.haverSinX(d) == 0.0
    requires forall y', h :: trig.vertexY(y', h) == y'
    requires -1.0 <= y <= 1.0
    requires InGlobe(b) && b.minY <= py <= b.maxY
    ensures BoxDist(trig, HaverSinDist, x, y, b) <= HaverSinDist(0.0, y, py)
  {
    HaverSinDistRange(0.0, y, py);
    if y < b.minY {
      MeridianMonotone(y, b.minY, py);
    } else if y > b.maxY {
      MeridianMonotone(y, b.maxY, py);
    } else {
      HaverSinDistZeroIff(y, y);
      if !(x >= b.minX && x <= b.maxX) {
        assert trig.haverSinX(x - b.minX) == 0.0 && trig.haverSinX(x - b.maxX) == 0.0;
        assert trig.vertexY(y, 0.0) == y;
      }
    }
  }

  /**
   * The source formula as written is not such a lower bound inside the
   * globe: from (0, -1/2), the box x = 0, y in [1/2, 1] gets the bound
   * 144/625, but its point (0, 1) lies at 9/100.
   */
  lemma AsWrittenNotLowerBound<T>(trig: Trig, filter: Option<T -> bool>)
    requires trig.haverSinX(0.0) == 0.0
    ensures !LowerBoundGeometry(Query(trig, 0.0, -0.5, filter, HaverSinDistAsWritten))
  {
    var b := Bounds(0.0, 0.5, 0.0, 1.0);
    assert InGlobe(b) && InBounds(0.0, 1.0, b);
    AsWrittenMidLatitudes();
    AsWrittenToPole();
    assert BoxDist(trig, HaverSinDistAsWritten, 0.0, -0.5, b) == 144.0 / 625.0;
    assert 0.0 - 0.0 == 0.0;
  }

  /**
   * The traversal's soundness condition: below `n`, every child box pushed
   * with its `boxDist` lower-bounds the distance of every position in it.
   */
  ghost predicate SoundNode<T>(index: KdIndex<T>, q: Query<T>, n: Node)
    requires index.Valid() && WfNode(index, n)
    decreases n.right - n.left + 1
  {
    !IsLeaf(index, n) ==>
      var l := LeftChild(index, n);
      var r := RightChild(index, n);
      && BoundsSpan(index, q, l)
      && BoundsSpan(index, q, r)
      && SoundNode(index, q, l)
      && SoundNode(index, q, r)
  }

  /** The bound of node `c`'s box is at most the distance of each of its positions. */
  ghost predicate BoundsSpan<T>(index: KdIndex<T>, q: Query<T>, c: Node)
    requires index.Valid() && WfNode(index, c)
  {
    forall i :: c.left <= i <= c.right ==> BoxDist(q.trig, q.dist, q.x, q.y, c.bounds) <= PointDist(index, q, i)
  }

  ghost predicate SoundTree<T>(index: KdIndex<T>, q: Query<T>)
    requires index.Valid()
  {
    SoundNode(index, q, Root(index))
  }

  /** The halves of a k-d ordered node inside its box lie inside their own boxes. */
  lemma ChildrenInside<T>(index: KdIndex<T>, n: Node)
    requires index.Valid() && WfNode(index, n) && !IsLeaf(index, n)
    requires KdOrdered(index, n) && InsideBox(index, n)
    ensures InsideBox(index, LeftChild(index, n))
    ensures InsideBox(index, RightChild(index, n))
  {
    var m := Median(n.left, n.right);
    var l := LeftChild(index, n);
    var r := RightChild(index, n);
    forall i | l.left <= i <= l.right
      ensures InBounds(index.X(i), index.Y(i), l.bounds)
    {
      assert Coord(index, i, n.axis) <= Coord(index, m, n.axis);
    }
    forall i | r.left <= i <= r.right
      ensures InBounds(index.X(i), index.Y(i), r.bounds)
    {
      assert Coord(index, m, n.axis) <= Coord(index, i, n.axis);
    }
  }

  /** The halves of a node whose points lie in its box inside the globe have boxes inside the globe. */
  lemma ChildrenInGlobe<T>(index: KdIndex<T>, n: Node)
    requires index.Valid() && WfNode(index, n) && !IsLeaf(index, n)
    requires InsideBox(index, n) && InGlobe(n.bounds)
    ensures InGlobe(LeftChild(index, n).bounds)
    ensures InGlobe(RightChild(index, n).bounds)
  {
    var m := Median(n.left, n.right);
    assert InBounds(index.X(m), index.Y(m), n.bounds);
  }

  /**
   * A k-d ordered tree whose points lie in their boxes inside the globe is
   * sound for any query for which `boxDist` is a geometric lower bound.
   */
  lemma {:induction false} OrderedTreeIsSound<T>(index: KdIndex<T>, q: Query<T>, n: Node)
    requires index.Valid() && WfNode(index, n)
    requires KdOrdered(index, n) && InsideBox(index, n) && InGlobe(n.bounds)
    requires LowerBoundGeometry(q)
    ensures SoundNode(index, q, n)
    decreases n.right - n.left + 1
  {
    if !IsLeaf(index, n) {
      var l := LeftChild(index, n);
      var r := RightChild(index, n);
      ChildrenInside(index, n);
      ChildrenInGlobe(index, n);
      forall i | l.left <= i <= l.right
        ensures BoxDist(q.trig, q.dist, q.x, q.y, l.bounds) <= PointDist(index, q, i)
      {
        assert InBounds(index.X(i), index.Y(i), l.bounds);
      }
      forall i | r.left <= i <= r.right
        ensures BoxDist(q.trig, q.dist, q.x, q.y, r.bounds) <= PointDist(index, q, i)
      {
        assert InBounds(index.X(i), index.Y(i), r.bounds);
      }
      OrderedTreeIsSound(index, q, l);
      OrderedTreeIsSound(index, q, r);
    }
  }

  /** The whole tree: the root's box is the projected globe. */
  lemma OrderedRootIsSound<T>(index: KdIndex<T>, q: Query<T>)
    requires index.Valid()
    requires KdOrdered(index, Root(index)) && InsideBox(index, Root(index))
    requires LowerBoundGeometry(q)
    ensures SoundTree(index, q)
  {
    OrderedTreeIsSound(index, q, Root(index));
  }
}
