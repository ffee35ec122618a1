# geokdbush-braun `around`, modelled in Dafny

geokdbush-braun answers "the k nearest points around (lng, lat)" over a
kdbush index. The index is a flat, implicit k-d tree: position ranges over
`ids` and `coords`, where an internal node splits at its median position.
Coordinates are projected: x = longitude / 180 and y = tan(latitude / 2),
a Braun-style latitude.

The query is best first. One min-priority queue holds resolved points and
k-d tree boxes side by side, each keyed by a haversine distance or a lower
bound of one. Each round:

- **Expand.** The current node is expanded. A leaf queues every accepted
  point. An internal node queues its median point and its two halves, each
  keyed by `boxDist` of its clipped box.
- **Drain.** Points are moved from the queue into the result for as long as
  a point is the queue's minimum. This stops at the distance threshold or
  at `maxResults`.
- **Advance.** The next box is popped.

Modules:

- `Options` (options.dfy): `Option`, which stands for the source's
  `undefined` arguments and the empty pop.
- `Haversine` (haversine.dfy): `haverSinDist` as written and corrected,
  `boxDist`, and their algebraic properties.
- `KdTree` (kdtree.dfy):
  - the index;
  - nodes, medians and children, with their clipped boxes;
  - the k-d ordering;
  - the soundness condition, i.e. that each box key bounds the distances
    of its points.
- `Queue` (queue.dfy): the tagged queue entries, `compareDist`, and a
  `MinQueue` class that pops a first entry of least `dist`.
- `Geokdbush` (around.dfy): `around`, as the imperative methods
  `Around` / `Search` / `PushNode` / `Drain` / `NextNode`. The methods are
  proved against a ghost invariant over the queue contents.

What `Around` guarantees:

- **Its result.** `result[j]` is the item at the j-th listed tree position.
  No position is listed twice. Every listed item passes the filter and is
  within the threshold.
- **The limit.** The result never exceeds a positive `maxResults`.
- **Completeness.** Unless the limit stopped the query:
  - when every accepted point is within the threshold, every one is listed;
  - with no limit, no distance and no filter, the result has N items.
- **Empty index.** An empty index gives `[]`.
- **Ordering.** These hold whenever every queued box's key lower-bounds
  the distances of its points (`SoundTree`):
  - the listing is in non-decreasing distance;
  - no unlisted accepted point is nearer than a listed one;
  - unless the limit stopped it, every accepted point within the
    threshold is listed.

`KdTree.OrderedRootIsSound` derives `SoundTree` from two facts. The first
is the k-d ordering of a tree whose points lie in the projected globe
[-1, 1] x [-1, 1]. The second is the geometric fact that `boxDist`
lower-bounds the distance to any point in a box inside that globe
(`LowerBoundGeometry`). The children of such a node keep their boxes inside
the globe (`ChildrenInGlobe`). `KdTree.MeridianGeometry` shows that the
geometric hypothesis is not contradictory: with a trigonometry that ignores
longitude, the corrected formula meets it. `KdTree.AsWrittenNotLowerBound`
shows that the source formula as written does not meet it.

## Model

| member | source | states |
|---|---|---|
| Geokdbush.Around | geokdbush-braun.js:17-126 | The listing is the items at distinct tree positions, each accepted by the filter and within the threshold (1, or haverSin(maxDistance / 6371)). It holds at most a positive maxResults items. With no limit and every accepted point in reach, every one is listed. On a sound tree it is in non-decreasing distance and nearest first, and it is complete within the threshold unless the limit stopped it. With no limit, distance or filter it has N items. An empty index gives []. |
| Geokdbush.Search | geokdbush-braun.js:27-125 | The expand / drain / advance loop from the root always terminates with a stopped, answered listing (the ensures of Around, for any distance function). The result respects a positive maxResults, and every item passes the filter. |
| Geokdbush.PushNode | geokdbush-braun.js:44-110 | A node with right - left <= nodeSize queues its leaf points; any other node queues its median and halves. |
| Geokdbush.PushLeaf | geokdbush-braun.js:47-59 | The leaf loop appends, in position order, the entry {item, dist} of each position in [left, right] that the filter accepts. |
| Geokdbush.PushSplit | geokdbush-braun.js:61-109 | Appends the median point when accepted, then the left and right halves, each keyed by boxDist of its clipped box. |
| Geokdbush.Drain | geokdbush-braun.js:114-119 | While a point is the minimum, it pops it. It stops with an answered listing if its dist exceeds the threshold or the result reaches maxResults; otherwise it lists it, keeping the invariant. On exit the queue is empty or a box is its minimum. The popped entries are exactly what left the queue: points, in non-decreasing distance, none farther than an entry still queued. The listing is the one it was given followed by every popped point in pop order, except a last one beyond the threshold. |
| Geokdbush.NextNode | geokdbush-braun.js:122 | Pops the first least entry of a non-empty queue, a box, as the node to expand, and leaves the queue without it. It keeps the invariant and does not raise the measure. It returns None only for an empty queue. |
| Geokdbush.QueryOf | geokdbush-braun.js:19 | The query's x times 180 is the longitude, and y is braunY of the latitude in radians. |
| Geokdbush.Threshold | geokdbush-braun.js:21-25 | Definition: 1, the largest haversine, without maxDistance; else haverSin(maxDistance / 6371). UnitRangeInReach states what the default admits. |
| Geokdbush.Caps | geokdbush-braun.js:22 | Definition: a limit can stop the query only when present and at least 1. An absent limit is Infinity, which result.length never equals. |
| Geokdbush.CapReached | geokdbush-braun.js:118 | Definition: result.length === maxResults for a limit that can stop the query. |
| Geokdbush.UnitRangeInReach | geokdbush-braun.js:21-25 | With real latitudes and longitude haversines in [0, 1], every point is within the threshold without maxDistance, which is 1. |
| Geokdbush.InitStep | geokdbush-braun.js:31-40 | The root node over [0, N-1] with an empty queue satisfies the traversal invariant, and its ordering half for a sound tree. |
| Geokdbush.LeafEntries | geokdbush-braun.js:50-59 | Definition: the entries {item, dist} of the accepted positions of [left, hi), in order. The LeafEntries lemmas below state what they hold. |
| Geokdbush.SplitEntries | geokdbush-braun.js:61-109 | Definition: the median point when accepted, then both halves keyed by boxDist. SplitPending, SplitWeight and SplitWf state what they hold. |
| Geokdbush.Expand | geokdbush-braun.js:47-109 | Definition: the leaf entries when right - left <= nodeSize, else the split entries. ExpandFacts states what they hold. |
| Geokdbush.LeafEntriesPending | geokdbush-braun.js:50-59 | The positions a leaf queues are exactly its accepted positions. |
| Geokdbush.LeafEntriesPoints | geokdbush-braun.js:50-58 | Each entry a leaf queues is the accepted point at its position, with that point's distance. |
| Geokdbush.LeafEntriesIncreasing | geokdbush-braun.js:50 | A leaf queues its points in strictly increasing position. |
| Geokdbush.LeafEntriesWeight | geokdbush-braun.js:50-59 | A leaf queues at most one entry per position. |
| Geokdbush.LeafExpandFacts | geokdbush-braun.js:47-59 | A leaf's entries are well formed and pairwise disjoint, and they weigh less than the leaf. |
| Geokdbush.LeafCovers | geokdbush-braun.js:47-59 | A leaf's entries hold positions of its range only, and every accepted one of them. |
| Geokdbush.AcceptedInMembers | geokdbush-braun.js:50-52 | A position is among a leaf's accepted positions exactly when it is in the range and the filter accepts its item. |
| Geokdbush.SplitWf | geokdbush-braun.js:61-109 | An internal node's entries are well formed and disjoint. Its child boxes are sound when the node is. |
| Geokdbush.SplitDisjoint | geokdbush-braun.js:63-101 | The median point and the two halves hold disjoint positions. |
| Geokdbush.SplitSound | geokdbush-braun.js:103-108 | Below a sound node, each pushed child box's key bounds its points. |
| Geokdbush.SplitPending | geokdbush-braun.js:63-108 | An internal node's entries hold exactly its median (when accepted) and the ranges [left, m - 1] and [m + 1, right]. |
| Geokdbush.SplitWeight | geokdbush-braun.js:63-108 | The entries of an internal node weigh less than the node: the loop terminates. |
| Geokdbush.ExpandFacts | geokdbush-braun.js:47-109 | Expanding a node queues disjoint, well-formed entries within its range. They cover every accepted position and weigh less than the node. |
| Geokdbush.ExpandStep | geokdbush-braun.js:45-110 | Expanding keeps the invariant: every accepted position is listed or held, never both, and the measure drops. |
| Geokdbush.ExpandSound | geokdbush-braun.js:103-108 | Expanding a sound node keeps every queued box key a lower bound of its points. |
| Geokdbush.Expanded | geokdbush-braun.js:45-110 | Both invariants survive an expansion and the measure strictly drops. |
| Geokdbush.DrainStep | geokdbush-braun.js:114-117 | Listing the minimum point within the threshold keeps the listing distinct, accepted and within the threshold. Every accepted point stays listed or held, and the queue loses weight. |
| Geokdbush.ListPoint | geokdbush-braun.js:117 | Moving one held accepted point within the threshold into the listing keeps it answered, apart from what is held, and covering. |
| Geokdbush.DrainSound | geokdbush-braun.js:111-117 | On a sound tree, the drained minimum is no nearer than anything listed before it, and nothing held is nearer than it. |
| Geokdbush.ListNearest | geokdbush-braun.js:111-117 | Appending a point no nearer than the last listed one keeps the listing sorted. |
| Geokdbush.PendingAbove | geokdbush-braun.js:111-113 | In a sound queue every held point is at least as far as every key in the queue. |
| Geokdbush.AdvanceStep | geokdbush-braun.js:122 | Popping a box keeps the held positions and the invariant. |
| Geokdbush.SameOpen | geokdbush-braun.js:122 | A queue and current node that hold exactly what the old queue held keep the invariant. |
| Geokdbush.AdvanceSound | geokdbush-braun.js:122 | Popping a box from a sound queue keeps the ordering invariant. |
| Geokdbush.ThresholdExit | geokdbush-braun.js:116 | A nearest point beyond the threshold means some accepted point is out of reach. On a sound tree everything within reach is then already listed. |
| Geokdbush.ThresholdStops | geokdbush-braun.js:116 | Returning at the threshold answers the query. |
| Geokdbush.CapStops | geokdbush-braun.js:118 | Returning at result.length === maxResults answers the query. |
| Geokdbush.ExhaustedStops | geokdbush-braun.js:122-125 | Leaving the loop with nothing queued lists every accepted point. |
| Geokdbush.ListedAppend | geokdbush-braun.js:117 | Pushing the candidate's item extends the item listing in step with the positions. |
| Geokdbush.ListedFromAppend | geokdbush-braun.js:117 | Listing one more point appends its item and position after those already listed. |
| Geokdbush.SoundNearestFirst | geokdbush-braun.js:111-113 | On a sound tree no accepted point that is still held is nearer than a listed one. |
| Geokdbush.ListsWholeIndex | geokdbush-braun.js:33 | A distinct listing that finds every point of an unfiltered index has exactly N entries. |
| Geokdbush.SpanCard | geokdbush-braun.js:33 | The range [left, right] holds right - left + 1 positions. |
| Geokdbush.DistinctCard | geokdbush-braun.js:117 | A listing without repeats has as many elements as entries. |
| KdTree.Root | geokdbush-braun.js:31-40 | The root node covers every position 0 .. N-1. |
| KdTree.IsLeaf | geokdbush-braun.js:47 | Definition: right - left <= nodeSize. SplitPartitions states that any other node has at least two positions. |
| KdTree.Accepts | geokdbush-braun.js:52 | Definition: there is no filter, or the filter accepts the item. |
| KdTree.PointDist | geokdbush-braun.js:53-56 | Definition: haverSinDist(haverSinX(x - X(i)), y, Y(i)) for the point at position i. |
| KdTree.Median | geokdbush-braun.js:63 | (left + right) >> 1 lies in [left, right] and splits the range into halves differing by at most one. |
| KdTree.NextAxis | geokdbush-braun.js:78 | (axis + 1) % 2 is the other axis. |
| KdTree.LeftBounds | geokdbush-braun.js:85-88 | Definition: the parent's box with maxX (axis 0) or maxY (axis 1) clipped to the median's coordinate. ChildBoxes and SplitBounds state its properties. |
| KdTree.RightBounds | geokdbush-braun.js:96-99 | Definition: the parent's box with minX (axis 0) or minY (axis 1) clipped to the median's coordinate. ChildBoxes and SplitBounds state its properties. |
| KdTree.LeftChild | geokdbush-braun.js:81-90 | The first half is [left, m - 1], a node of the index, strictly smaller than its parent. |
| KdTree.RightChild | geokdbush-braun.js:92-101 | The second half is [m + 1, right], a node of the index, strictly smaller than its parent. |
| KdTree.SplitPartitions | geokdbush-braun.js:63-101 | An internal node has at least two positions. Its two halves and {m} partition [left, right]. |
| KdTree.ChildBoxes | geokdbush-braun.js:78-101 | The halves take the next axis. Only the split axis is clipped at the median's coordinate; every other bound is the parent's. |
| KdTree.SplitBounds | geokdbush-braun.js:85-99 | The clipped boxes lie inside the parent's box and together cover it. |
| KdTree.ChildrenInside | geokdbush-braun.js:81-101 | The halves of a k-d ordered node whose points lie in its box have their points in their own boxes. |
| KdTree.ChildrenInGlobe | geokdbush-braun.js:84-99 | The halves of a node whose points lie in its box inside the projected globe have boxes inside the globe. |
| KdTree.OrderedTreeIsSound | geokdbush-braun.js:111-113 | A k-d ordered node whose points lie in its box inside the globe is sound when boxDist lower-bounds the distance to points in boxes inside the globe. |
| KdTree.OrderedRootIsSound | geokdbush-braun.js:31-40 | The root's box is the whole globe, so a k-d ordered tree with its points in the globe is sound under the same hypothesis. |
| KdTree.MeridianGeometry | geokdbush-braun.js:129-151 | With a trigonometry that ignores longitude, the corrected boxDist lower-bounds the distance to every point of every box inside the globe. The hypothesis is therefore not contradictory. |
| KdTree.AsWrittenNotLowerBound | geokdbush-braun.js:174 | With the formula as written, boxDist is not a lower bound inside the globe. From (0, -1/2), the box x = 0, y in [1/2, 1] gets 144/625, but its point (0, 1) lies at 9/100. |
| Queue.CompareDist | geokdbush-braun.js:153-155 | a.dist - b.dist is negative exactly when a is nearer, and zero exactly at equal distances. |
| Queue.ArgMin | geokdbush-braun.js:153-155 | The first entry of least dist. |
| Queue.MinIndex | geokdbush-braun.js:115 | The scan finds exactly ArgMin. |
| Queue.MinQueue.Push | geokdbush-braun.js:107-108 | Appends the entry. |
| Queue.MinQueue.Peek | geokdbush-braun.js:114 | None exactly on an empty queue, else an entry of least dist: the first one, which Pop removes. |
| Queue.MinQueue.Pop | geokdbush-braun.js:122 | Removes and returns the first entry of least dist, or None on an empty queue. |
| Queue.RemoveAtMultiset | geokdbush-braun.js:115 | Removing one entry leaves exactly the other entries of the queue. |
| Queue.DrainedPop | geokdbush-braun.js:114-115 | Popping a least entry that is a point extends the popped points: nothing is lost, the pops stay in non-decreasing distance, and none is farther than what remains queued. |
| Haversine.Square | geokdbush-braun.js:157-159 | A square is non-negative. |
| Haversine.Min | geokdbush-braun.js:145-150 | Math.min is one of its arguments and at most both. |
| Haversine.Den | geokdbush-braun.js:173 | The denominator (1 + y1^2)(1 + y2^2) is at least 1, so the division is defined. |
| Haversine.HaverSinDistAsWritten | geokdbush-braun.js:170-176 | Definition: the source formula as written. The AsWritten lemmas state its properties. |
| Haversine.HaverSinDist | geokdbush-braun.js:170-176 | Definition: the formula with the haversine latitude term (y1 - y2)^2. The lemmas below state its properties. |
| Haversine.AsWrittenLatitudeTerm | geokdbush-braun.js:174 | The latitude term as written is (y1 - y2)^2 (1 + y1 y2)^2. That is the haversine's (y1 - y2)^2 with an extra factor. |
| Haversine.AsWrittenZero | geokdbush-braun.js:170-176 | As written, haverSinDist(0, y, y) = 0. |
| Haversine.AsWrittenSymmetric | geokdbush-braun.js:170-176 | As written, haverSinDist is symmetric in y1 and y2. |
| Haversine.AsWrittenPoleToPole | geokdbush-braun.js:170-176 | As written, pole to pole on one meridian gives 0. |
| Haversine.AsWrittenToPole | geokdbush-braun.js:170-176 | As written, from y = -1/2 to the pole gives 9/100. |
| Haversine.AsWrittenMidLatitudes | geokdbush-braun.js:170-176 | As written, from y = -1/2 to y = 1/2 gives 144/625. |
| Haversine.AsWrittenCounterexample | geokdbush-braun.js:170-176 | As written, the pole is ranked nearer to y = -1/2 than y = 1/2 on the same meridian. |
| Haversine.CorrectedPoleToPole | geokdbush-braun.js:170-176 | Corrected, pole to pole gives the maximum haversine 1. |
| Haversine.CorrectedMidLatitudes | geokdbush-braun.js:170-176 | Corrected, from y = -1/2 to y = 1/2 gives 16/25. |
| Haversine.CorrectedToPole | geokdbush-braun.js:170-176 | Corrected, from y = -1/2 to the pole gives 9/10, farther than y = 1/2. |
| Haversine.Unfolded | geokdbush-braun.js:170-176 | The corrected formula is (h cos1 cos2 + (y1 - y2)^2) / ((1 + y1^2)(1 + y2^2)). |
| Haversine.OnMeridian | geokdbush-braun.js:170-176 | With no longitude difference only the latitude haversine (y1 - y2)^2 / den remains. |
| Haversine.HaverSinDistSymmetric | geokdbush-braun.js:170-176 | The distance is symmetric in the two latitudes. |
| Haversine.HaverSinDistZeroIff | geokdbush-braun.js:170-176 | On one meridian the distance is zero if and only if the latitudes are equal. |
| Haversine.HaverSinDistRange | geokdbush-braun.js:170-176 | For real latitudes and a longitude haversine in [0, 1], the result lies in [0, 1]. |
| Haversine.MeridianMonotone | geokdbush-braun.js:170-176 | On one meridian, within real latitudes, the distance grows as the second latitude moves away from the first, northward or southward. |
| Haversine.MeridianReflect | geokdbush-braun.js:170-176 | On one meridian, mirroring both latitudes across the equator keeps the distance. |
| Haversine.BoxDist | geokdbush-braun.js:129-151 | Definition following the source's branches. The BoxDist lemmas below and MeridianGeometry state its properties. |
| Haversine.BoxDistInside | geokdbush-braun.js:136-139 | A query inside the box gets the bound 0, for any formula that puts a latitude at distance 0 from itself on its meridian. |
| Haversine.BoxDistInsideBoth | geokdbush-braun.js:136-139 | Both the corrected and the as-written formula give a query inside the box the bound 0. |
| Haversine.BoxDistColumnZeroIff | geokdbush-braun.js:136-140 | Between the box's longitudes, the bound is 0 if and only if the query's latitude is within the box. |
| Haversine.BoxDistRange | geokdbush-braun.js:129-151 | For real latitudes and longitude haversines in [0, 1], the bound is a haversine in [0, 1]. |

## Left out

- The timing benchmark in bench/ is not part of this model. It uses clocks, randomness and external data packages.
- Building the k-d tree (the kdbush package) is not part of this model. `ids`, `coords`, `points` and `nodeSize` are read-only inputs (`KdIndex`). The k-d ordering kdbush establishes is stated as `KdOrdered` and used only as a hypothesis.
- tinyqueue's binary heap is replaced by a sequence with pop-first-minimum. The model pops the first entry of least `dist`; tinyqueue may pop another of equal `dist`. Every property above holds for any least entry except the exact order of ties.
- Floating-point arithmetic and the trigonometry are left out:
  - all arithmetic is on exact reals;
  - `Math.PI`, `braunY`, `haverSin`, `haverSinX` and `vertexY` are abstract fields of `Trig`;
  - the rational part of `vertexY` (lines 183-189, which needs `Math.sqrt`) is not modelled;
  - `greatCircleDist` is unused by `around` and is not modelled.
- That `boxDist` lower-bounds the great-circle distance to every point in a box inside the projected globe is a spherical-geometry fact. It is not proved for the real trigonometry. It is the hypothesis `LowerBoundGeometry`, and the ordering guarantees are conditioned on `SoundTree`.
- Queue entries and the traversal carry the distance formula as a parameter (`Query.dist`). `QueryOf` binds it to the corrected `HaverSinDist`; `Search` holds for any formula.
- Geokdbush.Around: the N-items guarantee assumes real latitudes and longitude haversines in [0, 1] (`UnitRange`). Those are properties of the trigonometric helpers, which are abstract here.
- Geokdbush.Around: the query ranks by the corrected `HaverSinDist`, not by the formula as written, so its listing can differ from the source's. For example, take a query at y = -1/2, points on its meridian at y = 1/2 and y = 1, and maxResults = 1. The source returns the pole, at 9/100 as written. The model returns y = 1/2, at 16/25 against 9/10. See the Findings below.
- The filter is a pure function. Its side effects and exceptions are not modelled.
- Geokdbush.Drain: the loop test `q.peek().item` is modelled as "the minimum is a point". A point whose item is falsy (0, "", null) would end the JavaScript loop early, and the model does not capture that.
- Geokdbush.Around: `maxResults` is an `Option<int>`; non-integer and NaN limits are not modelled. As in the source, a limit of 0 or below never matches `result.length === maxResults` and so does not stop the query (`Caps`).
- KdTree.Median: `>>` is 32-bit in JavaScript. The model halves unbounded integers, which agrees while left + right < 2^31, that is, for N <= 2^30.
- The result positions `order` are a ghost output added by the model. The source returns only the items.

## Findings

| source | as written | input that shows it | evidently intended | confidence | as-written member | corrected member |
|---|---|---|---|---|---|---|
| geokdbush-braun.js:174 | `haverSinDY = square(y1*cosy2 - y2*cosy1) * den`. After the final `* den` this is sin^2(phi1 - phi2) / 4, not the haversine sin^2((phi1 - phi2) / 2). Pole to pole it gives 0. | haverSinDX = 0, y1 = -0.5: the pole y2 = 1 gives 9/100, but y2 = 0.5 gives 144/625. The farther pole is ranked nearer. | `haverSinDY = square(y1 - y2)`, so the sum times den is hav(dphi) + cos phi1 cos phi2 hav(dlambda). It gives 9/10 and 16/25 on the same inputs. | high; not executed | Haversine.AsWrittenCounterexample | Haversine.MeridianMonotone |
