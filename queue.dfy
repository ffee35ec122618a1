/**
 * The distance-ordered priority queue of `around`: it holds resolved points
 * and k-d tree nodes side by side, and always yields an entry of least
 * `dist` (the source uses tinyqueue with `compareDist`).
 */
module Queue {
  import opened Options
  import opened KdTree

  /**
   * A queue entry: a resolved point `{item, dist}`, which also records its
   * tree position, or a node `{left, right, axis, minX..maxY, dist}`.
   */
  datatype Entry<T> = Point(pos: int, item: T, dist: real) | Box(node: Node, dist: real)

  /** `a.dist - b.dist`: negative exactly when `a` comes first. */
  function CompareDist<T>(a: Entry<T>, b: Entry<T>): (r: real)
    ensures r < 0.0 <==> a.dist < b.dist
    ensures r == 0.0 <==> a.dist == b.dist
  {
    a.dist - b.dist
  }

  /** The position of the first entry of least distance. */
  function ArgMin<T>(s: seq<Entry<T>>): (k: nat)
    requires |s| > 0
    ensures k < |s|
    ensures forall j :: 0 <= j < |s| ==> s[k].dist <= s[j].dist
    ensures forall j :: 0 <= j < k ==> s[k].dist < s[j].dist
    decreases |s|
  {
    if |s| == 1 then 0
    else
      var k := ArgMin(s[..|s| - 1]);
      if CompareDist(s[|s| - 1], s[k]) < 0.0 then |s| - 1 else k
  }

  /** The sequence without its k-th element. */
  function RemoveAt<T>(s: seq<T>, k: nat): (r: seq<T>)
    requires k < |s|
    ensures |r| == |s| - 1
    ensures forall j :: 0 <= j < k ==> r[j] == s[j]
    ensures forall j :: k <= j < |r| ==> r[j] == s[j + 1]
  {
    s[..k] + s[k + 1..]
  }

  /** Removing the k-th element leaves the rest of the multiset. */
  lemma RemoveAtMultiset<T>(s: seq<T>, k: nat)
    requires k < |s|
    ensures multiset(RemoveAt(s, k)) + multiset{s[k]} == multiset(s)
    ensures forall e :: e in RemoveAt(s, k) ==> e in s
  {
    assert s == s[..k] + [s[k]] + s[k + 1..];
  }

  /** Moving the k-th element from the queue to the popped entries keeps the account. */
  lemma MoveAccounts<T>(data0: seq<T>, data: seq<T>, popped: seq<T>, k: nat)
    requires k < |data|
    requires multiset(data) + multiset(popped) == multiset(data0)
    ensures multiset(RemoveAt(data, k)) + multiset(popped + [data[k]]) == multiset(data0)
  {
    RemoveAtMultiset(data, k);
  }

  /**
   * `popped` is what repeated pops took from `data0` to leave `data`: the
   * entries are accounted for, every popped entry is a point, they came out
   * in non-decreasing distance, and none is farther than an entry still queued.
   */
  ghost predicate Drained<T>(data0: seq<Entry<T>>, data: seq<Entry<T>>, popped: seq<Entry<T>>) {
    && multiset(data) + multiset(popped) == multiset(data0)
    && (forall j :: 0 <= j < |popped| ==> popped[j].Point?)
    && (forall i, j :: 0 <= i < j < |popped| ==> popped[i].dist <= popped[j].dist)
    && (forall j, e :: 0 <= j < |popped| && e in data ==> popped[j].dist <= e.dist)
  }

  /** Popping a least point keeps `Drained`. */
  lemma DrainedPop<T>(data0: seq<Entry<T>>, data: seq<Entry<T>>, popped: seq<Entry<T>>)
    requires Drained(data0, data, popped)
    requires data != [] && data[ArgMin(data)].Point?
    ensures Drained(data0, RemoveAt(data, ArgMin(data)), popped + [data[ArgMin(data)]])
  {
    var k := ArgMin(data);
    MoveAccounts(data0, data, popped, k);
    RemoveAtMultiset(data, k);
    assert data[k] in data;
  }

  /** Scans for the first entry of least distance. */
  method MinIndex<T>(s: seq<Entry<T>>) returns (k: nat)
    requires |s| > 0
    ensures k == ArgMin(s)
  {
    k := 0;
    var i := 1;
    while i < |s|
      invariant 1 <= i <= |s|
      invariant k == ArgMin(s[..i])
    {
      assert s[..i + 1][..i] == s[..i];
      if CompareDist(s[i], s[k]) < 0.0 {
        k := i;
      }
      i := i + 1;
    }
    assert s[..i] == s;
  }

  /** A min-priority queue of entries keyed by `dist`. */
  class MinQueue<T> {
    var data: seq<Entry<T>>

    constructor()
      ensures data == []
    {
      data := [];
    }

    /** Adds an entry. */
    method Push(e: Entry<T>)
      modifies this
      ensures data == old(data) + [e]
    {
      data := data + [e];
    }

    /** The entry `Pop` would return, or None when the queue is empty. */
    function Peek(): (r: Option<Entry<T>>)
      reads this
      ensures r.None? <==> data == []
      ensures r.Some? ==> r.value == data[ArgMin(data)]
    {
      if data == [] then None else Some(data[ArgMin(data)])
    }

    /** Removes and returns an entry of least distance, or None when empty. */
    method Pop() returns (r: Option<Entry<T>>)
      modifies this
      ensures old(data) == [] ==> r.None? && data == []
      ensures old(data) != [] ==>
        && r == Some(old(data)[ArgMin(old(data))])
        && data == RemoveAt(old(data), ArgMin(old(data)))
    {
      if data == [] {
        r := None;
      } else {
        var k := MinIndex(data);
        r := Some(data[k]);
        data := RemoveAt(data, k);
      }
    }
  }
}
