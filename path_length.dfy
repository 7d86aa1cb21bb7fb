// Length of an open path that visits points in a given order
// (computePathLength in OptimizePath.cpp).
//
// Points are identified by their index in the point store. The 3-D
// Euclidean distance of the source is abstracted to a function of two
// indices, so that no floating-point or square-root reasoning is needed.

module PathMetric {

  /** Distance between the points with the given indices. */
  type Distance = (nat, nat) -> real

  /** Every distance is non-negative, as a Euclidean norm is. */
  ghost predicate NonNegative(dist: Distance)
  {
    forall i: nat, j: nat :: dist(i, j) >= 0.0
  }

  /** Sum of the distances between consecutive entries of `order`: the
      length of walking the points in that order, as an open path (no
      edge back to the start). */
  ghost function PathLength(dist: Distance, order: seq<nat>): real
    decreases |order|
  {
    if |order| < 2 then 0.0
    else PathLength(dist, order[..|order| - 1]) + dist(order[|order| - 2], order[|order| - 1])
  }

  /** Accumulates the length of the path edge by edge, from the first
      point to the last. */
  method ComputePathLength(dist: Distance, order: seq<nat>) returns (total: real)
    ensures total == PathLength(dist, order)
    ensures |order| < 2 ==> total == 0.0
  {
    total := 0.0;
    if |order| < 2 {
      // the loop below would not run: no edges, length 0
      return;
    }
    var i := 1;
    while i < |order|
      invariant 1 <= i <= |order|
      invariant total == PathLength(dist, order[..i])
    {
      assert order[..i + 1][..i] == order[..i];
      total := total + dist(order[i - 1], order[i]);
      i := i + 1;
    }
    assert order[..|order|] == order;
  }

  /** With non-negative distances no path has negative length. */
  lemma {:induction false} PathLengthNonNegative(dist: Distance, order: seq<nat>)
    requires NonNegative(dist)
    ensures PathLength(dist, order) >= 0.0
    decreases |order|
  {
    if |order| >= 2 {
      PathLengthNonNegative(dist, order[..|order| - 1]);
    }
  }

  /** Joining two non-empty paths adds the connecting edge between the last
      point of the first and the first point of the second. */
  lemma {:induction false} PathLengthConcat(dist: Distance, a: seq<nat>, b: seq<nat>)
    requires |a| > 0 && |b| > 0
    ensures PathLength(dist, a + b)
         == PathLength(dist, a) + dist(a[|a| - 1], b[0]) + PathLength(dist, b)
    decreases |b|
  {
    var ab := a + b;
    if |b| == 1 {
      assert ab[..|ab| - 1] == a;
    } else {
      var b' := b[..|b| - 1];
      PathLengthConcat(dist, a, b');
      assert ab[..|ab| - 1] == a + b';
      assert b'[0] == b[0];
    }
  }

  /** The length is the first edge plus the length of the rest of the path:
      summing from the front gives the same total as summing from the back. */
  lemma {:induction false} PathLengthFromFront(dist: Distance, order: seq<nat>)
    requires |order| >= 2
    ensures PathLength(dist, order) == dist(order[0], order[1]) + PathLength(dist, order[1..])
  {
    PathLengthConcat(dist, order[..1], order[1..]);
    assert order[..1] + order[1..] == order;
  }
}
