// Greedy nearest-neighbour ordering of the points (optimizePath in
// OptimizePath.cpp), and the lengths that the program reports for the
// original and the optimised order.

module NearestNeighbor {
  import opened PathMetric

  /** No index occurs twice in `s`. */
  ghost predicate Distinct(s: seq<nat>)
  {
    forall i, j :: 0 <= i < j < |s| ==> s[i] != s[j]
  }

  /** `s` lists every point index in [0, n) exactly once. */
  ghost predicate IsPermutation(s: seq<nat>, n: nat)
  {
    |s| == n && Distinct(s) && forall k: nat :: k in s <==> k < n
  }

  ghost predicate StrictlyAscending(s: seq<nat>)
  {
    forall i, j :: 0 <= i < j < |s| ==> s[i] < s[j]
  }

  /** Seen from `current`, `k` is at least as near as `r`, and strictly
      nearer when `r` has the lower index: the tie-break of a scan that
      keeps the first strict minimum over ascending indices. */
  ghost predicate Nearer(dist: Distance, current: nat, k: nat, r: nat)
  {
    dist(current, k) <= dist(current, r) && (r < k ==> dist(current, k) < dist(current, r))
  }

  /** `s` is the order the greedy rule produces on n points: it starts at
      point 0, visits every point once, and each step goes to a nearest
      point not yet visited, the lowest-indexed one among equally near. */
  ghost predicate IsNearestNeighborOrder(dist: Distance, n: nat, s: seq<nat>)
  {
    IsPermutation(s, n) && (n > 0 ==> s[0] == 0) &&
    forall t, u :: 1 <= t <= u < |s| ==> Nearer(dist, s[t - 1], s[t], s[u])
  }

  /** The indices 0, 1, ..., n - 1 in ascending order (std::iota). */
  function Range(n: nat): (r: seq<nat>)
    ensures |r| == n && forall i :: 0 <= i < n ==> r[i] == i
  {
    seq(n, i requires 0 <= i => i as nat)
  }

  /** `s` without its element at position i (std::vector::erase). */
  function Erase(s: seq<nat>, i: nat): (r: seq<nat>)
    requires i < |s|
    ensures |r| == |s| - 1
    ensures forall j :: 0 <= j < i ==> r[j] == s[j]
    ensures forall j :: i <= j < |r| ==> r[j] == s[j + 1]
  {
    s[..i] + s[i + 1..]
  }

  /** Erasing from an ascending sequence keeps it ascending, and removes
      exactly the erased value. */
  lemma EraseAscending(s: seq<nat>, i: nat)
    requires i < |s| && StrictlyAscending(s)
    ensures StrictlyAscending(Erase(s, i))
    ensures forall x :: x in Erase(s, i) <==> x in s && x != s[i]
  {
  }

  /** Visited and unvisited indices split [0, n) between them: their
      concatenation lists every index exactly once. */
  lemma PartitionIsPermutation(order: seq<nat>, remaining: seq<nat>, n: nat)
    requires Distinct(order) && StrictlyAscending(remaining)
    requires forall k :: k in order ==> k !in remaining
    requires forall i :: 0 <= i < |order| ==> order[i] < n
    requires forall i :: 0 <= i < |remaining| ==> remaining[i] < n
    requires forall k: nat :: k < n ==> k in order || k in remaining
    requires |order| + |remaining| == n
    ensures IsPermutation(order + remaining, n)
  {
    var s := order + remaining;
    forall i, j | 0 <= i < j < |s| ensures s[i] != s[j] {
      if j < |order| {
      } else if i < |order| {
        assert s[i] in order && s[j] in remaining;
      } else {
        assert s[i] == remaining[i - |order|] && s[j] == remaining[j - |order|];
      }
    }
  }

  /** Scans `remaining` from the front and returns the position of the
      first strict minimum of the distance from `current`. The scan
      starts from the first candidate, which is what starting from the
      largest double amounts to when every distance is finite. */
  method FindNearest(dist: Distance, current: nat, remaining: seq<nat>) returns (bestIdx: nat)
    requires |remaining| > 0
    ensures bestIdx < |remaining|
    ensures forall i :: 0 <= i < |remaining| ==>
              dist(current, remaining[bestIdx]) <= dist(current, remaining[i])
    ensures forall i :: 0 <= i < bestIdx ==>
              dist(current, remaining[bestIdx]) < dist(current, remaining[i])
  {
    var bestDist := dist(current, remaining[0]);
    bestIdx := 0;
    for i := 1 to |remaining|
      invariant bestIdx < i
      invariant bestDist == dist(current, remaining[bestIdx])
      invariant forall j :: 0 <= j < i ==> bestDist <= dist(current, remaining[j])
      invariant forall j :: 0 <= j < bestIdx ==> bestDist < dist(current, remaining[j])
    {
      var d := dist(current, remaining[i]);
      if d < bestDist {
        bestDist := d;
        bestIdx := i;
      }
    }
  }

  /** Builds the visiting order greedily: start at point 0, then move to
      the nearest point not yet visited until all have been visited. The
      caller guarantees at least one point. `rounds` counts the passes of
      the outer loop. */
  method OptimizePath(dist: Distance, n: nat) returns (order: seq<nat>, ghost rounds: nat)
    requires n >= 1
    // The first two lines follow from the third; they are spelled out
    // for the reader.
    ensures |order| == n && order[0] == 0
    ensures IsPermutation(order, n)
    ensures IsNearestNeighborOrder(dist, n, order)
    ensures rounds == n - 1
  {
    var remaining: seq<nat> := Range(n);
    var current: nat := 0;
    order := [current];
    forall k: nat | k < n ensures k in remaining { assert remaining[k] == k; }
    EraseAscending(remaining, 0);
    remaining := Erase(remaining, 0);
    rounds := 0;
    PartitionIsPermutation(order, remaining, n);

    while remaining != []
      invariant |order| >= 1 && order[0] == 0 && current == order[|order| - 1]
      invariant |order| + |remaining| == n && rounds == |order| - 1
      invariant StrictlyAscending(remaining)
      invariant forall i :: 0 <= i < |remaining| ==> remaining[i] < n
      invariant Distinct(order)
      invariant forall i :: 0 <= i < |order| ==> order[i] < n
      invariant forall k :: k in order ==> k !in remaining
      invariant forall k: nat :: k < n ==> k in order || k in remaining
      invariant IsPermutation(order + remaining, n)
      invariant forall t, u :: 1 <= t < u < |order| ==> Nearer(dist, order[t - 1], order[t], order[u])
      invariant forall t, r :: 1 <= t < |order| && r in remaining ==> Nearer(dist, order[t - 1], order[t], r)
      decreases |remaining|
    {
      var bestIdx := FindNearest(dist, current, remaining);
      var previous := current;
      current := remaining[bestIdx];
      forall r | r in remaining ensures Nearer(dist, previous, current, r) {
        var i :| 0 <= i < |remaining| && remaining[i] == r;
        assert r < current ==> i < bestIdx;
      }
      assert current !in order;
      EraseAscending(remaining, bestIdx);
      order := order + [current];
      remaining := Erase(remaining, bestIdx);
      rounds := rounds + 1;
      PartitionIsPermutation(order, remaining, n);
    }
  }

  /** Two orders that both satisfy the greedy rule on the same points are
      the same order: the rule, with its lowest-index tie-break, leaves no
      choice at any step. */
  lemma {:induction false} NearestNeighborOrderUnique(dist: Distance, n: nat, a: seq<nat>, b: seq<nat>)
    requires IsNearestNeighborOrder(dist, n, a) && IsNearestNeighborOrder(dist, n, b)
    ensures a == b
  {
    if n > 0 {
      SamePrefix(dist, n, a, b, n);
      assert a == a[..n] && b == b[..n];
    }
  }

  /** Two greedy orders agree on their first t entries: once the visited
      prefixes agree, the unvisited sets agree, and the rule picks the same
      next index from them. */
  lemma {:induction false} SamePrefix(dist: Distance, n: nat, a: seq<nat>, b: seq<nat>, t: nat)
    requires IsNearestNeighborOrder(dist, n, a) && IsNearestNeighborOrder(dist, n, b)
    requires 1 <= t <= n
    ensures a[..t] == b[..t]
    decreases t
  {
    if t > 1 {
      var s := t - 1;
      SamePrefix(dist, n, a, b, s);
      // a[s] is not among the first s entries of b, so it lies at or after s in b
      assert a[s] !in a[..s];
      assert a[s] in a && b[s] in b;
      assert a[s] in b && b[s] in a;
      var u :| 0 <= u < n && b[u] == a[s];
      var v :| 0 <= v < n && a[v] == b[s];
      assert a[s - 1] == b[s - 1] by { assert a[..s][s - 1] == b[..s][s - 1]; }
      assert Nearer(dist, a[s - 1], a[s], a[v]);
      assert Nearer(dist, b[s - 1], b[s], b[u]);
      assert a[..t] == a[..s] + [a[s]] && b[..t] == b[..s] + [b[s]];
    }
  }

  /** The lengths printed for the order the points were read in and for
      the greedy order, as main computes them. */
  method LengthsBeforeAndAfter(dist: Distance, n: nat)
    returns (origLen: real, optOrder: seq<nat>, optLen: real)
    requires n >= 1
    ensures origLen == PathLength(dist, Range(n))
    ensures IsNearestNeighborOrder(dist, n, optOrder)
    ensures optLen == PathLength(dist, optOrder)
    ensures NonNegative(dist) ==> origLen >= 0.0 && optLen >= 0.0
  {
    origLen := ComputePathLength(dist, Range(n));
    ghost var rounds;
    optOrder, rounds := OptimizePath(dist, n);
    optLen := ComputePathLength(dist, optOrder);
    if NonNegative(dist) {
      PathLengthNonNegative(dist, Range(n));
      PathLengthNonNegative(dist, optOrder);
    }
  }
}
