# OptimizePath: greedy nearest-neighbour path ordering, in Dafny

OptimizePath reads a list of labelled 3-D points. It reorders them into a
visiting sequence with a greedy nearest-neighbour rule: start at the first
point, then repeatedly go to the closest point not yet visited. It reports
the length of the open path in the original order and in the new one. This
project models the two functions that do the work, `computePathLength` and
`optimizePath`, and proves what they compute.

- `path_length.dfy`, module `PathMetric`. It holds the distance abstraction
  `Distance = (nat, nat) -> real`, a function of two point indices that both
  operations share. It defines the path length `PathLength` as a recursive
  sum over consecutive pairs. `ComputePathLength` is the source's
  accumulator loop, proved equal to `PathLength`. Lemmas give non-negativity,
  concatenation and summing from the front.
- `nearest_neighbor.dfy`, module `NearestNeighbor`. `OptimizePath` keeps the
  source's two vectors as sequence variables. `order` is the visited indices.
  `remaining` is the unvisited indices: `iota` with index 0 erased. Each round
  `FindNearest` runs the inner scan for the first strict minimum. The method
  then appends that index to `order` and erases it from `remaining`. The loop
  invariants state that:
  - `remaining` stays strictly ascending;
  - `order` and `remaining` partition `[0, n)`;
  - every index chosen so far was a nearest remaining one, strictly nearer
    than every lower-indexed one (the tie-break).

  The result is specified by `IsNearestNeighborOrder`. That predicate is a
  permutation of `[0, n)` that starts at 0, where each step goes to a nearest
  index among those not yet visited, the lowest one among equals.
  `NearestNeighborOrderUnique` proves that this predicate determines the order
  completely. So the method's postcondition pins down its output exactly.
  `LengthsBeforeAndAfter` is the part of `main` that computes the two
  reported lengths.

## Model

| member | source | states |
|---|---|---|
| `PathMetric.ComputePathLength` | OptimizePath.cpp:77-86 | the accumulated total equals the sum of the distances between consecutive entries of the order (`PathLength`), and is 0 when the order has fewer than two entries |
| `PathMetric.PathLengthNonNegative` | OptimizePath.cpp:79-84 | with non-negative distances the path length is never negative |
| `PathMetric.PathLengthConcat` | OptimizePath.cpp:79-84 | the length of two joined paths is the sum of their lengths plus the connecting edge |
| `PathMetric.PathLengthFromFront` | OptimizePath.cpp:79-84 | taking off the first edge gives the same length as `PathLength`'s recursion, which takes off the last edge: the first edge plus the length of the rest equals the whole length |
| `NearestNeighbor.FindNearest` | OptimizePath.cpp:104-115 | the scan returns a valid position whose distance from the current point is minimal over `remaining`, and strictly smaller than at every earlier position (first strict minimum) |
| `NearestNeighbor.EraseAscending` | OptimizePath.cpp:118 | erasing one position from an ascending `remaining` leaves it ascending and removes exactly that index |
| `NearestNeighbor.PartitionIsPermutation` | OptimizePath.cpp:93-118 | when `order` is duplicate-free, `remaining` ascending, the two disjoint and together covering `[0, n)` with `n` entries, `order ++ remaining` is a permutation of `[0, n)` |
| `NearestNeighbor.OptimizePath` | OptimizePath.cpp:91-122 | for n >= 1 the order has n entries, starts at 0, is a permutation of `[0, n)`, and each entry is a nearest not-yet-visited index from its predecessor, strictly nearer than any lower-indexed unvisited one; the ghost out-parameter `rounds` shows the outer loop runs exactly n - 1 times |
| `NearestNeighbor.SamePrefix` | OptimizePath.cpp:103-118 | two orders that both follow the greedy rule agree on every prefix |
| `NearestNeighbor.NearestNeighborOrderUnique` | OptimizePath.cpp:91-122 | the greedy rule with lowest-index tie-break admits exactly one order, so the result is deterministic |
| `NearestNeighbor.LengthsBeforeAndAfter` | OptimizePath.cpp:165-171 | the original length is the path length of the identity order, the optimised one that of the greedy order, and both are non-negative when distances are |

## Left out

- The distance is an abstract function of two point indices. The source's
  formula, `sqrt(dx*dx + dy*dy + dz*dz)` in `double`, is not modelled:
  rounding, NaN and the triangle inequality are out of scope. Both functions
  take the same `dist`, as the source uses the same formula in both places.
  The path length is also summed as an exact real, not as the source's
  `double` running total. So `PathLengthConcat` and `PathLengthFromFront`,
  which regroup the sum, describe the model and not the program's rounded
  result.
- `FindNearest` starts its scan with the first candidate as the best so far.
  The source starts with `numeric_limits<double>::max()` as the best distance.
  The two agree whenever distances are finite.
- `optimizePath` with no points erases from an empty vector, which is
  undefined behaviour in C++. `main` rejects an empty point set before the
  call, so the model requires at least one point.
- `main`'s argument handling, exit codes and console output are left out.
  So is `writeReorderedPoints` (file output, `exit(1)` on failure).
- `readPoints` and the `Point` type come from `Points.h`, which is not part
  of this model. Points are identified by index only; labels play no part
  in the ordering.
- All ROOT visualisation (`TApplication`, canvases, graphs, legends) is
  left out.
- NearestNeighbor.OptimizePath: indices are unbounded naturals, so the model assumes
  n <= 2^31 - 1 (`INT_MAX`). The source stores indices in `vector<int>` and
  `int current`; beyond that bound `iota` overflows `int`, which is
  undefined behaviour, and the model says nothing about such inputs.
