# Voronoi throat erosion: overlap and fusing bookkeeping

This project models, in Dafny, the discrete bookkeeping inside the throat-erosion
routine of OpenPNM's Voronoi geometry (`OpenPNM/Geometry/__Voronoi__.py`). A throat
is a facet shared by two Voronoi cells. Its hull vertices are offset inwards by the
fibre radius. The routine then finds offset vertices that overlap, partly joins the
overlapping regions (one in-place pass, not a full transitive closure), picks the hull edges either side of each overlapping run, tests
whether the throat is fully occluded, and fuses vertices that lie too close together.

Modules, one per part of the routine:

- `Matrices` (`matrices.dfy`): square 0/1 matrices and the relations used to state
  properties about them (symmetric, zero diagonal, covers, transitive).
- `Points` (`points.dfy`): points with exact `real` coordinates, the squared distance
  `_dist2`, column extents (numpy `max`/`min`), and the shoelace area `_PolyArea2D`.
- `Overlap` (`overlap.dfy`): `_set_overlap` (first pass, closure pass) and `_all_overlap`.
- `LinePoints` (`line_points.dfy`): `_line_points`, with the cyclic `np.roll` scans
  written as index arithmetic modulo the number of vertices.
- `SymmetricDifference` (`symmetric_difference.dfy`): `_symmetric_difference`.
- `Fuse` (`fuse.dfy`): `_fuse` and `_fuse_verts`.

Each loop statement of the source is a Dafny method with a `while`/`for` loop. Each such
method is proved equal to a reference function, and lemmas state what that function
guarantees. The overlap matrix is a `seq<seq<int>>` that the methods update entry by
entry. In the source it is a numpy array created and returned by `_set_overlap`. The
`taken` list of `_fuse` is a Dafny `array<bool>`.

Three details of the source that the model follows:

- `np.roll(row, -k)[j]` is `row[(j + k) mod dim]` and `np.roll(row, k)[j]` is
  `row[(j - k) mod dim]`. The scans only ever step at most one lap either way, so
  the model reduces the index with `Wrap`, which adds or subtracts `dim` once;
  `WrapIsMod` proves that this is Python's `%` on that range.
- `np.sort` on a list of index pairs sorts inside each pair (the last axis). It does
  not reorder the list.
- `_fuse` squares `d`, so a point joins a cluster when its squared distance to the
  seed is below `d * d`. The averaging runs over every later close point, including
  points an earlier cluster has already taken. A taken point never seeds a cluster.

## Model

| member | source | states |
|---|---|---|
| Points.Dist2 | OpenPNM/Geometry/__Voronoi__.py:348-352 | the squared distance is never negative |
| Points.Dist2Self | OpenPNM/Geometry/__Voronoi__.py:348-352 | a point is at squared distance 0 from itself |
| Points.Dist2Symmetric | OpenPNM/Geometry/__Voronoi__.py:348-352 | the squared distance does not depend on the order of the two points |
| Points.MaxCoordIsLargest | OpenPNM/Geometry/__Voronoi__.py:383-384 | the column maximum bounds every coordinate on that axis and is attained by some point |
| Points.MinCoordIsSmallest | OpenPNM/Geometry/__Voronoi__.py:383-384 | the column minimum is at most every coordinate on that axis and is attained by some point |
| Points.SpanIsExtent | OpenPNM/Geometry/__Voronoi__.py:383-384 | a span is non-negative, bounds the gap between any two points on its axis, and some pair attains it |
| Points.PolyArea2D | OpenPNM/Geometry/__Voronoi__.py:392-398 | the shoelace area is never negative |
| Points.DegeneratePolygonHasNoArea | OpenPNM/Geometry/__Voronoi__.py:392-398 | one or two vertices give area 0 (the wrap-around terms cancel) |
| Points.AreaIgnoresStartingVertex | OpenPNM/Geometry/__Voronoi__.py:396-397 | starting the hull one vertex later (the cyclic roll) gives the same area |
| Overlap.FirstPass | OpenPNM/Geometry/__Voronoi__.py:479-488 | the first pass yields exactly the matrix with a 1 where either vertex has the other's offset vertex strictly inside its sweep circle, and returns each vertex's squared sweep radius |
| Overlap.FirstPassShape | OpenPNM/Geometry/__Voronoi__.py:480-488 | after the first pass the matrix is 0/1 and symmetric, its diagonal is 0, and [i][j] is 1 exactly when i's or j's circle holds the other's offset vertex |
| Overlap.JoinOverlaps | OpenPNM/Geometry/__Voronoi__.py:489-495 | the in-place triple loop yields exactly the result of the row-by-row joining the reference functions describe |
| Overlap.ClosureKeeps | OpenPNM/Geometry/__Voronoi__.py:490-495 | the closure pass clears no 1, keeps a 0/1 matrix 0/1 and leaves every diagonal entry as it was (the k != i guard), so a zero diagonal stays zero |
| Overlap.ClosureWithinTransitive | OpenPNM/Geometry/__Voronoi__.py:490-495 | every 1 the closure pass adds lies within any transitive relation that contains the input, so it joins only regions that are connected |
| Overlap.JoinColumnsRow | OpenPNM/Geometry/__Voronoi__.py:493-495 | the k-loop for row i and overlap j gives row i every 1 of row j except in column i, and changes no other row |
| Overlap.ClosureIsPartial | OpenPNM/Geometry/__Voronoi__.py:490-495 | on the path 0-3-1-2 (symmetric, 0/1, zero diagonal) the pass sets 2 -> 0 but not 0 -> 2, so its result is neither symmetric nor transitive |
| Overlap.ClosureAddsTwoSteps | OpenPNM/Geometry/__Voronoi__.py:490-495 | if i overlaps j and j overlaps k, with k != i, then i overlaps k after the pass |
| Overlap.SetOverlap | OpenPNM/Geometry/__Voronoi__.py:474-499 | returns the closure of the first-pass matrix, the squared sweep radii, and the line-point table of that matrix |
| Overlap.OverlapMatrixShape | OpenPNM/Geometry/__Voronoi__.py:479-495 | the returned overlap matrix is 0/1 with a zero diagonal and records every sweep-circle overlap in both directions |
| Overlap.CountTrueAll | OpenPNM/Geometry/__Voronoi__.py:569 | the number of True entries equals the list length exactly when every entry is True |
| Overlap.AllOverlap | OpenPNM/Geometry/__Voronoi__.py:557-572 | returns True exactly when every column holds a 1 in some row, so a 0x0 matrix gives True |
| LinePoints.SortPair | OpenPNM/Geometry/__Voronoi__.py:541-542 | the pair comes back in ascending order and holds the same two indices |
| LinePoints.ForwardStop | OpenPNM/Geometry/__Voronoi__.py:534-539 | the forward scan stops at some k with 1 <= k <= dim; every index strictly before k is overlapped, and when k < dim index (j+k) mod dim is 0 |
| LinePoints.BackwardStop | OpenPNM/Geometry/__Voronoi__.py:544-549 | the same for the backward scan over (j-k) mod dim |
| LinePoints.RollForward | OpenPNM/Geometry/__Voronoi__.py:534-539 | the forward while loop stops at the step ForwardStop characterises |
| LinePoints.RollBackward | OpenPNM/Geometry/__Voronoi__.py:544-549 | the backward while loop stops at the step BackwardStop characterises |
| LinePoints.WrapIsMod | OpenPNM/Geometry/__Voronoi__.py:536 | the one-lap index reduction used for the rolls equals x mod dim |
| LinePoints.WrapNeighbours | OpenPNM/Geometry/__Voronoi__.py:541 | the reduced indices of x - 1 and x, sorted either way round, form a hull edge |
| LinePoints.ScansStopAtFirstZero | OpenPNM/Geometry/__Voronoi__.py:534-549 | on a 0/1 matrix both scans pass only 1s and stop at the first 0 |
| LinePoints.LinePointsAreHullEdges | OpenPNM/Geometry/__Voronoi__.py:529-553 | a cell is set exactly when [i][j] and [j][i] are both 1; then both saved lines are ascending pairs of indices in [0, dim) that are neighbours on the hull (consecutive, or last and first) |
| LinePoints.LinePoints | OpenPNM/Geometry/__Voronoi__.py:501-555 | the nested loops fill exactly the table of forward and backward lines for mutually overlapping pairs and leave every other cell unset |
| SymmetricDifference.SortEach | OpenPNM/Geometry/__Voronoi__.py:413-414 | sorting keeps the list length and the order of the list, puts every pair in ascending order, and each output pair holds the two indices of the input pair at the same place |
| SymmetricDifference.MissingMembers | OpenPNM/Geometry/__Voronoi__.py:416-422 | a pair is kept from the first list exactly when it is in that list and not in the other |
| SymmetricDifference.MissingNone | OpenPNM/Geometry/__Voronoi__.py:416-422 | when every pair of the first list has a match, nothing is kept |
| SymmetricDifference.SymDiffMembers | OpenPNM/Geometry/__Voronoi__.py:408-431 | a pair is in the result exactly when, after sorting, it occurs in one list and not the other; every pair in the result is ascending |
| SymmetricDifference.SymDiffSelf | OpenPNM/Geometry/__Voronoi__.py:408-431 | a list has no symmetric difference with itself |
| SymmetricDifference.SymDiffSwap | OpenPNM/Geometry/__Voronoi__.py:408-431 | swapping the arguments gives the same pairs, in another order |
| SymmetricDifference.SymmetricDifference | OpenPNM/Geometry/__Voronoi__.py:408-431 | the flag-driven loops return the sorted pairs of a missing from b in a's order, then those of b missing from a in b's order |
| Fuse.ClusterSize | OpenPNM/Geometry/__Voronoi__.py:364-371 | a cluster counts its seed and at most every later point, so the divisor is at least 1 |
| Fuse.Fuse | OpenPNM/Geometry/__Voronoi__.py:354-376 | the loop over the taken array returns, in index order, the average of each seed and every later point within distance d |
| Fuse.CoveredBySeed | OpenPNM/Geometry/__Voronoi__.py:362-372 | a point is taken after the first i indices exactly when some seed below i lies within distance of it |
| Fuse.EveryPointTaken | OpenPNM/Geometry/__Voronoi__.py:361-372 | every index ends up taken: it is a seed or lies within distance of an earlier seed |
| Fuse.SeedsApart | OpenPNM/Geometry/__Voronoi__.py:363-372 | no seed lies within distance of an earlier seed: a taken point never seeds a cluster |
| Fuse.FusedBounds | OpenPNM/Geometry/__Voronoi__.py:358-376 | no points give no output; otherwise 1 <= output length <= number of points, and the first output is the cluster seeded by index 0 |
| Fuse.FuseWithZeroDistance | OpenPNM/Geometry/__Voronoi__.py:358-376 | fusing with distance 0 returns the points unchanged and in order |
| Fuse.FuseToleranceBounds | OpenPNM/Geometry/__Voronoi__.py:382-388 | for a non-negative percentage the tolerance is non-negative and at least that percentage of both the x-span and the y-span |
| Fuse.FuseVerts | OpenPNM/Geometry/__Voronoi__.py:378-390 | fuses the vertices with tolerance equal to the percentage times the larger of the x-span and the y-span |
| Fuse.FuseVertsWithZeroPercentage | OpenPNM/Geometry/__Voronoi__.py:378-390 | a percentage of 0 fuses nothing |

## Left out

- Overlap.SetOverlap: returns squared sweep radii, not their square roots, because `real` has no square root. The test `sqrt(a) < sqrt(b)` is modelled as `a < b`, which is the same test for the non-negative values involved.
- Points and Fuse use exact `real` arithmetic in place of 64-bit floats, so rounding in the averages, distances and areas is not modelled.
- Overlap.FirstPass, Overlap.SetOverlap: require `offset` to be as long as `verts`. Every caller passes the offsets computed from the same vertices. A shorter `offset` raises an index error in the source's first pass; a longer one is indexed only when an extra offset vertex lies strictly inside some sweep circle (then an index error), and is otherwise silently ignored.
- Fuse.FuseVerts: has no default for `percentage` (0.05 in the source); the percentage is always passed, as the one call site in the source does explicitly.
- Fuse.FuseVerts: requires at least one vertex, because numpy's `max` of an empty column raises an error in the source.
- LinePoints.ForwardStop, LinePoints.BackwardStop: state that the scanned entries are non-zero, since the source only tests `== 0`. ScansStopAtFirstZero adds that on a 0/1 matrix they are 1.
- `_offset_vertex`, `_outer_offset`: floating-point trigonometry (`atan2`, `sin`, `cos`, vector angles) with no exact specification.
- `_get_throat_geom`, `_rotate_and_chop`: rotation matrices from a transformations module outside this model, scipy convex hulls and float-derived error codes.
- `_line_equation`, `_new_point`: infinite slopes, float division and trapping of numpy `RuntimeWarning`.
- `_PolyPerimeter2D`: needs square roots.
- `print_throat`, `print_pore`: matplotlib plotting.
- `__init__`, `setup`, `_add_throat_props`: scipy version check, property-model registration and reads and writes of the network's property store, including trimming of throats. Line 83 tests `len(shared_verts)`, the whole per-throat array, where `len(my_shared_verts)` was probably meant. This orchestration is not part of this model.
- The `__main__` block: it drives network generators that are not part of this model.
