# Node placement and link optimization, modelled in Dafny

The repository places new nodes in a stored network topology and links them
to existing nodes. Three scripts hold the placement-and-linking logic:

- `nodos/tec_enu_ite_jer.py` does a partitioned placement and optimizes the
  links. It shuffles the stored nodes and splits them into `num_groups`
  nearly equal groups (`np.array_split`). It places one new node at the plain
  mean of each group. Then a keep-best randomized search picks up to five
  nearby nodes to link to the new node.
- `nodos/gna.py` places one new node at the hull centroid: the mean of the
  convex-hull vertices of all stored nodes. It falls back to the mean of all
  points when there are fewer than three points, or fewer than three distinct
  points.
- `nodos/gna_enlace.py` applies the same rule, then links node 1 to the new
  node.

The Dafny modules:

| file | module | models |
|---|---|---|
| `outcomes.dfy` | `Outcomes` | `Option` and `Result` |
| `geometry.dfy` | `Geometry` | positions, the `[lon, lat]` matrix, column sums and means (`np.mean(..., axis=0)`), ranges, bounding boxes |
| `shuffle.dfy` | `Shuffle` | `np.random.shuffle`, given the permutation it draws; in place on an array |
| `partitioned_centroid.dfy` | `PartitionedCentroid` | `calculate_centroid` and `create_subgroups` of tec_enu_ite_jer.py, with `np.array_split` |
| `link_optimizer.dfy` | `LinkOptimizer` | `calculate_distance`, `evaluate_links` and `optimize_links` of tec_enu_ite_jer.py; `insert_new_link` as a recorded pair |
| `hull_centroid.dfy` | `HullCentroid` | `calculate_centroid` of gna.py, and the guard and insertion of its `main` |
| `hull_centroid_link.dfy` | `HullCentroidLink` | `calculate_centroid` of gna_enlace.py, and the guard and two insertions of its `main` |

How the external pieces are modelled:

- Coordinates are `real`.
- `np.random.shuffle` is given the permutation `p` it draws. Element `p[i]` moves to index `i`.
- `np.sqrt` is a function parameter `sqrt`. Lemmas that need it to be a
  square root require `IsSqrt(sqrt)`.
- `scipy.spatial.ConvexHull` is a parameter holding its answer for the
  points. That answer is the vertex indices, or `None` when Qhull raised.
- The new node's stored position (`get_node_position`) is a parameter.
- `insert_new_link` appends `(source, target)` to the `Cursor`'s log.
- `optimize_links` works on an `array<Candidate>`, shuffled and updated in place.
- A candidate's `distance` is `None` until the optimizer writes that key.

## Model

| member | source | states |
|---|---|---|
| `PartitionedCentroid.CalculateCentroid` | nodos/tec_enu_ite_jer.py:32-34 | `lon` times the point count is the sum of column 0, and `lat` times the count is the sum of column 1: the plain mean, with no hull filtering |
| `PartitionedCentroid.CentroidInBoundingBox` | nodos/tec_enu_ite_jer.py:32-34 | the group's new node lies within the group's longitude and latitude ranges |
| `PartitionedCentroid.CentroidOfIdenticalPoints` | nodos/tec_enu_ite_jer.py:32-34 | a group of copies of one point places the node on that point |
| `PartitionedCentroid.ArraySplit` | nodos/tec_enu_ite_jer.py:38 | exactly `k` sections; section `i` holds `n/k + 1` items if `i < n mod k` and `n/k` otherwise, so sizes differ by at most one |
| `PartitionedCentroid.ConcatArraySplit` | nodos/tec_enu_ite_jer.py:38 | the sections, concatenated in order, give back the input |
| `PartitionedCentroid.SectionsNonEmptyIff` | nodos/tec_enu_ite_jer.py:38 | every section is non-empty if and only if `n >= k` |
| `PartitionedCentroid.CreateSubgroups` | nodos/tec_enu_ite_jer.py:36-38 | `nodes` ends shuffled by the drawn permutation; the result is `num_groups` sections of that order, and their concatenation is a permutation of the input |
| `Shuffle.PermutePreservesMultiset` | nodos/tec_enu_ite_jer.py:37 | a shuffle keeps every element, each as often as before |
| `Shuffle.ApplyShuffle` | nodos/tec_enu_ite_jer.py:70 | the in-place shuffle leaves at index `i` the element that was at `p[i]` |
| `LinkOptimizer.CalculateDistance` | nodos/tec_enu_ite_jer.py:60-61 | with a true square root, the distance is the non-negative number whose square is the sum of the squared longitude and latitude differences |
| `LinkOptimizer.CalculateDistanceIsMetric` | nodos/tec_enu_ite_jer.py:60-61 | with a true square root, the distance is non-negative and symmetric, and it is zero exactly when the two positions coincide |
| `LinkOptimizer.EvaluateLinks` | nodos/tec_enu_ite_jer.py:89-91 | the score of no links is 0; with non-negative distances the score is non-negative |
| `LinkOptimizer.RecordDistances` | nodos/tec_enu_ite_jer.py:71-74 | the selection is the first `k` records, each with its distance to the new node; the same distances are written into the list, whose records the slice shares |
| `LinkOptimizer.IterationStep` | nodos/tec_enu_ite_jer.py:69-76 | one more iteration applies one shuffle and one distance step to the list, and appends its first five records to the trials |
| `LinkOptimizer.KeepBestIsFirstMinimum` | nodos/tec_enu_ite_jer.py:64-80 | something is retained if and only if some iteration ran; the retained trial scores at most every trial, and strictly less than every earlier one, so the strict `<` keeps the first of tied trials |
| `LinkOptimizer.StatePermutesNodes` | nodos/tec_enu_ite_jer.py:69-74 | after any number of iterations the list holds the same nodes (ids and positions), only reordered |
| `LinkOptimizer.TrialScoresNonNegative` | nodos/tec_enu_ite_jer.py:73-76 | with a true square root every trial's score is non-negative |
| `LinkOptimizer.OptimizedLinks` | nodos/tec_enu_ite_jer.py:63-87 | the result has 0 pairs with no iterations, and `min(5, n)` pairs otherwise; each pair is `(id of an input node, new_node_id)`; the retained set is the trial of the earliest least-scoring iteration |
| `LinkOptimizer.Cursor.InsertNewLink` | nodos/tec_enu_ite_jer.py:48-58 | inserting a link appends `(source, target)` to the store's link log |
| `LinkOptimizer.InsertLinks` | nodos/tec_enu_ite_jer.py:82-87 | one pair `(id_node, new_node_id)` per retained node, in `best_links` order, with one insertion per pair |
| `LinkOptimizer.OptimizeLinks` | nodos/tec_enu_ite_jer.py:63-87 | the list ends as the iterated shuffle-and-measure state; the result is the pairs of the retained trial, `min(5, n)` of them when some iteration ran and none otherwise; the store receives exactly those links |
| `HullCentroid.CalculateCentroid` | nodos/gna.py:28-36 | the centroid fails only when the hull is needed (more than 2 points, at least 3 distinct) and `ConvexHull` raised |
| `HullCentroid.FewPointsGiveMeanOfAll` | nodos/gna.py:31-35 | with fewer than 3 points the result is the mean of all points |
| `HullCentroid.FewDistinctPointsGiveMeanOfAll` | nodos/gna.py:31-35 | with fewer than 3 distinct points the result is the mean of all points, repeats counted |
| `HullCentroid.IdenticalPointsGiveThatPoint` | nodos/gna.py:31-35 | when all points are identical the result is that point |
| `HullCentroid.HullBranchIgnoresInteriorPoints` | nodos/gna.py:31-33 | on the hull branch the result is the mean of the hull-vertex points only; changing points off the hull does not change it |
| `HullCentroid.CentroidInBoundingBox` | nodos/gna.py:31-35 | on either branch the result lies within the inputs' longitude and latitude ranges |
| `HullCentroid.PlaceCentroidNode` | nodos/gna.py:49-60 | no node when the list is empty, a failure only from `ConvexHull`; otherwise the inserted node is the centroid, its latitude `centroid[1]` and its longitude `centroid[0]`, and these lie within the nodes' latitude and longitude ranges |
| `HullCentroidLink.CalculateCentroid` | nodos/gna_enlace.py:28-36 | the mean of all points below 3 points or below 3 distinct ones; otherwise the mean of the hull vertices or the `ConvexHull` error; identical points give that point; the result lies within the inputs' ranges |
| `HullCentroidLink.PlaceAndLinkNode` | nodos/gna_enlace.py:64-81 | nothing is inserted for an empty list and a failure comes only from `ConvexHull`; otherwise the inserted node is the centroid, its latitude `centroid[1]` and its longitude `centroid[0]`, both within the nodes' ranges, and the one link is `(1, new_node_id)` |

## Left out

- Database access is not modelled: `connect_to_db`, `get_all_node_positions`, `get_specific_node_positions`, `insert_new_node`, `get_node_position`, and the SQL inside both `insert_new_link` functions. In nodos/tec_enu_ite_jer.py that SQL stores an `ST_Distance` and an `ST_MakeLine`; in nodos/gna_enlace.py it stores only the `ST_MakeLine`. Neither function commits or rolls back; the callers' `main` does. These are external I/O. Only the pair an `insert_new_link` call records is kept.
- The `main` of nodos/tec_enu_ite_jer.py is not modelled. That covers per-group placement, the per-step commits and the rollback, and printing. Its loop does not guard against empty groups. `SectionsNonEmptyIff` shows these occur exactly when there are fewer nodes than groups. For an empty group `np.mean` returns a NaN scalar, and `centroid[0]` at line 34 then raises `IndexError`. `main` catches that at lines 123-125, after the earlier groups were already committed. `PartitionedCentroid.CalculateCentroid` instead requires a non-empty group.
- Of the `main` of gna.py and gna_enlace.py, only the `if nodes:` guard, the exception path and the insertion arguments are modelled. Commits, rollbacks, printing and the traceback are left out.
- nodos/min_cua.py and nodos/min_cua_enlace.py are not part of this model. Their placement is floating-point least squares delegated to `scipy.optimize.least_squares`, and the rest is database access.
- `ConvexHull` itself is an oracle. The model does not check that the indices it returns are the extreme points, so containment of the hull centroid in the convex hull cannot be stated. The bounding box is stated instead.
- `np.sqrt` is an oracle, and so is the uniform randomness of `np.random.shuffle`. Every permutation is allowed as a draw; their probabilities are not modelled.
- IEEE floating point is not modelled. Coordinates are exact reals, and every mean is taken over a non-empty input. The initial `float('inf')` is `None`, meaning "nothing retained yet".
- `LinkOptimizer.OptimizeLinks`: `best_links` is kept as a snapshot of the selected records, not as references to them. Later iterations may write a record's `distance` again, but always with the same value: the distance depends only on the record's position and the new node's position. So the snapshot and the shared records agree.
- `PartitionedCentroid.CreateSubgroups`: it requires `num_groups > 0`, because `np.array_split` raises for zero sections.
- `LinkOptimizer.EvaluateLinks`: it requires every link to carry a `distance`, because Python raises `KeyError` otherwise. `optimize_links` always records the distances before scoring.
- The defaults `num_groups=2` (nodos/tec_enu_ite_jer.py:36) and `num_iterations=10` (line 63) are not modelled. `PartitionedCentroid.CreateSubgroups` and `LinkOptimizer.OptimizeLinks` take them as required parameters, and every value is covered.
- Three behaviours of the code to note:
  - The partitioned placement takes the plain mean of each group, not the hull centroid.
  - The optimizer returns no links when `num_iterations` is 0, even if nearby nodes exist.
  - Node and link insertions are committed step by step by the callers, not in one transaction.
