# Zero-dimensional persistence in pyper, modelled in Dafny

pyper computes persistent homology: how the connected components of a space appear and
merge as a threshold sweeps over values attached to its points. The model covers the
package's zero-dimensional core:

- the path-compressing **union--find** structure behind every sweep (`UnionFind`);
- **persistence diagrams**, the multiset of (creation, destruction) pairs, with
  `__len__`, `__getitem__`, `add` and `union` (`PersistenceDiagrams`);
- the **graph sweep** `calculate_persistence_diagrams`. It visits edges by weight under a
  sublevel or superlevel filtration. Each edge either merges two components, pairing the
  younger one's vertex value with the edge weight, or is recorded as a cycle. Surviving
  components and cycles are paired with the unpaired value at the end
  (`GraphPersistence`, properties in `GraphPersistenceProperties`);
- the **one-dimensional function sweep** `calculate_persistence_diagrams_1d`. It visits
  samples by value, starts components at seeds, joins three components at merge points,
  grows components at regular points, and finally adds the pair of the first and last
  sample (`FunctionPersistence`, properties in `FunctionPersistenceProperties`);
- the **Betti curve** `make_betti_curve`. It turns a diagram into samples of the number
  of active features per threshold, with its `process_event_points` closure as a class
  (`BettiCurves`);
- the **feature vectors** `featurise_distances` and `featurise_pairwise_distances`
  (`Vectorisation`).

Supporting modules:

- `Sorting` defines NumPy's stable `argsort` and `sorted(..., reverse=True)` by their
  properties.
- `Filtration` parses the `order` argument and derives the filtration order.
- `Wrappers` holds `Option`.

## How the model is built

- Values and weights are `int`. The float operation `np.nextafter(t, t - 1)`, the
  largest float below `t`, is the function parameter `pred` of the Betti curve.
  The predicate `IsPredecessor` states what `nextafter` promises of it.
- A graph is three sequences: vertex values, edges as vertex pairs, and edge weights.
- `UnionFind` is a class. Its `parent` list is a `seq<nat>` field that `Find` and
  `Merge` reassign. Ghost ranks prove that the recursive `find` terminates.
- `Find` is proved against a ghost path-compression function. `Merge` is proved
  against a ghost linking function. Both are also stated against the flat labelling
  they represent: vertex `i` labelled by its root.
- Each engine method runs the source's loops on the class. It is proved equal to a
  reference sweep over flat labels: `SweepPrefix`, then `Diagrams` for graphs and
  `Diagram` for functions, then `BettiCurve`. The properties are lemmas about those
  reference functions.
- The `assert order in [...]` failures become `None` results.
- The `IndexError` that `make_betti_curve` raises at `output_[-1]` becomes the outcome
  `Raises`.

## Model

| member | source | states |
|---|---|---|
| UnionFind.UnionFind.constructor | pyper/utilities.py:11-23 | every vertex starts as its own parent and root, so every vertex is its own component |
| UnionFind.InitialRoots | pyper/utilities.py:23 | the roots of a fresh structure below `k` are exactly `0, ..., k-1` in order |
| UnionFind.UnionFind.Find | pyper/utilities.py:25-42 | returns the root of `u`, which is its own parent, so a second `find` of it returns it unchanged; the new parent list is the old one with the path from `u` compressed to point at the root; every vertex keeps its root; parents keep pointing upwards |
| UnionFind.CompressKeepsRoots | pyper/utilities.py:41 | path compression keeps the forest well founded and changes no vertex's root |
| UnionFind.UnionFind.Merge | pyper/utilities.py:44-62 | the component of `u` takes the root of `v` as its label and no other vertex changes component; merging two components drops exactly one root; merging within one component changes no root; when the root of `u` is the smaller one, parents keep pointing upwards |
| UnionFind.MergedRootCount | pyper/utilities.py:61-62 | merging two different components removes exactly one root, and merging within one component leaves the roots as they were |
| UnionFind.RelabelDropsOneLabel | pyper/utilities.py:62 | relabelling one component with another's label leaves one component fewer |
| UnionFind.UnionFind.Roots | pyper/utilities.py:64-78 | yields exactly the vertices that are their own parents, in increasing vertex order |
| PersistenceDiagrams.PersistenceDiagram.constructor | pyper/representations/persistence_diagram.py:18-20 | a new diagram has no pairs |
| PersistenceDiagrams.PersistenceDiagram.Length | pyper/representations/persistence_diagram.py:22-24 | the number of pairs |
| PersistenceDiagrams.PersistenceDiagram.Get | pyper/representations/persistence_diagram.py:26-28 | Python indexing: pair `index` for an index from 0, and pair `len + index` for a negative index |
| PersistenceDiagrams.PersistenceDiagram.Add | pyper/representations/persistence_diagram.py:30-43 | the pair `(x, y)` is appended after the existing pairs, with no validity check |
| PersistenceDiagrams.PersistenceDiagram.Union | pyper/representations/persistence_diagram.py:45-64 | the other diagram's pairs are appended in order, the other diagram is unchanged, and the updated diagram itself is returned |
| Filtration.ParseOrder | pyper/persistent_homology/graphs.py:222 | exactly the names `sublevel` and `superlevel` are accepted, and every other name fails |
| Filtration.FiltrationOrder | pyper/persistent_homology/graphs.py:224-231 | a stable argsort of the values, negated for a superlevel filtration |
| Filtration.FiltrationOrderVisits | pyper/persistent_homology/functions.py:39-44 | the filtration order visits every index once; a later index never has a strictly earlier value; equal values are visited in index order |
| Filtration.OrderDuality | pyper/persistent_homology/graphs.py:224-231 | sorting negated values for a superlevel filtration visits the indices exactly as sorting the values for a sublevel filtration, and the reverse |
| Sorting.StableArgsort | pyper/persistent_homology/graphs.py:225 | the result is a stable argsort: a permutation of the indices ordering the keys, with ties in index order |
| Sorting.StableArgsortUnique | pyper/persistent_homology/graphs.py:225 | any two stable argsorts of the same keys are equal, so `argsort(kind='stable')` is determined |
| Sorting.StableArgsortPermutes | pyper/representations/betti_curve.py:35 | permuting a sequence by a stable argsort of any keys is a rearrangement of its elements |
| Sorting.SortDescending | pyper/vectorisation.py:33 | the result rearranges the input and is sorted from largest to smallest |
| GraphPersistence.EdgeStep | pyper/persistent_homology/graphs.py:239-267 | one edge keeps the vertex labelling a labelling of components |
| GraphPersistence.ProcessEdge | pyper/persistent_homology/graphs.py:241-267 | one pass through the union--find structure gives the components, diagram and cycle list of the reference step, and keeps parents pointing upwards |
| GraphPersistence.SweepEdges | pyper/persistent_homology/graphs.py:207-267 | the loop over the sorted edges gives the reference sweep's components, merge pairs and cycle edges |
| GraphPersistence.AddPairs | pyper/persistent_homology/graphs.py:277-293 | appends the pair `(values[i], y)` for each listed index `i`, in order |
| GraphPersistence.PairEssential | pyper/persistent_homology/graphs.py:272-293 | diagram 0 gains one pair per surviving root, with the unpaired value, in root order; diagram 1 has one pair per cycle edge, with the unpaired value, in sweep order |
| GraphPersistence.DiagramsFromSweep | pyper/persistent_homology/graphs.py:272-295 | the two diagrams are the merge pairs followed by the root pairs, and the cycle pairs |
| GraphPersistence.CalculatePersistenceDiagrams | pyper/persistent_homology/graphs.py:169-295 | fails for an unknown order name; otherwise returns two fresh diagrams equal to the reference diagrams of the graph |
| GraphPersistenceProperties.SweepCounts | pyper/persistent_homology/graphs.py:239-267 | each edge so far is either a merge, adding one pair to diagram 0, or a cycle; merge pairs plus surviving components always number the vertices |
| GraphPersistenceProperties.LabelIsLargestVertex | pyper/persistent_homology/graphs.py:257-266 | every component is labelled by its largest vertex, since the smaller root always dies |
| GraphPersistenceProperties.RaisedLabels | pyper/persistent_homology/graphs.py:257-266 | no vertex is ever labelled by a smaller vertex |
| GraphPersistenceProperties.UnpairedIsExtreme | pyper/persistent_homology/graphs.py:272 | no edge weight comes strictly after the unpaired value: it is the largest weight for a sublevel filtration and the smallest for a superlevel one |
| GraphPersistenceProperties.DiagramSizes | pyper/persistent_homology/graphs.py:239-295 | diagram 0 has exactly one pair per vertex, and merge pairs plus diagram 1 account for every edge |
| GraphPersistenceProperties.MergePairsInOrder | pyper/persistent_homology/graphs.py:239-267 | the merge pairs are added with destruction values in filtration order, never later than the current edge |
| GraphPersistenceProperties.SweepNegation | pyper/persistent_homology/graphs.py:224-267 | sweeping negated values visits the same edges and builds the same components and cycles, with every merge pair negated |
| GraphPersistenceProperties.GraphDuality | pyper/persistent_homology/graphs.py:169-295 | the superlevel diagrams of the negated values are the sublevel diagrams with every value negated |
| GraphPersistenceProperties.ZeroDuality | pyper/persistent_homology/graphs.py:272-284 | diagram 0 of the superlevel sweep on negated values is diagram 0 of the sublevel sweep, negated |
| GraphPersistenceProperties.OneDuality | pyper/persistent_homology/graphs.py:290-293 | diagram 1 of the superlevel sweep on negated values is diagram 1 of the sublevel sweep, negated |
| GraphPersistenceProperties.PathGraphExample | tests/persistent_homology/test_graphs.py:36-43 | on a five-vertex path graph, diagram 0 holds the pairs `(2, 3)` and `(1, 4)` that the package's test looks for, among exactly five pairs, and diagram 1 is empty |
| FunctionPersistence.MergePointStep | pyper/persistent_homology/functions.py:81-103 | a merge point keeps the state a labelling whose pairs name samples |
| FunctionPersistence.SampleStep | pyper/persistent_homology/functions.py:59-173 | one sample keeps the state a labelling whose pairs name samples |
| FunctionPersistence.YoungerNeighbour | pyper/persistent_homology/functions.py:89-103 | the younger neighbour of a merge point is one of its two neighbours |
| FunctionPersistence.IndexPairs | pyper/persistent_homology/functions.py:178-180 | every index pair names two samples |
| FunctionPersistence.Orient | pyper/persistent_homology/functions.py:186-192 | one pair of values per index pair, in order, with the value at the smaller index first |
| FunctionPersistence.ProcessMergePoint | pyper/persistent_homology/functions.py:81-103 | the union--find labels and pair list after a merge point are those of the reference step |
| FunctionPersistence.FindYounger | pyper/persistent_homology/functions.py:89-96 | picks the reference younger neighbour and changes no component |
| FunctionPersistence.LeftIsOlder | pyper/persistent_homology/functions.py:89-90 | tells whether the root of the left neighbour strictly precedes that of the right one, changing no component |
| FunctionPersistence.JoinAtMergePoint | pyper/persistent_homology/functions.py:94-103 | merges the point into its younger neighbour, then that into the older one, and records the younger root with the point |
| FunctionPersistence.MergeOnce | pyper/persistent_homology/functions.py:122-125 | one `merge` gives the labelling in which the first component takes the second's label |
| FunctionPersistence.ProcessRegularPoint | pyper/persistent_homology/functions.py:107-173 | the union--find labels after a regular point are those of the reference left merge, then right merge |
| FunctionPersistence.MergeLeftward | pyper/persistent_homology/functions.py:156-166 | the labels after the merges towards the left neighbour are the reference left merge's |
| FunctionPersistence.MergeRightward | pyper/persistent_homology/functions.py:168-173 | the labels after the merges towards the right neighbour are the reference right merge's |
| FunctionPersistence.ProcessSample | pyper/persistent_homology/functions.py:59-173 | one loop iteration gives the reference step's labels and pairs |
| FunctionPersistence.SweepSamples | pyper/persistent_homology/functions.py:50-173 | the loop over the samples in filtration order gives the reference sweep's labels and pairs |
| FunctionPersistence.AddOriented | pyper/persistent_homology/functions.py:186-192 | the fresh diagram holds the oriented value pairs |
| FunctionPersistence.CalculatePersistenceDiagrams1D | pyper/persistent_homology/functions.py:12-194 | fails for an unknown order name; otherwise returns a fresh diagram equal to the reference diagram |
| FunctionPersistenceProperties.SweepIsContiguous | pyper/persistent_homology/functions.py:59-173 | every component of the sweep is a run of adjacent samples |
| FunctionPersistenceProperties.PairsAtMergePoints | pyper/persistent_homology/functions.py:81-103 | the sweep records exactly one pair per merge point visited, and every recorded pair ends at an interior merge point |
| FunctionPersistenceProperties.MergePointJoinsThree | pyper/persistent_homology/functions.py:81-103 | a merge point is interior; it records one pair, the younger neighbour's root with the point, where the right neighbour is the younger exactly when the left root strictly precedes the right one; the three components become one, keeping the older label whenever the point is not already in the older neighbour's component, and every other component is untouched |
| FunctionPersistenceProperties.UnvisitedMergePointIsSingleton | pyper/persistent_homology/functions.py:59-173 | in any visiting order, a merge point not yet visited is still a component of its own: no earlier sample merges towards it |
| FunctionPersistenceProperties.SweepMergePoint | pyper/persistent_homology/functions.py:81-103 | when the sweep in filtration order reaches a merge point, the point is a component of its own; it records the younger neighbour's root with the point, and afterwards the point and both neighbours carry the older neighbour's label |
| FunctionPersistenceProperties.LeftMergeDirection | pyper/persistent_homology/functions.py:122-166 | towards a strictly earlier left neighbour the point joins the neighbour's component; towards an equal one the neighbour's component joins the point's; otherwise, and at index 0, nothing changes |
| FunctionPersistenceProperties.RightMergeDirection | pyper/persistent_homology/functions.py:122-173 | towards an equal right neighbour it joins the point's component; towards a strictly earlier right neighbour, when the left one is not strictly earlier, the point joins it; otherwise, and at the last index, nothing changes |
| FunctionPersistenceProperties.ClosingPairEndsPairs | pyper/persistent_homology/functions.py:176-180 | with two or more samples the pair of the first and last sample in filtration order is in the result, and every other pair ends at a merge point; with fewer samples the diagram is empty |
| FunctionPersistenceProperties.StepDual | pyper/persistent_homology/functions.py:39-173 | one sample of the superlevel sweep over negated values takes the same case, merges the same components in the same direction and records the same index pair as the sublevel sweep over the values |
| FunctionPersistenceProperties.PrefixDual | pyper/persistent_homology/functions.py:50-173 | in any visiting order, the superlevel sweep over negated values builds the same labels and index pairs as the sublevel sweep over the values |
| FunctionPersistenceProperties.IndexPairsDual | pyper/persistent_homology/functions.py:39-180 | the superlevel filtration of negated values records the same index pairs as the sublevel filtration of the values, closing pair included |
| FunctionPersistenceProperties.OrientDual | pyper/persistent_homology/functions.py:186-192 | orienting index pairs by position over negated values gives every value pair negated |
| FunctionPersistenceProperties.FunctionDuality | pyper/persistent_homology/functions.py:12-194 | the superlevel diagram of the negated values is the sublevel diagram with every value negated, and the sublevel diagram of the negated values is the superlevel diagram negated |
| BettiCurves.Events | pyper/representations/betti_curve.py:29-33 | a creation event then a destruction event for every pair, in diagram order |
| BettiCurves.SortByThresholdIsStable | pyper/representations/betti_curve.py:35 | the events are rearranged in threshold order, with ties in their original order |
| BettiCurves.RawCountsAt | pyper/representations/betti_curve.py:36-51 | raw sample `i` is the threshold of event `i` with the running count after events `0..i` |
| BettiCurves.ActivePermutation | pyper/representations/betti_curve.py:35-51 | the count of active features at a threshold does not depend on the order of the events |
| BettiCurves.ActiveOfEvents | pyper/representations/betti_curve.py:29-51 | over a diagram's events, the count at `t` is the pairs created by `t` less those destroyed by `t` |
| BettiCurves.CurveBuilder.constructor | pyper/representations/betti_curve.py:58-63 | the closure starts at the first event's threshold, with count 0 and nothing stored |
| BettiCurves.CurveBuilder.Process | pyper/representations/betti_curve.py:67-101 | one call of the closure performs one reference step: the count is updated at the same threshold; a new threshold stores the previous one, with a synthetic sample before it once something was stored |
| BettiCurves.RunCollapses | pyper/representations/betti_curve.py:103-104 | after the loop the closure has stored every real sample but the last, each after the first preceded by its synthetic sample, and holds the last one |
| BettiCurves.ClosingStep | pyper/representations/betti_curve.py:110-114 | with one real sample `output_[-1]` raises; with more, the closing call is always made and completes the curve |
| BettiCurves.BettiCurveShape | pyper/representations/betti_curve.py:10-117 | `None` exactly for an empty diagram; raises when every event shares one threshold; otherwise the real samples interleaved with synthetic ones, `2k - 1` samples for `k` real ones |
| BettiCurves.WithSyntheticInterleaves | pyper/representations/betti_curve.py:86-98 | real sample `j` sits at position `2j`, preceded for `j > 0` by a sample at `pred` of its threshold with the count of real sample `j - 1` |
| BettiCurves.SyntheticSamplesBetween | pyper/representations/betti_curve.py:86-98 | when `pred` gives the nearest value below, every synthetic sample lies at or above the previous real threshold and strictly below its own, so the steps are half-open intervals, and the thresholds along the curve never decrease |
| BettiCurves.RunningCountEndsAtZero | pyper/representations/betti_curve.py:36-51 | after all events the running count is zero |
| BettiCurves.RealSamplesIncrease | pyper/representations/betti_curve.py:77-101 | the thresholds of the real samples strictly increase |
| BettiCurves.RealSamplesThresholds | pyper/representations/betti_curve.py:29-101 | the real samples lie at exactly the values of the diagram |
| BettiCurves.RealSamplesCount | pyper/representations/betti_curve.py:36-101 | each real sample counts the pairs created by its threshold less those destroyed by it |
| BettiCurves.RealSamplesDetermined | pyper/representations/betti_curve.py:10-117 | any sequence with strictly increasing thresholds at the diagram's values, each with that count, is the sequence of real samples |
| BettiCurves.RealSamplesEndAtZero | pyper/representations/betti_curve.py:98-114 | the last real sample lies at the largest value of the diagram with no active feature |
| BettiCurves.RealSamplesNonNegative | pyper/representations/betti_curve.py:36-51 | when no pair is destroyed before it is created, no count is negative |
| BettiCurves.LastEventIsLargest | pyper/representations/betti_curve.py:35 | the last sorted event lies at the largest value of the diagram |
| BettiCurves.SixPairExample | tests/representations/test_betti_curve.py:10-23 | the six-pair diagram of the package's test has the real samples `(0,2) (1,2) (2,2) (3,2) (5,3) (6,1) (8,0)` |
| BettiCurves.EventPoints | pyper/representations/betti_curve.py:29-33 | the first loop builds the event sequence |
| BettiCurves.RunningCounts | pyper/representations/betti_curve.py:36-51 | the second loop builds the raw samples |
| BettiCurves.Collect | pyper/representations/betti_curve.py:58-104 | the third loop leaves the closure in the reference state for all raw samples |
| BettiCurves.CloseCurve | pyper/representations/betti_curve.py:110-117 | the end of the function gives the reference closing outcome, and a returned curve is the closure's final output |
| BettiCurves.MakeBettiCurve | pyper/representations/betti_curve.py:10-117 | the whole function gives the reference Betti curve of the diagram |
| Vectorisation.Persistence | pyper/vectorisation.py:8-10 | the distance of a pair from the diagonal: non-negative, one of the two differences, and zero exactly on the diagonal |
| Vectorisation.FeaturiseDistances | pyper/vectorisation.py:13-33 | one entry per pair, rearranging the pairs' persistences, sorted from largest to smallest, none negative |
| Vectorisation.Chebyshev | pyper/vectorisation.py:63-64 | the largest of the two coordinate distances |
| Vectorisation.Signature | pyper/vectorisation.py:68-72 | at most the Chebyshev distance and both persistences, equal to one of them, zero for a point with itself |
| Vectorisation.SignaturesLength | pyper/vectorisation.py:66-74 | one signature per pair of points `i <= j`: `n (n + 1) / 2` in all |
| Vectorisation.SignaturesAt | pyper/vectorisation.py:66-74 | every pair of points `i <= j` contributes its signature at a position of its own |
| Vectorisation.SignaturesBounded | pyper/vectorisation.py:66-74 | every emitted value is the signature of some pair of points `i <= j`, between 0 and both their persistences |
| Vectorisation.RowsZeros | pyper/vectorisation.py:66-74 | there is at least one zero per point, for each point with itself |
| Vectorisation.FeaturisePairwiseDistances | pyper/vectorisation.py:36-76 | the nested loops emit the signatures of all pairs `i <= j`, which are then sorted: `n (n + 1) / 2` values, a rearrangement of the signatures, largest first, with at least `n` zeros |

## Left out

- Floating point is modelled with unbounded integers. `np.nextafter` is the parameter
  `pred`, and no rounding is modelled.
- igraph graphs and NumPy arrays are plain sequences. The vertex and edge attribute
  lookups are not modelled. An edge's tuple is its pair of vertex indices.
- In the 1-D sweep the local `merges` list and its `Merge` enum (functions.py:107-173)
  are not kept. Each recorded merge is carried out as it is decided, in the same order.
- `UnionFind.UnionFind.Roots` returns a sequence, not a generator. Python's lazy
  `yield` and its interleaving with later updates are not modelled.
- PersistenceDiagrams.PersistenceDiagram.Get requires an index within range. Python's
  `IndexError` for other indices is not modelled, and neither are slices.
- PersistenceDiagrams.PersistenceDiagram.Union requires a different diagram, or an
  empty one. With `d.union(d)` on a non-empty diagram the Python loop iterates over a
  list that keeps growing and does not terminate.
- UnionFind.UnionFind.Find: Python's recursion limit is not modelled. The recursive
  `find` raises `RecursionError` on a parent chain deeper than about a thousand
  vertices, and nothing in `merge` keeps chains short.
- GraphPersistence.CalculatePersistenceDiagrams: the `RecursionError` of `find` is not
  modelled. A path graph whose edge weights rise along the path builds the chain
  `0 -> 1 -> ... -> n-1`, and a last, heavier edge from vertex 0 then finds at depth
  `n - 1`.
- FunctionPersistence.CalculatePersistenceDiagrams1D: Python's recursion limit on
  `find` is not modelled here either, so the model does not say whether a `find` in
  this sweep can recurse deep enough to raise.
- GraphPersistence.CalculatePersistenceDiagrams requires at least one edge once the
  order is valid. With no edges, Python's `edge_indices[-1]` raises, and that error is
  not modelled.
- The rest of the package is not part of this model:
  - the distance and height filtrations;
  - the `BettiCurve` class and its arithmetic;
  - persistence images;
  - statistics (`total_persistence`, `infinity_norm`);
  - the package's `__init__` exports.
- The Beketayev test in tests/persistent_homology/test_functions.py:20-36 is not stated
  as a lemma. Its superlevel case applies `-function` to a Python list, which the model
  does not have, and its expected equality is not proved.
- The Betti curve test in tests/representations/test_betti_curve.py:10-17 builds a
  diagram with `PersistenceDiagram(pairs=...)`. That constructor does not exist in
  persistence_diagram.py:18-20, so the example takes the pairs directly.
- `featurise_distances` and `featurise_pairwise_distances` take the diagram as its
  sequence of pairs, which is all they iterate over.
