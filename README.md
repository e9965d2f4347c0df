# A verified model of the graph_dp_project estimation engine

The project estimates statistics of a social graph under local differential
privacy. These statistics are the edge count, the degree histogram, the
k-star count and the triangle count.

Each node of the graph sees only its own view: the part of the graph that
the visibility policy ("1-hop", "2-hop", "global") shows it. The node
computes a local statistic of that view. Unless the node is public, it
perturbs the statistic with Laplace noise scaled to a sensitivity. The
estimator then adds up all the reports and divides by 2 (edges) or 3
(triangles).

Sensitivities come in two kinds:

- a global, clipped constant: 1, comb(49, k - 1) or 50;
- an instance-specific value computed from the node's own view.

The smooth estimators also report the average sensitivity.

The Dafny model follows the three core files.

- `graphs.dfy` (module `Graphs`) holds graphs as networkx stores them. A graph
  maps every node to its neighbour list, in insertion order. The file models
  `add_edge`, induced subgraphs, walks and connected components.
- `errors.dfy` (module `Errors`) lists the failures Python raises where the
  model returns an error value: `NodeNotFound`, `EmptyGraph` and
  `InvalidArgument`.
- `model.dfy` (module `Model`) covers `model.py`:
  - `VisibilityOracle.is_visible`, as a ghost function, since its "2-hop"
    branch depends on reachability;
  - the two views `get_visible_subgraph` builds, as loops proved against the
    specification functions `OneHopPrefix` and `Induced(g, Ball2(g, observer))`;
  - the class `SocialGraph`, with its public-node selection
    (`_select_public_nodes`) and `is_public`.
- `counting.dfy` (module `Counting`) holds the combinatorics the estimators
  rely on:
  - binomial coefficients and the k-subsets they count;
  - the closed neighbour pairs the triangle loops count;
  - the handshake identity;
  - the fact that every triangle is counted at each of its three corners.
- `algorithms.py` is modelled in `algorithms.dfy` (module `Algorithms`):
  - the class `GraphDPAlgorithms` with `_aggregate_local_queries` and the six
    estimators, each a method proved against a specification function of the
    graph, the policy, the public set, the node order and the noise draws;
  - lemmas saying what each estimate is: the number of edges, k-stars or
    triangles plus the scaled noise;
  - lemmas for the sensitivity bounds and the clipping bounds.
- `utils.dfy` (module `Utils`) covers `perform_random_walk` and the breadth-first
  sampler `sample_power_law_subgraph`.

Randomness is a parameter or a choice of the model:

- The Laplace draw of each node is an input `noise: int -> real`: the
  standard draw, scaled by sensitivity / epsilon.
- numpy's other draws are nondeterministic choices (`:|`), so every property
  holds whatever numpy draws. These draws are the random public set, the next
  step of a walk, the start node of the sampler and its shuffle.

The model follows the code as written, including where the code disagrees
with itself or with what its docstrings suggest:

- Under "global", `is_visible` answers true
  (graph_dp_project/src/model.py:43-44), while `get_visible_subgraph` falls
  back to an empty graph for every policy other than "1-hop" and "2-hop"
  (graph_dp_project/src/model.py:125-127). So under "global" every edge is
  called visible, yet every view is empty (`OtherPoliciesEmpty`).
- Under "2-hop", `is_visible` computes the distance to `u` before the distance
  to `v` (graph_dp_project/src/model.py:37-41). An endpoint `u` the observer
  cannot reach gives false even when `v` is not a node. A missing `v` raises
  only once `u` has been reached (`TwoHopUnreachableExample`).
- The two smooth estimators divide by `len(nodes)`
  (graph_dp_project/src/algorithms.py:145, 209), so on an empty graph they
  raise. The model returns `Err(EmptyGraph)` there. The other estimators
  return 0 on an empty graph, as the code does.
- For k < 1, `math.comb` raises for a negative argument, so the model returns
  `Err(InvalidArgument)`. In `k_star_count_smooth` this happens only when
  there is a node to evaluate.
- `triangle_count_smooth` asks for the neighbours of the observer without the
  membership guard of its local count (graph_dp_project/src/algorithms.py:182).
  So a node missing from its own view raises: under "1-hop" this is an
  isolated node, under "global" it is every node. The model returns
  `Err(NodeNotFound)` (`InOwnView`).
- `int(n * public_fraction)` truncates toward zero, so a negative fraction
  can give a negative number of public nodes. "degree_top_k" then keeps all
  but the last |num_public| ranked nodes, as Python's slice does, while
  numpy's draw raises for "random" and "degree_probabilistic" (`NumPublic`,
  `TopKSpec`, `SelectPublicNodes`).

## Model

| member | source | states |
|---|---|---|
| Graphs.AddEdgeSpec | graph_dp_project/src/model.py:106-109 | `add_edge` adds both endpoints, adds exactly the edge in both directions, and leaves every other neighbour list alone |
| Graphs.InducedSpec | graph_dp_project/src/model.py:123 | the induced subgraph has the kept nodes of the graph, and exactly the graph edges with both endpoints kept |
| Model.VisibilityOracle.IsVisible | graph_dp_project/src/model.py:12-46 | computes `is_visible`: under "1-hop", true when the observer is an endpoint or adjacent to one; under "2-hop", `NodeNotFound` for a missing observer or `u`, false when `u` and then `v` cannot be reached, `NodeNotFound` for a missing `v` only after `u` is reached, and otherwise both endpoints within distance 2; true under "global"; false otherwise. Its meaning is stated by the lemmas below |
| Model.TwoHopIsVisibleMeaning | graph_dp_project/src/model.py:36-41 | for an observer and endpoints that are all nodes, the 2-hop answer is exactly "both endpoints within distance 2": the no-path branch agrees with it |
| Model.TwoHopUnreachableExample | graph_dp_project/src/model.py:36-41 | with nodes 0 and 1 and no edge, the edge (1, 7) is invisible to 0, with no error although 7 is not a node |
| Model.VisibleSubgraph | graph_dp_project/src/model.py:98-127 | computes the view: the 1-hop `add_edge` fold, the subgraph induced by the radius-2 ball, and otherwise the empty graph. `OneHopViewFacts`, `TwoHopViewFacts` and `OtherPoliciesEmpty` state its meaning |
| Model.OneHopView | graph_dp_project/src/model.py:102-110 | the nested `add_edge` loops build the 1-hop view, neighbour by neighbour |
| Model.OneHopPrefixEdges | graph_dp_project/src/model.py:105-109 | after the first i neighbours are expanded, the view holds exactly the graph edges with an endpoint among them |
| Model.OneHopPrefixObserver | graph_dp_project/src/model.py:105-106 | after i > 0 expansions, the observer is in the view with its first i neighbours in graph order |
| Model.OneHopViewFacts | graph_dp_project/src/model.py:102-110 | the 1-hop view is a simple graph; its edges are exactly the graph edges touching the observer or a neighbour; the observer keeps its neighbour list; an isolated observer gets an empty view without itself |
| Model.TwoHopView | graph_dp_project/src/model.py:112-123 | the distance-1 and distance-2 sets and the induced subgraph give the subgraph induced by the radius-2 ball |
| Model.TwoHopViewFacts | graph_dp_project/src/model.py:112-123 | the 2-hop view's nodes are the observer, its neighbours and theirs; its edges are the induced ones; it always holds the observer with its full neighbour list |
| Model.OneHopVisibilityAgrees | graph_dp_project/src/model.py:18-24 | for every graph edge, `is_visible` under "1-hop" answers true exactly when the edge is in the 1-hop view |
| Model.TwoHopVisibilityAgrees | graph_dp_project/src/model.py:26-41 | for every graph edge, `is_visible` under "2-hop" answers true exactly when the edge is in the 2-hop view |
| Model.OtherPoliciesEmpty | graph_dp_project/src/model.py:43-46 | for "global" and every unknown policy the view is empty; `is_visible` answers true for "global" and false otherwise |
| Model.ObserverNeighbourhood | graph_dp_project/src/model.py:102-123 | under "1-hop" and "2-hop" the observer's degree, its neighbour list and every edge at a neighbour are as in the graph |
| Model.SortByDegreeSpec | graph_dp_project/src/model.py:79-80 | the degree ranking is a permutation of the nodes in non-increasing degree order |
| Model.TopKSpec | graph_dp_project/src/model.py:77-82 | "degree_top_k" picks as many distinct nodes as the slice `[:num_public]` keeps, each of degree at least that of every node left out |
| Model.NumPublic | graph_dp_project/src/model.py:68 | `int(n * fraction)` is n * fraction truncated toward zero: non-negative and within 1 below it for a non-negative product, non-positive and within 1 above it otherwise |
| Model.SocialGraph.constructor | graph_dp_project/src/model.py:52-56 | a new store has an empty graph, no public node, and the given fraction and strategy |
| Model.SocialGraph.LoadData | graph_dp_project/src/model.py:61-64 | loading installs the graph and then selects the public nodes |
| Model.SocialGraph.SelectPublicNodes | graph_dp_project/src/model.py:66-92 | num_public = int(n * fraction): 0 clears the set; "random" draws num_public distinct nodes (it raises when num_public is negative or there are too few); "degree_top_k" takes the top of the ranking; "degree_probabilistic" draws from the nodes of positive degree, or from all nodes when there are none; an unknown strategy changes nothing |
| Model.SocialGraph.DrawWithoutReplacement | graph_dp_project/src/model.py:75 | a draw without replacement gives m distinct members of the pool, and fails with no change when m is negative or the pool is smaller than m |
| Model.SocialGraph.IsPublic | graph_dp_project/src/model.py:95-96 | computes `is_public`: membership in the public set |
| Model.SocialGraph.GetVisibleSubgraph | graph_dp_project/src/model.py:98-127 | the view for the oracle's policy; an error for a 1-hop or 2-hop observer that is not a node; the graph is not changed |
| Counting.KSubsetsCard | graph_dp_project/src/algorithms.py:98-100 | a set of n elements has comb(n, k) subsets of size k |
| Counting.CombAboveN | graph_dp_project/src/algorithms.py:98-99 | comb(n, k) is 0 for k > n, so the `d < k` guard agrees with comb |
| Counting.CombTwo | graph_dp_project/src/algorithms.py:228-235 | 2 * comb(n, 2) = n (n - 1) |
| Counting.ClosedPairsSet | graph_dp_project/src/algorithms.py:161-168 | the i < j double loop counts each unordered pair of adjacent neighbours exactly once |
| Counting.ClosedPairsAtMostComb | graph_dp_project/src/algorithms.py:228-235 | at most comb(n, 2) of the pairs of n neighbours are counted |
| Counting.ClosedPairsPrefix | graph_dp_project/src/algorithms.py:225-226 | truncating the neighbour list can only lose counted pairs |
| Counting.AdjPairsSplit | graph_dp_project/src/algorithms.py:186-195 | removing a neighbour x loses exactly the pairs through x, one per neighbour adjacent to x |
| Counting.Handshake | graph_dp_project/src/algorithms.py:37-48 | the degree sum over all nodes is twice the number of edges |
| Counting.TriangleSumIsThreeTriangles | graph_dp_project/src/algorithms.py:209 | the local triangle counts of all nodes add up to three times the number of triangles |
| Algorithms.GraphDPAlgorithms.AggregateLocalQueries | graph_dp_project/src/algorithms.py:13-35 | the loop returns the sum over all nodes of the statistic of each view, with the scaled draw added for private nodes only |
| Algorithms.NoisyTotalSplit | graph_dp_project/src/algorithms.py:13-35 | the noisy total is the exact total plus the scaled noise of the private nodes |
| Algorithms.NoiseTotalZero | graph_dp_project/src/algorithms.py:27-31 | when every node is public or draws zero, no noise is added, so the total is exact |
| Algorithms.OtherPolicyTotalZero | graph_dp_project/src/algorithms.py:13-35 | under "global" or an unknown policy every view is empty, so a statistic that is 0 on an empty view totals 0 |
| Algorithms.GraphDPAlgorithms.EdgeCount | graph_dp_project/src/algorithms.py:37-48 | the estimate is half the noisy total of the local degrees, with sensitivity 1 |
| Algorithms.LocalDegree | graph_dp_project/src/algorithms.py:44-45 | computes the local degree: the node's degree in its view, 0 when the node is absent. `DegreeTotalExact` states what the total of these is |
| Algorithms.DegreeTotalExact | graph_dp_project/src/algorithms.py:42-45 | under "1-hop" and "2-hop" the exact local-degree total is the degree sum of the graph |
| Algorithms.EdgeEstimateMeaning | graph_dp_project/src/algorithms.py:37-48 | under "1-hop" and "2-hop" the edge estimate is the number of edges plus half the scaled noise |
| Algorithms.NoisyDegrees | graph_dp_project/src/algorithms.py:62-78 | one noisy clipped degree per node, in node order |
| Algorithms.BinOf | graph_dp_project/src/algorithms.py:80 | bin b holds [b, b + 1), the last bin also holds max_degree + 1, and values outside [0, max_degree + 1] fall in no bin |
| Algorithms.Histogram | graph_dp_project/src/algorithms.py:80 | the histogram has max_degree + 1 buckets |
| Algorithms.HistogramCounts | graph_dp_project/src/algorithms.py:80 | bucket b counts exactly the values that fall in bin b |
| Algorithms.HistogramTotal | graph_dp_project/src/algorithms.py:80 | the buckets add up to the number of values inside [0, max_degree + 1] |
| Algorithms.HistogramExample | graph_dp_project/src/algorithms.py:80 | degrees 2, 2, 3 and 1 with max_degree 3 give the buckets 0, 1, 2 and 1 |
| Algorithms.GraphDPAlgorithms.DegreeHistogram | graph_dp_project/src/algorithms.py:50-81 | the loop collects each node's clipped degree (noisy unless the node is public) and bins the list; no bins for a negative max_degree; sensitivity 1 |
| Algorithms.NoisyDegreesExact | graph_dp_project/src/algorithms.py:66-78 | without noise, under "1-hop" and "2-hop", each report is the node's degree in the graph capped at max_degree |
| Algorithms.DegreeHistogramExact | graph_dp_project/src/algorithms.py:58-81 | without noise, under "1-hop" and "2-hop", bucket b counts the nodes whose capped degree is b, and the buckets add up to the number of nodes |
| Algorithms.GraphDPAlgorithms.KStarCount | graph_dp_project/src/algorithms.py:83-103 | the estimate is the noisy total of comb(d, k) with private degrees capped at 50, with sensitivity comb(49, k - 1); an error for k < 1 |
| Algorithms.LocalKStar | graph_dp_project/src/algorithms.py:91-100 | computes comb(d, k) for the node's degree d in its view, capped at 50 when clipped, and 0 below k. `LocalKStarCountsStars` and `KStarClipBounds` state its meaning |
| Algorithms.LocalKStarCountsStars | graph_dp_project/src/algorithms.py:113-118 | the unclipped local value is the number of k-stars centred at the node in its view |
| Algorithms.KStarClipBounds | graph_dp_project/src/algorithms.py:94-100 | the clipped local value is at most the unclipped one, and at most comb(50, k) |
| Algorithms.KStarGlobalSensitivity | graph_dp_project/src/algorithms.py:88-96 | one more neighbour raises a clipped local value by at least 0 and at most comb(49, k - 1) |
| Algorithms.KStarClippedTotal | graph_dp_project/src/algorithms.py:83-103 | under "1-hop" and "2-hop" the noiseless clipped total is at most the sum of comb(degree, k), with equality when every private node has degree at most 50 |
| Algorithms.KStarTotalExact | graph_dp_project/src/algorithms.py:113-126 | under "1-hop" and "2-hop" the noiseless unclipped total is the sum of comb(degree, k) over the graph |
| Algorithms.GraphDPAlgorithms.KStarCountSmooth | graph_dp_project/src/algorithms.py:105-145 | the noisy total of comb(d, k), each node with its own sensitivity, and the average sensitivity; an error on an empty graph and for k < 1 |
| Algorithms.KStarSmoothSens | graph_dp_project/src/algorithms.py:128-135 | computes the smooth k-star sensitivity max(1, comb(d, k - 1)), 1 below k - 1. `KStarSmoothSensitivityBound` states what it bounds |
| Algorithms.KStarSmoothSensitivityBound | graph_dp_project/src/algorithms.py:128-135 | the node's sensitivity bounds the change one more neighbour makes to comb(d, k), and is at least 1 |
| Algorithms.SmoothAverageAtLeastOne | graph_dp_project/src/algorithms.py:135-145 | the average sensitivity of both smooth estimators is at least 1 |
| Algorithms.LocalTriangles | graph_dp_project/src/algorithms.py:219-236 | computes the number of adjacent pairs among the node's neighbours in its view, or among the first 50 when clipped, and 0 for an absent node. `ClosedPairsSet` and `TriangleClipBounds` state its meaning |
| Algorithms.CountClosedPairs | graph_dp_project/src/algorithms.py:161-168 | the double loop returns the number of index pairs i < j whose entries are adjacent |
| Algorithms.MaxCommonOfSpec | graph_dp_project/src/algorithms.py:186-195 | max_common is at least every neighbour's count of adjacent neighbours, and is 0 or one of those counts |
| Algorithms.MaxCommon | graph_dp_project/src/algorithms.py:186-195 | the sensitivity loops return the largest count of neighbours adjacent to one neighbour |
| Algorithms.SmoothTriangleReport | graph_dp_project/src/algorithms.py:179-198 | the local triangle count and the sensitivity of a node in its view: max(1, max_common), and 1 without neighbours |
| Algorithms.GraphDPAlgorithms.SmoothTriangleNode | graph_dp_project/src/algorithms.py:177-205 | one node's report, or an error signal when the node is not in its own view |
| Algorithms.GraphDPAlgorithms.SmoothTriangleTotals | graph_dp_project/src/algorithms.py:173-207 | the loop totals match their definitions, and it stops exactly when some node is missing from its view |
| Algorithms.GraphDPAlgorithms.TriangleCountSmooth | graph_dp_project/src/algorithms.py:147-209 | a third of the noisy total of the unclipped local counts and the average sensitivity; an error on an empty graph or when a node is missing from its view |
| Algorithms.InOwnView | graph_dp_project/src/algorithms.py:178-182 | a node is in its own view, so `subgraph.neighbors(node)` does not raise, always under "2-hop", under "1-hop" exactly when it has a neighbour, and never under another policy |
| Algorithms.AllSeenInViews | graph_dp_project/src/algorithms.py:177-182 | the smooth triangle loop gets past every node exactly when every node is in its own view |
| Algorithms.TriangleSmoothTotalExact | graph_dp_project/src/algorithms.py:154-170 | under "1-hop" and "2-hop" the noiseless unclipped total is the sum of the local triangle counts of the graph |
| Algorithms.TriangleSmoothEstimateMeaning | graph_dp_project/src/algorithms.py:147-209 | under "1-hop" and "2-hop" the smooth estimate is the number of triangles plus a third of the scaled noise |
| Algorithms.TriangleSmoothSens | graph_dp_project/src/algorithms.py:180-198 | computes max(1, max_common), 1 for a node without neighbours. `TriangleSmoothSensitivityBound` states what it bounds |
| Algorithms.TriangleSmoothSensitivityBound | graph_dp_project/src/algorithms.py:180-198 | losing one neighbour x costs exactly the neighbours adjacent to x, which is at most the sensitivity; the sensitivity lies in [1, max(1, degree - 1)] |
| Algorithms.GraphDPAlgorithms.TriangleCount | graph_dp_project/src/algorithms.py:211-239 | a third of the noisy total of the clipped local counts, with sensitivity 50 |
| Algorithms.TriangleClipBounds | graph_dp_project/src/algorithms.py:219-236 | truncating to 50 neighbours never raises the count, caps it at comb(50, 2), and changes nothing at degree 50 or less |
| Algorithms.PairsWithinBound | graph_dp_project/src/algorithms.py:225-235 | at most d kept neighbours close at most d (d - 1) / 2 pairs |
| Algorithms.TriangleClipRowBound | graph_dp_project/src/algorithms.py:225-235 | each kept neighbour closes fewer than 50 of the counted pairs |
| Algorithms.TriangleClippedTotal | graph_dp_project/src/algorithms.py:211-239 | under "1-hop" and "2-hop" the noiseless clipped total is at most the unclipped one, with equality when every private node has degree at most 50 |
| Utils.RandomWalk | graph_dp_project/src/utils.py:24-36 | the path starts at the start node, has at most walk_length + 1 nodes, moves along edges, and is short only at a dead end; an error when the start is not a node and a step is taken |
| Utils.WalkInComponent | graph_dp_project/src/utils.py:28-36 | every node of the walk lies in the connected component of the start |
| Utils.Expand | graph_dp_project/src/utils.py:48-54 | the inner loop keeps and queues the new neighbours, keeps every queued node kept, and stops at `size` nodes |
| Utils.SamplePowerLawSubgraph | graph_dp_project/src/utils.py:38-58 | the result is the subgraph induced by the kept nodes; it contains the start and is connected; it has min(size, size of the start's component) nodes for size >= 1, and just the start for size <= 1; an error on an empty graph |
| Utils.SampleFacts | graph_dp_project/src/utils.py:47-58 | when the expansion stops, the kept set is connected, and is either `size` nodes or the whole component |
| Utils.SampleInComponent | graph_dp_project/src/utils.py:38-58 | the sample lies in the start's component, and is all of it when `size` is at least the component's size |

## Left out

- `load_data` reads the edge list with `nx.read_edgelist`. The file I/O is not modelled: `LoadData` receives the graph and the node order.
- The Laplace draw is an input per node (the standard draw, scaled by sensitivity / epsilon). Neither numpy's sampler nor floating-point rounding is modelled: values are exact reals.
- `laplace_mechanism` with epsilon <= 0 is not modelled: every estimator requires epsilon > 0.
- `geometric_mechanism` is not part of this model. The core does not call it.
- Model.SocialGraph.SelectPublicNodes: for "degree_probabilistic" only the pool and the size are modelled. The degree-proportional weights of numpy's draw are left out.
- Algorithms.GraphDPAlgorithms.TriangleCount: under "2-hop" the model's view keeps each node's neighbours in the graph's order. networkx's `subgraph(...).copy()` (graph_dp_project/src/model.py:123) rebuilds each list edge by edge, in an order that follows Python's set iteration, which the model does not fix. `local_triangles` keeps only the first 50 neighbours of a private node (graph_dp_project/src/algorithms.py:223-226). So for a private node with more than 50 neighbours under "2-hop", the clipped count in the model can differ from the source's. `TriangleClipBounds` is proved for every view, whatever the order of its lists, and the unclipped count depends only on the set of neighbours (`ClosedPairsSet`). `TriangleClippedTotal` is proved for the model's order, from `TriangleClipBounds` node by node. The unclipped counts, the degrees and the k-star counts do not read the order.
- Model.VisibleSubgraph: the "2-hop" branch keeps each neighbour list in the graph's order. networkx's `subgraph(...).copy()` (graph_dp_project/src/model.py:123) rebuilds the lists edge by edge, in an order that follows Python's set iteration. That order is not modelled, so the promise `view[observer] == g[observer]` holds for the model's view, not for the order of the copied one. The node set and the edge relation are as in the source.
- Model.TwoHopView: returns `Induced(g, Ball2(g, observer))`, which keeps the graph's neighbour order. The order of networkx's `copy()` is not modelled; the nodes and edges are those of the source.
- Model.SocialGraph.GetVisibleSubgraph: under "2-hop" the same gap as `VisibleSubgraph`: the neighbour order of the copied subgraph is not modelled.
- Utils.SamplePowerLawSubgraph: the result is `Induced(g, kept)`, with each neighbour list in the graph's order. `graph.subgraph(nodes_to_keep).copy()` (graph_dp_project/src/utils.py:58) rebuilds the lists edge by edge, so its order can differ: with edge lines "w a", "u v", "u w" and kept nodes {u, v, w}, the graph lists u's neighbours as v, w and the copy as w, v. The nodes and edges of the sample are as in the source; only the order of each list, which `local_triangles` reads when it keeps the first 50 neighbours, is not modelled.
- Model.NumPublic: `len(nodes) * public_fraction` is a floating-point product in the source; the model takes it as an exact real. So rounding can make them differ by one: 100 * 0.29 truncates to 29 in the model and to 28 in Python.
- `get_global_graph`, `experiment.py`, `plot_results.py` and `download_data.py` are not part of this model. They are orchestration, plotting and downloading.
- Numbers of nodes and sizes are unbounded integers, as Python's are.
