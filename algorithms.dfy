/** The estimators of graph_dp_project/src/algorithms.py: every node reports a
    statistic of its own visible subgraph, perturbed by the Laplace mechanism
    unless the node is public, and the reports are added up. */
module Algorithms {
  import opened Graphs
  import opened Errors
  import opened Counting
  import opened Model

  /** The degree cap of the clipped estimators (`D_max`). */
  const DMax: nat := 50

  function Min(a: int, b: int): int {
    if a <= b then a else b
  }

  function MaxReal(a: real, b: real): real {
    if a >= b then a else b
  }

  // ---------------------------------------------------------------------
  // Noise and the sum of noisy reports
  // ---------------------------------------------------------------------

  /** `laplace_mechanism(value, sensitivity, epsilon)`: `noise` is the draw
      numpy makes from the standard Laplace distribution (location 0, scale 1),
      stretched to scale sensitivity / epsilon. */
  function LaplaceMechanism(value: real, sensitivity: real, epsilon: real, noise: real): real
    requires epsilon > 0.0
  {
    value + noise * (sensitivity / epsilon)
  }

  /** What one node contributes: its true value when it is public, its
      perturbed value otherwise. */
  function Report(value: real, isPublic: bool, sensitivity: real, epsilon: real, noise: real): real
    requires epsilon > 0.0
  {
    if isPublic then value else LaplaceMechanism(value, sensitivity, epsilon, noise)
  }

  /** The average of `count` values whose sum is `sum`. */
  function Mean(sum: real, count: nat): real
    requires count > 0
  {
    sum / count as real
  }

  /** A sensitivity that does not depend on the node. */
  function Constant(c: real): (Adj, int) -> real {
    (view: Adj, node: int) => c
  }

  /** Every listed node is a node of the graph. */
  predicate AllNodesIn(g: Adj, nodes: seq<int>) {
    forall i | 0 <= i < |nodes| :: nodes[i] in g
  }

  /** The running total of the aggregation loops after the listed nodes have
      reported: the statistic `query` of each node's view, perturbed with the
      node's own sensitivity `sens` and its own draw `noise(node)`. */
  function NoisyTotal(g: Adj, policy: string, pub: set<int>, nodes: seq<int>,
                      query: (Adj, int) -> real, sens: (Adj, int) -> real,
                      epsilon: real, noise: int -> real): real
    requires ValidGraph(g) && AllNodesIn(g, nodes) && epsilon > 0.0
  {
    if nodes == [] then 0.0
    else
      var node := nodes[|nodes| - 1];
      var view := VisibleSubgraph(g, node, policy);
      NoisyTotal(g, policy, pub, nodes[..|nodes| - 1], query, sens, epsilon, noise)
        + Report(query(view, node), node in pub, sens(view, node), epsilon, noise(node))
  }

  /** The same total without noise: the exact local statistics added up. */
  function ExactTotal(g: Adj, policy: string, nodes: seq<int>, query: (Adj, int) -> real): real
    requires ValidGraph(g) && AllNodesIn(g, nodes)
  {
    if nodes == [] then 0.0
    else
      var node := nodes[|nodes| - 1];
      ExactTotal(g, policy, nodes[..|nodes| - 1], query) + query(VisibleSubgraph(g, node, policy), node)
  }

  /** The noise the private nodes add, each draw scaled by its node's sensitivity over epsilon. */
  function NoiseTotal(g: Adj, policy: string, pub: set<int>, nodes: seq<int>,
                      sens: (Adj, int) -> real, epsilon: real, noise: int -> real): real
    requires ValidGraph(g) && AllNodesIn(g, nodes) && epsilon > 0.0
  {
    if nodes == [] then 0.0
    else
      var node := nodes[|nodes| - 1];
      var view := VisibleSubgraph(g, node, policy);
      NoiseTotal(g, policy, pub, nodes[..|nodes| - 1], sens, epsilon, noise)
        + (if node in pub then 0.0 else noise(node) * (sens(view, node) / epsilon))
  }

  /** The sensitivities of the listed nodes, added up (for the average the
      instance-specific estimators report). */
  function SensitivitySum(g: Adj, policy: string, nodes: seq<int>, sens: (Adj, int) -> real): real
    requires ValidGraph(g) && AllNodesIn(g, nodes)
  {
    if nodes == [] then 0.0
    else
      var node := nodes[|nodes| - 1];
      SensitivitySum(g, policy, nodes[..|nodes| - 1], sens) + sens(VisibleSubgraph(g, node, policy), node)
  }

  /** One more node's report, added to the totals. */
  lemma TotalsStep(g: Adj, policy: string, pub: set<int>, nodes: seq<int>, i: nat,
                   query: (Adj, int) -> real, sens: (Adj, int) -> real, epsilon: real, noise: int -> real)
    requires ValidGraph(g) && AllNodesIn(g, nodes) && i < |nodes| && epsilon > 0.0
    ensures AllNodesIn(g, nodes[..i]) && AllNodesIn(g, nodes[..i + 1])
    ensures var node := nodes[i];
      var view := VisibleSubgraph(g, node, policy);
      && NoisyTotal(g, policy, pub, nodes[..i + 1], query, sens, epsilon, noise)
         == NoisyTotal(g, policy, pub, nodes[..i], query, sens, epsilon, noise)
            + Report(query(view, node), node in pub, sens(view, node), epsilon, noise(node))
      && SensitivitySum(g, policy, nodes[..i + 1], sens) == SensitivitySum(g, policy, nodes[..i], sens) + sens(view, node)
  {
    assert nodes[..i + 1][..i] == nodes[..i];
  }

  /** The noisy total is the exact total plus the scaled draws of the private
      nodes: with draws of mean zero the estimate is unbiased. */
  lemma {:induction false} NoisyTotalSplit(g: Adj, policy: string, pub: set<int>, nodes: seq<int>,
                                           query: (Adj, int) -> real, sens: (Adj, int) -> real,
                                           epsilon: real, noise: int -> real)
    requires ValidGraph(g) && AllNodesIn(g, nodes) && epsilon > 0.0
    ensures NoisyTotal(g, policy, pub, nodes, query, sens, epsilon, noise)
         == ExactTotal(g, policy, nodes, query) + NoiseTotal(g, policy, pub, nodes, sens, epsilon, noise)
  {
    if nodes != [] {
      NoisyTotalSplit(g, policy, pub, nodes[..|nodes| - 1], query, sens, epsilon, noise);
    }
  }

  /** When every node is public or draws zero noise, nothing is added. */
  lemma {:induction false} NoiseTotalZero(g: Adj, policy: string, pub: set<int>, nodes: seq<int>,
                                          sens: (Adj, int) -> real, epsilon: real, noise: int -> real)
    requires ValidGraph(g) && AllNodesIn(g, nodes) && epsilon > 0.0
    requires forall i | 0 <= i < |nodes| :: nodes[i] in pub || noise(nodes[i]) == 0.0
    ensures NoiseTotal(g, policy, pub, nodes, sens, epsilon, noise) == 0.0
  {
    if nodes != [] {
      NoiseTotalZero(g, policy, pub, nodes[..|nodes| - 1], sens, epsilon, noise);
    }
  }

  // ---------------------------------------------------------------------
  // Local statistics (the `query_func` closures)
  // ---------------------------------------------------------------------

  /** `local_degree`: the observer's degree in its view, 0 when it is absent. */
  function LocalDegree(view: Adj, node: int): real {
    Degree(view, node) as real
  }

  /** `local_k_star` (clip = the node is private) and `local_k_star_smooth`
      (clip = false): comb(d, k) for the observer's degree d in its view,
      capped at D_max when clipped, and 0 below k. */
  function LocalKStar(view: Adj, node: int, k: nat, clip: bool): real {
    var d := if clip then Min(Degree(view, node), DMax) else Degree(view, node);
    if d < k then 0.0 else Comb(d, k) as real
  }

  /** `local_k_star` as the closure passed to the aggregation. */
  function KStarQuery(k: nat, pub: set<int>): (Adj, int) -> real {
    (view: Adj, node: int) => LocalKStar(view, node, k, node !in pub)
  }

  /** `local_triangles` (clip = the node is private: only its first D_max
      neighbours) and `local_triangles_smooth` (clip = false): the adjacent
      pairs among the observer's neighbours in its view. */
  function LocalTriangles(view: Adj, node: int, clip: bool): real {
    if node !in view then 0.0
    else
      var nbrs := view[node];
      var kept := if clip then nbrs[..Min(|nbrs|, DMax)] else nbrs;
      ClosedPairs(view, kept) as real
  }

  function TriangleQuery(pub: set<int>): (Adj, int) -> real {
    (view: Adj, node: int) => LocalTriangles(view, node, node !in pub)
  }

  /** `local_k_star_smooth` as a closure: never clipped. */
  function KStarSmoothQuery(k: nat): (Adj, int) -> real {
    (view: Adj, node: int) => LocalKStar(view, node, k, false)
  }

  /** The instance-specific sensitivity of `k_star_count_smooth` for a node
      of degree d: comb(d, k - 1), 1 below k - 1, and never less than 1. */
  function KStarSmoothSens(d: nat, k: nat): real
    requires k >= 1
  {
    var localSens := if d < k - 1 then 1.0 else Comb(d, k - 1) as real;
    MaxReal(1.0, localSens)
  }

  function KStarSmoothSensitivity(k: nat): (Adj, int) -> real
    requires k >= 1
  {
    (view: Adj, node: int) => KStarSmoothSens(Degree(view, node), k)
  }

  /** `local_triangles_smooth` as a closure: never clipped. */
  function TriangleSmoothQuery(): (Adj, int) -> real {
    (view: Adj, node: int) => LocalTriangles(view, node, false)
  }

  /** The largest number of entries of `nbrs` adjacent to one of `vs`: the
      `max_common` of `triangle_count_smooth`, 0 when `vs` is empty. */
  function MaxCommonOf(view: Adj, vs: seq<int>, nbrs: seq<int>): nat {
    if vs == [] then 0
    else
      var best := MaxCommonOf(view, vs[..|vs| - 1], nbrs);
      var common := RowCount(view, vs[|vs| - 1], nbrs);
      if common > best then common else best
  }

  /** `MaxCommonOf` is the maximum: at least every count, and 0 or one of them. */
  lemma {:induction false} MaxCommonOfSpec(view: Adj, vs: seq<int>, nbrs: seq<int>)
    ensures var r := MaxCommonOf(view, vs, nbrs);
      && (forall i | 0 <= i < |vs| :: RowCount(view, vs[i], nbrs) <= r)
      && (r == 0 || exists i | 0 <= i < |vs| :: r == RowCount(view, vs[i], nbrs))
  {
    if vs != [] {
      var p := vs[..|vs| - 1];
      MaxCommonOfSpec(view, p, nbrs);
      forall i | 0 <= i < |vs| - 1
        ensures vs[i] == p[i]
      {
      }
      var r := MaxCommonOf(view, vs, nbrs);
      if r != 0 && r != RowCount(view, vs[|vs| - 1], nbrs) {
        var j :| 0 <= j < |p| && r == RowCount(view, p[j], nbrs);
        assert r == RowCount(view, vs[j], nbrs);
      }
    }
  }

  /** The instance-specific sensitivity of `triangle_count_smooth`: the
      largest number of neighbours a neighbour of the node is adjacent to,
      1 for a node without neighbours, and never less than 1. */
  function TriangleSmoothSens(view: Adj, node: int): real {
    if node !in view then 1.0
    else
      var nbrs := view[node];
      var localSens := if nbrs == [] then 1.0 else MaxCommonOf(view, nbrs, nbrs) as real;
      MaxReal(1.0, localSens)
  }

  function TriangleSmoothSensitivity(): (Adj, int) -> real {
    (view: Adj, node: int) => TriangleSmoothSens(view, node)
  }

  /** Whether a node is a node of its own view, so that `subgraph.neighbors(node)`
      does not raise: always under "2-hop", under "1-hop" exactly when the node
      has a neighbour, and never under any other policy (`InOwnView`). */
  predicate SeesItself(g: Adj, policy: string, node: int)
    requires node in g
  {
    policy == TwoHop || (policy == OneHop && g[node] != [])
  }

  /** Every listed node is a node of its own view. */
  predicate AllSeen(g: Adj, policy: string, nodes: seq<int>)
    requires AllNodesIn(g, nodes)
  {
    forall i | 0 <= i < |nodes| :: SeesItself(g, policy, nodes[i])
  }

  /** One more node seen extends a prefix of seen nodes; one node unseen spoils the whole list. */
  lemma AllSeenStep(g: Adj, policy: string, nodes: seq<int>, i: nat)
    requires AllNodesIn(g, nodes) && i < |nodes|
    requires AllNodesIn(g, nodes[..i]) && AllNodesIn(g, nodes[..i + 1])
    ensures AllSeen(g, policy, nodes[..i]) && SeesItself(g, policy, nodes[i]) ==> AllSeen(g, policy, nodes[..i + 1])
    ensures !SeesItself(g, policy, nodes[i]) ==> !AllSeen(g, policy, nodes)
  {
    if AllSeen(g, policy, nodes[..i]) && SeesItself(g, policy, nodes[i]) {
      var p := nodes[..i + 1];
      forall j | 0 <= j < |p|
        ensures SeesItself(g, policy, p[j])
      {
        if j < i {
          assert p[j] == nodes[..i][j];
        }
      }
    }
  }

  /** One node of the `triangle_count_smooth` loop keeps the running totals
      equal to their definitions, or shows that some node is not in its view. */
  lemma SmoothTriangleStep(g: Adj, policy: string, pub: set<int>, nodes: seq<int>, i: nat,
                           epsilon: real, noise: int -> real,
                           total: real, sensSum: real, seen: bool, noisyVal: real, localSens: real)
    requires ValidGraph(g) && AllNodesIn(g, nodes) && i < |nodes| && epsilon > 0.0
    requires AllNodesIn(g, nodes[..i]) && AllSeen(g, policy, nodes[..i])
    requires total == NoisyTotal(g, policy, pub, nodes[..i], TriangleSmoothQuery(), TriangleSmoothSensitivity(), epsilon, noise)
    requires sensSum == SensitivitySum(g, policy, nodes[..i], TriangleSmoothSensitivity())
    requires var view := VisibleSubgraph(g, nodes[i], policy);
      && seen == SeesItself(g, policy, nodes[i])
      && (seen ==> localSens == TriangleSmoothSensitivity()(view, nodes[i]))
      && (seen ==> noisyVal == Report(TriangleSmoothQuery()(view, nodes[i]), nodes[i] in pub, localSens, epsilon, noise(nodes[i])))
    ensures AllNodesIn(g, nodes[..i + 1])
    ensures !seen ==> !AllSeen(g, policy, nodes)
    ensures seen ==> AllSeen(g, policy, nodes[..i + 1])
    ensures seen ==> total + noisyVal == NoisyTotal(g, policy, pub, nodes[..i + 1], TriangleSmoothQuery(), TriangleSmoothSensitivity(), epsilon, noise)
    ensures seen ==> sensSum + localSens == SensitivitySum(g, policy, nodes[..i + 1], TriangleSmoothSensitivity())
  {
    AllSeenStep(g, policy, nodes, i);
    TotalsStep(g, policy, pub, nodes, i, TriangleSmoothQuery(), TriangleSmoothSensitivity(), epsilon, noise);
  }

  /** The double loop of `local_triangles`: for each i and each j > i, count
      the pairs of entries adjacent in `view`. */
  method CountClosedPairs(view: Adj, nbrs: seq<int>) returns (triCount: nat)
    ensures triCount == ClosedPairs(view, nbrs)
  {
    triCount := 0;
    for i := 0 to |nbrs|
      invariant triCount + ClosedPairs(view, nbrs[i..]) == ClosedPairs(view, nbrs)
    {
      ghost var before := triCount;
      for j := i + 1 to |nbrs|
        invariant triCount == before + RowCount(view, nbrs[i], nbrs[i + 1..j])
      {
        var u := nbrs[i];
        var v := nbrs[j];
        assert nbrs[i + 1..j + 1][..j - i - 1] == nbrs[i + 1..j];
        if HasEdge(view, u, v) {
          triCount := triCount + 1;
        }
      }
      assert nbrs[i..][1..] == nbrs[i + 1..];
      assert nbrs[i + 1..|nbrs|] == nbrs[i + 1..];
    }
  }

  /** The sensitivity loops of `triangle_count_smooth`: for each neighbour
      v, count the neighbours adjacent to v, and keep the largest count. */
  method MaxCommon(view: Adj, nbrs: seq<int>) returns (maxCommon: nat)
    ensures maxCommon == MaxCommonOf(view, nbrs, nbrs)
  {
    maxCommon := 0;
    for i := 0 to |nbrs|
      invariant maxCommon == MaxCommonOf(view, nbrs[..i], nbrs)
    {
      var v := nbrs[i];
      var common := 0;
      for j := 0 to |nbrs|
        invariant common == RowCount(view, v, nbrs[..j])
      {
        var w := nbrs[j];
        assert nbrs[..j + 1][..j] == nbrs[..j];
        if HasEdge(view, v, w) {
          common := common + 1;
        }
      }
      assert nbrs[..|nbrs|] == nbrs;
      assert nbrs[..i + 1][..i] == nbrs[..i];
      if common > maxCommon {
        maxCommon := common;
      }
    }
    assert nbrs[..|nbrs|] == nbrs;
  }

  /** The per-node work of `triangle_count_smooth` for a node of its view:
      the local triangle count and the instance-specific sensitivity. */
  method SmoothTriangleReport(subgraph: Adj, node: int) returns (trueVal: real, localSens: real)
    requires node in subgraph
    ensures trueVal == LocalTriangles(subgraph, node, false)
    ensures localSens == TriangleSmoothSens(subgraph, node)
  {
    var triCount := CountClosedPairs(subgraph, subgraph[node]);
    trueVal := triCount as real;
    var neighbors := subgraph[node];
    if neighbors == [] {
      localSens := 1.0;
    } else {
      var maxCommon := MaxCommon(subgraph, neighbors);
      localSens := maxCommon as real;
    }
    localSens := MaxReal(1.0, localSens);
  }

  // ---------------------------------------------------------------------
  // Degree histogram
  // ---------------------------------------------------------------------

  /** A node's degree in its view, capped at `maxDegree` (`min(true_d, max_degree)`). */
  function ClippedDegree(view: Adj, node: int, maxDegree: int): real {
    Min(Degree(view, node), maxDegree) as real
  }

  /** The list `noisy_degrees` of `degree_histogram`: each node's clipped
      degree, perturbed with sensitivity 1 unless the node is public. */
  function NoisyDegrees(g: Adj, policy: string, pub: set<int>, nodes: seq<int>,
                        maxDegree: int, epsilon: real, noise: int -> real): (r: seq<real>)
    requires ValidGraph(g) && AllNodesIn(g, nodes) && epsilon > 0.0
    ensures |r| == |nodes|
  {
    if nodes == [] then []
    else
      var node := nodes[|nodes| - 1];
      var view := VisibleSubgraph(g, node, policy);
      NoisyDegrees(g, policy, pub, nodes[..|nodes| - 1], maxDegree, epsilon, noise)
        + [Report(ClippedDegree(view, node, maxDegree), node in pub, 1.0, epsilon, noise(node))]
  }

  /** One more node's report, appended to the list. */
  lemma NoisyDegreesStep(g: Adj, policy: string, pub: set<int>, nodes: seq<int>, i: nat,
                         maxDegree: int, epsilon: real, noise: int -> real)
    requires ValidGraph(g) && AllNodesIn(g, nodes) && i < |nodes| && epsilon > 0.0
    ensures AllNodesIn(g, nodes[..i]) && AllNodesIn(g, nodes[..i + 1])
    ensures var node := nodes[i];
      var view := VisibleSubgraph(g, node, policy);
      NoisyDegrees(g, policy, pub, nodes[..i + 1], maxDegree, epsilon, noise)
        == NoisyDegrees(g, policy, pub, nodes[..i], maxDegree, epsilon, noise)
           + [Report(ClippedDegree(view, node, maxDegree), node in pub, 1.0, epsilon, noise(node))]
  {
    assert nodes[..i + 1][..i] == nodes[..i];
  }

  /** The bin numpy's `histogram` with edges 0, 1, ..., M + 1 puts `x` in:
      bin b holds [b, b + 1), except the last, M, which also holds M + 1;
      -1 for a value outside [0, M + 1], which no bin counts. */
  function BinOf(x: real, M: nat): (b: int)
    ensures -1 <= b <= M
    ensures b == -1 <==> x < 0.0 || x > (M + 1) as real
    ensures b >= 0 ==> b as real <= x && (x < (b + 1) as real || (b == M && x == (M + 1) as real))
  {
    if x < 0.0 || x > (M + 1) as real then -1
    else if x == (M + 1) as real then M
    else x.Floor
  }

  /** `np.histogram(values, bins=range(M + 2))[0]`: M + 1 counts. */
  function Histogram(values: seq<real>, M: nat): (h: seq<nat>)
    ensures |h| == M + 1
  {
    if values == [] then seq(M + 1, _ => 0)
    else
      var h := Histogram(values[..|values| - 1], M);
      var b := BinOf(values[|values| - 1], M);
      if b >= 0 then h[b := h[b] + 1] else h
  }

  /** The positions of the values that fall in bin `b`. */
  ghost function BinMembers(values: seq<real>, M: nat, b: int): set<int> {
    set i | 0 <= i < |values| && BinOf(values[i], M) == b
  }

  /** The positions of the values some bin counts. */
  ghost function InRange(values: seq<real>, M: nat): set<int> {
    set i | 0 <= i < |values| && BinOf(values[i], M) >= 0
  }

  function SumNat(s: seq<nat>): nat {
    if s == [] then 0 else SumNat(s[..|s| - 1]) + s[|s| - 1]
  }

  /** The histogram counts, in bin b, the values that fall in bin b. */
  lemma {:induction false} HistogramCounts(values: seq<real>, M: nat)
    ensures forall b | 0 <= b <= M :: Histogram(values, M)[b] == |BinMembers(values, M, b)|
  {
    if values != [] {
      var n := |values| - 1;
      var p := values[..n];
      HistogramCounts(p, M);
      forall b | 0 <= b <= M
        ensures Histogram(values, M)[b] == |BinMembers(values, M, b)|
      {
        assert forall i | 0 <= i < n :: values[i] == p[i];
        if BinOf(values[n], M) == b {
          assert BinMembers(values, M, b) == BinMembers(p, M, b) + {n};
        } else {
          assert BinMembers(values, M, b) == BinMembers(p, M, b);
        }
      }
    }
  }

  /** The histogram's counts add up to the number of values inside [0, M + 1]. */
  lemma {:induction false} HistogramTotal(values: seq<real>, M: nat)
    ensures SumNat(Histogram(values, M)) == |InRange(values, M)|
  {
    if values == [] {
      SumNatZeros(M + 1);
    } else {
      var n := |values| - 1;
      var p := values[..n];
      HistogramTotal(p, M);
      InRangeStep(values, M);
      var b := BinOf(values[n], M);
      var h := Histogram(p, M);
      if b >= 0 {
        assert Histogram(values, M) == h[b := h[b] + 1];
        SumNatIncrement(h, b);
      } else {
        assert Histogram(values, M) == h;
      }
    }
  }

  /** The last value adds one to the number of counted positions exactly when some bin holds it. */
  lemma InRangeStep(values: seq<real>, M: nat)
    requires values != []
    ensures var n := |values| - 1;
      |InRange(values, M)| == |InRange(values[..n], M)| + (if BinOf(values[n], M) >= 0 then 1 else 0)
  {
    var n := |values| - 1;
    assert forall i | 0 <= i < n :: values[i] == values[..n][i];
    assert n !in InRange(values[..n], M);
    assert InRange(values, M) == InRange(values[..n], M) + (if BinOf(values[n], M) >= 0 then {n} else {});
  }

  lemma {:induction false} SumNatZeros(n: nat)
    ensures SumNat(seq(n, _ => 0)) == 0
  {
    if n > 0 {
      assert seq(n, _ => 0)[..n - 1] == seq(n - 1, _ => 0);
      SumNatZeros(n - 1);
    }
  }

  /** One more in one bin adds one to the total. */
  lemma {:induction false} SumNatIncrement(h: seq<nat>, b: nat)
    requires b < |h|
    ensures SumNat(h[b := h[b] + 1]) == SumNat(h) + 1
  {
    var n := |h| - 1;
    if b < n {
      assert h[b := h[b] + 1][..n] == h[..n][b := h[b] + 1];
      SumNatIncrement(h[..n], b);
    } else {
      assert h[b := h[b] + 1][..n] == h[..n];
    }
  }

  // ---------------------------------------------------------------------
  // The estimators
  // ---------------------------------------------------------------------

  /** The estimators over one graph and one visibility policy. */
  class GraphDPAlgorithms {
    const graph: SocialGraph
    const oracle: VisibilityOracle

    constructor (graph: SocialGraph, oracle: VisibilityOracle)
      ensures this.graph == graph && this.oracle == oracle
    {
      this.graph := graph;
      this.oracle := oracle;
    }

    /** `_aggregate_local_queries`: the sum, over the nodes in graph order,
        of each node's report of `query` on its view, with the same
        sensitivity for every node. */
    method AggregateLocalQueries(query: (Adj, int) -> real, epsilon: real, sensitivity: real, noise: int -> real)
      returns (total: real)
      requires graph.Valid() && epsilon > 0.0
      ensures AllNodesIn(graph.graph, graph.nodes)
      ensures total == NoisyTotal(graph.graph, oracle.policy, graph.publicNodes, graph.nodes,
                                  query, Constant(sensitivity), epsilon, noise)
    {
      var nodes := graph.nodes;
      total := 0.0;
      for i := 0 to |nodes|
        invariant AllNodesIn(graph.graph, nodes[..i])
        invariant total == NoisyTotal(graph.graph, oracle.policy, graph.publicNodes, nodes[..i],
                                      query, Constant(sensitivity), epsilon, noise)
      {
        var node := nodes[i];
        assert node in graph.graph;
        var r := graph.GetVisibleSubgraph(node, oracle);
        var subgraph := r.value;
        var trueVal := query(subgraph, node);
        var noisyVal: real;
        if graph.IsPublic(node) {
          noisyVal := trueVal;
        } else {
          noisyVal := LaplaceMechanism(trueVal, sensitivity, epsilon, noise(node));
        }
        total := total + noisyVal;
        assert nodes[..i + 1][..i] == nodes[..i];
      }
      assert nodes[..|nodes|] == nodes;
    }

    /** `edge_count`: half the noisy degree total, with sensitivity 1. */
    method EdgeCount(epsilon: real, noise: int -> real) returns (estimate: real, sensitivity: real)
      requires graph.Valid() && epsilon > 0.0
      ensures AllNodesIn(graph.graph, graph.nodes)
      ensures sensitivity == 1.0
      ensures estimate == NoisyTotal(graph.graph, oracle.policy, graph.publicNodes, graph.nodes,
                                     LocalDegree, Constant(1.0), epsilon, noise) / 2.0
    {
      sensitivity := 1.0;
      var totalDegreeNoisy := AggregateLocalQueries(LocalDegree, epsilon, sensitivity, noise);
      estimate := totalDegreeNoisy / 2.0;
    }

    /** `degree_histogram`: the histogram, over the bins 0..max_degree, of
        the nodes' clipped degrees, each perturbed with sensitivity 1 unless
        the node is public. A negative max_degree leaves `range(max_degree + 2)`
        fewer than two bin edges, and numpy's histogram then has no bin. */
    method DegreeHistogram(epsilon: real, maxDegree: int, noise: int -> real) returns (hist: seq<nat>, sensitivity: real)
      requires graph.Valid() && epsilon > 0.0
      ensures AllNodesIn(graph.graph, graph.nodes)
      ensures sensitivity == 1.0
      ensures maxDegree >= 0 ==>
        hist == Histogram(NoisyDegrees(graph.graph, oracle.policy, graph.publicNodes, graph.nodes,
                                       maxDegree, epsilon, noise), maxDegree)
      ensures maxDegree < 0 ==> hist == []
    {
      sensitivity := 1.0;
      var noisyDegrees: seq<real> := [];
      var nodes := graph.nodes;
      for i := 0 to |nodes|
        invariant AllNodesIn(graph.graph, nodes[..i])
        invariant noisyDegrees == NoisyDegrees(graph.graph, oracle.policy, graph.publicNodes, nodes[..i],
                                               maxDegree, epsilon, noise)
      {
        var node := nodes[i];
        assert node in graph.graph;
        var r := graph.GetVisibleSubgraph(node, oracle);
        var subgraph := r.value;
        var trueD := if node in subgraph then |subgraph[node]| else 0;
        trueD := Min(trueD, maxDegree);
        var noisyD: real;
        if graph.IsPublic(node) {
          noisyD := trueD as real;
        } else {
          noisyD := LaplaceMechanism(trueD as real, sensitivity, epsilon, noise(node));
        }
        NoisyDegreesStep(graph.graph, oracle.policy, graph.publicNodes, nodes, i, maxDegree, epsilon, noise);
        noisyDegrees := noisyDegrees + [noisyD];
      }
      assert nodes[..|nodes|] == nodes;
      if maxDegree < 0 {
        // Fewer than two bin edges: numpy returns no counts.
        hist := [];
      } else {
        hist := Histogram(noisyDegrees, maxDegree);
      }
    }

    /** `k_star_count`: the noisy total of the clipped local k-star counts,
        with sensitivity comb(D_max - 1, k - 1); math.comb raises for k < 1. */
    method KStarCount(k: int, epsilon: real, noise: int -> real) returns (r: Result<(real, real)>)
      requires graph.Valid() && epsilon > 0.0
      ensures AllNodesIn(graph.graph, graph.nodes)
      ensures k < 1 ==> r == Err(InvalidArgument)
      ensures k >= 1 ==>
        var sensitivity := Comb(DMax - 1, k - 1) as real;
        r == Ok((NoisyTotal(graph.graph, oracle.policy, graph.publicNodes, graph.nodes,
                            KStarQuery(k, graph.publicNodes), Constant(sensitivity), epsilon, noise),
                 sensitivity))
    {
      assert AllNodesIn(graph.graph, graph.nodes);
      if k < 1 {
        return Err(InvalidArgument);
      }
      var sensitivity := Comb(DMax - 1, k - 1) as real;
      var totalKStars := AggregateLocalQueries(KStarQuery(k, graph.publicNodes), epsilon, sensitivity, noise);
      r := Ok((totalKStars, sensitivity));
    }

    /** `k_star_count_smooth`: every node reports its unclipped local k-star
        count with its own sensitivity; the second value is the average
        sensitivity. math.comb raises at the first node when k < 1, and the
        average divides by zero on an empty graph. */
    method KStarCountSmooth(k: int, epsilon: real, noise: int -> real) returns (r: Result<(real, real)>)
      requires graph.Valid() && epsilon > 0.0
      ensures AllNodesIn(graph.graph, graph.nodes)
      ensures graph.nodes == [] ==> r == Err(EmptyGraph)
      ensures graph.nodes != [] && k < 1 ==> r == Err(InvalidArgument)
      ensures graph.nodes != [] && k >= 1 ==>
        r == Ok((NoisyTotal(graph.graph, oracle.policy, graph.publicNodes, graph.nodes,
                            KStarSmoothQuery(k), KStarSmoothSensitivity(k), epsilon, noise),
                 Mean(SensitivitySum(graph.graph, oracle.policy, graph.nodes, KStarSmoothSensitivity(k)), |graph.nodes|)))
    {
      var nodes := graph.nodes;
      if |nodes| == 0 {
        // The loop does not run; the average then divides by zero.
        return Err(EmptyGraph);
      }
      if k < 1 {
        // math.comb raises at the first node.
        return Err(InvalidArgument);
      }
      var totalEstimate := 0.0;
      var avgSensitivity := 0.0;
      for i := 0 to |nodes|
        invariant AllNodesIn(graph.graph, nodes[..i])
        invariant totalEstimate == NoisyTotal(graph.graph, oracle.policy, graph.publicNodes, nodes[..i],
                                              KStarSmoothQuery(k), KStarSmoothSensitivity(k), epsilon, noise)
        invariant avgSensitivity == SensitivitySum(graph.graph, oracle.policy, nodes[..i], KStarSmoothSensitivity(k))
      {
        var node := nodes[i];
        assert node in graph.graph;
        var res := graph.GetVisibleSubgraph(node, oracle);
        var subgraph := res.value;
        var trueVal := LocalKStar(subgraph, node, k, false);
        var d := Degree(subgraph, node);
        var localSens: real;
        if d < k - 1 {
          localSens := 1.0;
        } else {
          localSens := Comb(d, k - 1) as real;
        }
        localSens := MaxReal(1.0, localSens);
        avgSensitivity := avgSensitivity + localSens;
        var noisyVal: real;
        if graph.IsPublic(node) {
          noisyVal := trueVal;
        } else {
          noisyVal := LaplaceMechanism(trueVal, localSens, epsilon, noise(node));
        }
        totalEstimate := totalEstimate + noisyVal;
        TotalsStep(graph.graph, oracle.policy, graph.publicNodes, nodes, i,
                   KStarSmoothQuery(k), KStarSmoothSensitivity(k), epsilon, noise);
      }
      assert nodes[..|nodes|] == nodes;
      r := Ok((totalEstimate, Mean(avgSensitivity, |nodes|)));
    }

    /** One node of the `triangle_count_smooth` loop: its view, its local
        triangle count and sensitivity, and its report; `seen` is false where
        `subgraph.neighbors(node)` raises because the node is not in its own view. */
    method SmoothTriangleNode(node: int, epsilon: real, noise: int -> real)
      returns (seen: bool, noisyVal: real, localSens: real)
      requires graph.Valid() && node in graph.graph && epsilon > 0.0
      ensures var view := VisibleSubgraph(graph.graph, node, oracle.policy);
        && seen == SeesItself(graph.graph, oracle.policy, node)
        && (seen ==> localSens == TriangleSmoothSensitivity()(view, node))
        && (seen ==> noisyVal == Report(TriangleSmoothQuery()(view, node), node in graph.publicNodes,
                                        localSens, epsilon, noise(node)))
    {
      var res := graph.GetVisibleSubgraph(node, oracle);
      var subgraph := res.value;
      InOwnView(graph.graph, oracle.policy, node);
      if node !in subgraph {
        return false, 0.0, 1.0;
      }
      seen := true;
      var trueVal;
      trueVal, localSens := SmoothTriangleReport(subgraph, node);
      if graph.IsPublic(node) {
        noisyVal := trueVal;
      } else {
        noisyVal := LaplaceMechanism(trueVal, localSens, epsilon, noise(node));
      }
    }

    /** The loop of `triangle_count_smooth`: the running noisy total and
        sensitivity sum, stopped by the first node that is not in its view. */
    method SmoothTriangleTotals(epsilon: real, noise: int -> real) returns (seenAll: bool, total: real, sensSum: real)
      requires graph.Valid() && epsilon > 0.0
      ensures AllNodesIn(graph.graph, graph.nodes)
      ensures seenAll == AllSeen(graph.graph, oracle.policy, graph.nodes)
      ensures seenAll ==> total == NoisyTotal(graph.graph, oracle.policy, graph.publicNodes, graph.nodes,
                                              TriangleSmoothQuery(), TriangleSmoothSensitivity(), epsilon, noise)
      ensures seenAll ==> sensSum == SensitivitySum(graph.graph, oracle.policy, graph.nodes, TriangleSmoothSensitivity())
    {
      var nodes := graph.nodes;
      total, sensSum := 0.0, 0.0;
      for i := 0 to |nodes|
        invariant AllNodesIn(graph.graph, nodes[..i])
        invariant AllSeen(graph.graph, oracle.policy, nodes[..i])
        invariant total == NoisyTotal(graph.graph, oracle.policy, graph.publicNodes, nodes[..i],
                                      TriangleSmoothQuery(), TriangleSmoothSensitivity(), epsilon, noise)
        invariant sensSum == SensitivitySum(graph.graph, oracle.policy, nodes[..i], TriangleSmoothSensitivity())
      {
        var node := nodes[i];
        assert node in graph.graph;
        var seen, noisyVal, localSens := SmoothTriangleNode(node, epsilon, noise);
        SmoothTriangleStep(graph.graph, oracle.policy, graph.publicNodes, nodes, i, epsilon, noise,
                           total, sensSum, seen, noisyVal, localSens);
        if !seen {
          return false, total, sensSum;
        }
        total := total + noisyVal;
        sensSum := sensSum + localSens;
      }
      assert nodes[..|nodes|] == nodes;
      seenAll := true;
    }

    /** `triangle_count_smooth`: every node reports its unclipped local
        triangle count with its own sensitivity; the estimate is a third of the
        total (each triangle is seen from three corners), the second value the
        average sensitivity. networkx raises for a node missing from its own
        view, and the average divides by zero on an empty graph. */
    method TriangleCountSmooth(epsilon: real, noise: int -> real) returns (r: Result<(real, real)>)
      requires graph.Valid() && epsilon > 0.0
      ensures AllNodesIn(graph.graph, graph.nodes)
      ensures graph.nodes == [] ==> r == Err(EmptyGraph)
      ensures graph.nodes != [] && !AllSeen(graph.graph, oracle.policy, graph.nodes) ==> r == Err(NodeNotFound)
      ensures graph.nodes != [] && AllSeen(graph.graph, oracle.policy, graph.nodes) ==>
        r == Ok((NoisyTotal(graph.graph, oracle.policy, graph.publicNodes, graph.nodes,
                            TriangleSmoothQuery(), TriangleSmoothSensitivity(), epsilon, noise) / 3.0,
                 Mean(SensitivitySum(graph.graph, oracle.policy, graph.nodes, TriangleSmoothSensitivity()), |graph.nodes|)))
    {
      var seenAll, total, sensSum := SmoothTriangleTotals(epsilon, noise);
      if graph.nodes == [] {
        return Err(EmptyGraph);
      }
      if !seenAll {
        return Err(NodeNotFound);
      }
      r := Ok((total / 3.0, Mean(sensSum, |graph.nodes|)));
    }

    /** `triangle_count`: a third of the noisy total of the clipped local
        triangle counts, with sensitivity D_max. */
    method TriangleCount(epsilon: real, noise: int -> real) returns (estimate: real, sensitivity: real)
      requires graph.Valid() && epsilon > 0.0
      ensures AllNodesIn(graph.graph, graph.nodes)
      ensures sensitivity == DMax as real
      ensures estimate == NoisyTotal(graph.graph, oracle.policy, graph.publicNodes, graph.nodes,
                                     TriangleQuery(graph.publicNodes), Constant(DMax as real), epsilon, noise) / 3.0
    {
      sensitivity := DMax as real;
      var totalTriangles := AggregateLocalQueries(TriangleQuery(graph.publicNodes), epsilon, sensitivity, noise);
      estimate := totalTriangles / 3.0;
    }
  }

  // ---------------------------------------------------------------------
  // What the estimators estimate
  // ---------------------------------------------------------------------

  /** Under "1-hop" and "2-hop" each node sees its whole degree, so the exact
      degree total is the degree sum of the graph: twice its edge count. */
  lemma {:induction false} DegreeTotalExact(g: Adj, policy: string, nodes: seq<int>)
    requires ValidGraph(g) && AllNodesIn(g, nodes) && (policy == OneHop || policy == TwoHop)
    ensures ExactTotal(g, policy, nodes, LocalDegree) == DegreeSum(g, nodes) as real
  {
    if nodes != [] {
      var node := nodes[|nodes| - 1];
      DegreeTotalExact(g, policy, nodes[..|nodes| - 1]);
      ObserverNeighbourhood(g, node, policy);
    }
  }

  /** Under any other policy ("global" included) every view is empty, so a
      statistic that is 0 on the empty view totals 0. */
  lemma {:induction false} OtherPolicyTotalZero(g: Adj, policy: string, nodes: seq<int>, query: (Adj, int) -> real)
    requires ValidGraph(g) && AllNodesIn(g, nodes) && policy != OneHop && policy != TwoHop
    requires forall node :: query(map[], node) == 0.0
    ensures ExactTotal(g, policy, nodes, query) == 0.0
  {
    if nodes != [] {
      OtherPolicyTotalZero(g, policy, nodes[..|nodes| - 1], query);
    }
  }

  /** The edge estimate is the number of edges of the graph plus the scaled
      noise of the private nodes, under "1-hop" and "2-hop". */
  lemma EdgeEstimateMeaning(g: Adj, policy: string, pub: set<int>, nodes: seq<int>, epsilon: real, noise: int -> real)
    requires ValidGraph(g) && NoDup(nodes) && (forall x :: x in nodes <==> x in g)
    requires epsilon > 0.0 && (policy == OneHop || policy == TwoHop)
    ensures AllNodesIn(g, nodes)
    ensures NoisyTotal(g, policy, pub, nodes, LocalDegree, Constant(1.0), epsilon, noise) / 2.0
         == |Edges(g)| as real + NoiseTotal(g, policy, pub, nodes, Constant(1.0), epsilon, noise) / 2.0
  {
    assert AllNodesIn(g, nodes) by {
      forall i | 0 <= i < |nodes| ensures nodes[i] in g {
        var x := nodes[i];
        assert x in nodes;
      }
    }
    NoisyTotalSplit(g, policy, pub, nodes, LocalDegree, Constant(1.0), epsilon, noise);
    DegreeTotalExact(g, policy, nodes);
    Handshake(g, nodes);
  }

  /** The local k-star count is the number of k-stars centred at the node in
      its view: the ways to pick k of its neighbours (the `d < k` guard only
      repeats comb(d, k) = 0). */
  lemma LocalKStarCountsStars(view: Adj, node: int, k: nat)
    requires ValidGraph(view) && node in view
    ensures LocalKStar(view, node, k, false) == |KSubsets(Elems(view[node]), k)| as real
  {
    KSubsetsCard(Elems(view[node]), k);
    CardElems(view[node]);
    if |view[node]| < k {
      CombAboveN(|view[node]|, k);
    }
  }

  /** Clipping never raises a private node's count, and caps it at comb(D_max, k). */
  lemma KStarClipBounds(view: Adj, node: int, k: nat)
    ensures LocalKStar(view, node, k, true) <= LocalKStar(view, node, k, false)
    ensures LocalKStar(view, node, k, true) <= Comb(DMax, k) as real
  {
    var d := Degree(view, node);
    var c := Min(d, DMax);
    CombMonotone(c, d, k);
    CombMonotone(c, DMax, k);
    if c >= k {
      CombPositive(d, k);
    }
  }

  /** Pascal's rule read as a difference: one more neighbour adds comb(d, k - 1) k-stars. */
  lemma CombStep(d: nat, k: nat)
    requires k >= 1
    ensures Comb(d + 1, k) == Comb(d, k) + Comb(d, k - 1)
  {
  }

  /** The global sensitivity of `k_star_count`: one more neighbour changes a
      private node's clipped k-star count by at most comb(D_max - 1, k - 1). */
  lemma KStarGlobalSensitivity(d: nat, k: nat)
    requires k >= 1
    ensures 0 <= Comb(Min(d + 1, DMax), k) - Comb(Min(d, DMax), k) <= Comb(DMax - 1, k - 1)
  {
    if d < DMax {
      CombStep(d, k);
      CombMonotone(d, DMax - 1, k - 1);
    }
  }

  /** The instance-specific sensitivity of `k_star_count_smooth` bounds the
      change one more neighbour makes to the node's unclipped count, and is at least 1. */
  lemma KStarSmoothSensitivityBound(d: nat, k: nat)
    requires k >= 1
    ensures 0 <= Comb(d + 1, k) - Comb(d, k) && (Comb(d + 1, k) - Comb(d, k)) as real <= KStarSmoothSens(d, k)
    ensures KStarSmoothSens(d, k) >= 1.0
  {
    CombStep(d, k);
    if d < k - 1 {
      CombAboveN(d, k - 1);
    }
  }

  /** Under "1-hop" and "2-hop" the exact unclipped k-star total is the sum of
      comb(degree, k) over the nodes of the graph. */
  lemma {:induction false} KStarTotalExact(g: Adj, policy: string, nodes: seq<int>, k: nat)
    requires ValidGraph(g) && AllNodesIn(g, nodes) && (policy == OneHop || policy == TwoHop)
    ensures ExactTotal(g, policy, nodes, KStarSmoothQuery(k)) == KStarSum(g, nodes, k) as real
  {
    if nodes != [] {
      var node := nodes[|nodes| - 1];
      KStarTotalExact(g, policy, nodes[..|nodes| - 1], k);
      ObserverNeighbourhood(g, node, policy);
      if Degree(g, node) < k {
        CombAboveN(Degree(g, node), k);
      }
    }
  }

  /** comb(degree, k) added over the listed nodes. */
  function KStarSum(g: Adj, nodes: seq<int>, k: nat): nat {
    if nodes == [] then 0 else KStarSum(g, nodes[..|nodes| - 1], k) + Comb(Degree(g, nodes[|nodes| - 1]), k)
  }

  /** Under "1-hop" and "2-hop" the exact unclipped triangle total is the sum
      of the local triangle counts of the graph itself: a node the 1-hop view
      leaves out has no neighbours and so no triangles. */
  lemma {:induction false} TriangleSmoothTotalExact(g: Adj, policy: string, nodes: seq<int>)
    requires ValidGraph(g) && AllNodesIn(g, nodes) && (policy == OneHop || policy == TwoHop)
    ensures ExactTotal(g, policy, nodes, TriangleSmoothQuery()) == TriangleSum(g, nodes) as real
  {
    if nodes != [] {
      var node := nodes[|nodes| - 1];
      TriangleSmoothTotalExact(g, policy, nodes[..|nodes| - 1]);
      ObserverNeighbourhood(g, node, policy);
      var view := VisibleSubgraph(g, node, policy);
      if node in view {
        ClosedPairsAgree(view, g, g[node]);
      }
    }
  }

  /** The smooth triangle estimate is the number of triangles of the graph
      plus a third of the scaled noise of the private nodes. */
  lemma TriangleSmoothEstimateMeaning(g: Adj, policy: string, pub: set<int>, nodes: seq<int>,
                                      epsilon: real, noise: int -> real)
    requires ValidGraph(g) && NoDup(nodes) && (forall x :: x in nodes <==> x in g)
    requires epsilon > 0.0 && (policy == OneHop || policy == TwoHop)
    ensures AllNodesIn(g, nodes)
    ensures NoisyTotal(g, policy, pub, nodes, TriangleSmoothQuery(), TriangleSmoothSensitivity(), epsilon, noise) / 3.0
         == |Triangles(g)| as real + NoiseTotal(g, policy, pub, nodes, TriangleSmoothSensitivity(), epsilon, noise) / 3.0
  {
    assert AllNodesIn(g, nodes) by {
      forall i | 0 <= i < |nodes| ensures nodes[i] in g {
        var x := nodes[i];
        assert x in nodes;
      }
    }
    NoisyTotalSplit(g, policy, pub, nodes, TriangleSmoothQuery(), TriangleSmoothSensitivity(), epsilon, noise);
    TriangleSmoothTotalExact(g, policy, nodes);
    TriangleSumIsThreeTriangles(g, nodes);
  }

  /** Clipping a private node to its first D_max neighbours never raises its
      triangle count, caps it at comb(D_max, 2) = D_max (D_max - 1) / 2, and changes nothing for a node
      of degree at most D_max. */
  lemma TriangleClipBounds(view: Adj, node: int)
    requires ValidGraph(view)
    ensures LocalTriangles(view, node, true) <= LocalTriangles(view, node, false)
    ensures 2.0 * LocalTriangles(view, node, true) <= (DMax * (DMax - 1)) as real
    ensures Degree(view, node) <= DMax ==> LocalTriangles(view, node, true) == LocalTriangles(view, node, false)
  {
    if node in view {
      var nbrs := view[node];
      var m := Min(|nbrs|, DMax);
      var clipped := ClosedPairs(view, nbrs[..m]);
      assert clipped <= ClosedPairs(view, nbrs) by {
        ClosedPairsPrefix(view, nbrs, m);
      }
      PairsWithinBound(view, nbrs[..m], DMax);
      assert nbrs[..|nbrs|] == nbrs;
    }
  }

  /** At most d neighbours close at most comb(d, 2) = d (d - 1) / 2 pairs. */
  lemma PairsWithinBound(view: Adj, s: seq<int>, d: nat)
    requires |s| <= d
    ensures 2 * ClosedPairs(view, s) <= d * (d - 1)
  {
    ClosedPairsAtMostComb(view, s);
    CombMonotone(|s|, d, 2);
    CombTwo(d);
  }

  /** Under "1-hop" and "2-hop" the clipped triangle total never exceeds the
      unclipped one, and equals it when every private node has at most D_max
      neighbours. */
  lemma {:induction false} TriangleClippedTotal(g: Adj, policy: string, pub: set<int>, nodes: seq<int>)
    requires ValidGraph(g) && AllNodesIn(g, nodes) && (policy == OneHop || policy == TwoHop)
    ensures ExactTotal(g, policy, nodes, TriangleQuery(pub)) <= TriangleSum(g, nodes) as real
    ensures (forall i | 0 <= i < |nodes| :: nodes[i] in pub || |g[nodes[i]]| <= DMax) ==>
              ExactTotal(g, policy, nodes, TriangleQuery(pub)) == TriangleSum(g, nodes) as real
  {
    if nodes != [] {
      var node := nodes[|nodes| - 1];
      var p := nodes[..|nodes| - 1];
      TriangleClippedTotal(g, policy, pub, p);
      TriangleSmoothTotalExact(g, policy, nodes);
      TriangleSmoothTotalExact(g, policy, p);
      ObserverNeighbourhood(g, node, policy);
      TriangleClipBounds(VisibleSubgraph(g, node, policy), node);
      if forall i | 0 <= i < |nodes| :: nodes[i] in pub || |g[nodes[i]]| <= DMax {
        forall i | 0 <= i < |p| ensures p[i] in pub || |g[p[i]]| <= DMax {
          assert p[i] == nodes[i];
        }
      }
    }
  }

  /** Each of the (at most D_max) kept neighbours of a private node closes
      fewer than D_max of its counted pairs: the bound behind the constant
      sensitivity D_max of `triangle_count`. */
  lemma TriangleClipRowBound(view: Adj, node: int, x: int)
    requires ValidGraph(view) && node in view
    requires x in view[node][..Min(|view[node]|, DMax)]
    ensures var kept := view[node][..Min(|view[node]|, DMax)];
      RowCount(view, x, kept) < DMax
  {
    var kept := view[node][..Min(|view[node]|, DMax)];
    RowCountBelowLength(view, x, kept);
  }

  /** A row through one of the entries counts at most the other entries
      (no node is its own neighbour). */
  lemma RowCountBelowLength(view: Adj, x: int, s: seq<int>)
    requires ValidGraph(view) && NoDup(s) && x in s
    ensures RowCount(view, x, s) <= |s| - 1
  {
    RowCountSet(view, x, s);
    CardElems(s);
    assert NbrsIn(view, x, Elems(s)) <= Elems(s) - {x};
    SubsetCard(NbrsIn(view, x, Elems(s)), Elems(s) - {x});
  }

  /** The instance-specific sensitivity of `triangle_count_smooth`: the local
      count is the number of adjacent pairs of neighbours; losing one
      neighbour x loses at most the sensitivity of them; and the sensitivity
      lies between 1 and max(1, degree - 1). */
  lemma TriangleSmoothSensitivityBound(view: Adj, node: int, x: int)
    requires ValidGraph(view) && node in view && x in view[node]
    ensures var S := Elems(view[node]);
      && LocalTriangles(view, node, false) == |AdjPairs(view, S)| as real
      && |AdjPairs(view, S)| - |AdjPairs(view, S - {x})| == RowCount(view, x, view[node])
      && RowCount(view, x, view[node]) as real <= TriangleSmoothSens(view, node)
      && 1.0 <= TriangleSmoothSens(view, node) <= MaxReal(1.0, (|view[node]| - 1) as real)
  {
    var nbrs := view[node];
    var S := Elems(nbrs);
    ClosedPairsSet(view, nbrs);
    AdjPairsSplit(view, S, x);
    RowCountSet(view, x, nbrs);
    assert NbrsIn(view, x, S - {x}) == NbrsIn(view, x, S);
    var i :| 0 <= i < |nbrs| && nbrs[i] == x;
    MaxCommonOfSpec(view, nbrs, nbrs);
    assert RowCount(view, nbrs[i], nbrs) <= MaxCommonOf(view, nbrs, nbrs);
    var m := MaxCommonOf(view, nbrs, nbrs);
    if m != 0 {
      var j :| 0 <= j < |nbrs| && m == RowCount(view, nbrs[j], nbrs);
      RowCountBelowLength(view, nbrs[j], nbrs);
    }
  }

  /** A node is in its own view exactly when `SeesItself` says so. */
  lemma InOwnView(g: Adj, policy: string, node: int)
    requires ValidGraph(g) && node in g
    ensures node in VisibleSubgraph(g, node, policy) <==> SeesItself(g, policy, node)
  {
    if policy == OneHop {
      OneHopViewFacts(g, node);
    } else if policy == TwoHop {
      TwoHopViewFacts(g, node);
    }
  }

  /** `triangle_count_smooth` gets past every node exactly when every node
      is in its own view. */
  lemma AllSeenInViews(g: Adj, policy: string, nodes: seq<int>)
    requires ValidGraph(g) && AllNodesIn(g, nodes)
    ensures AllSeen(g, policy, nodes) <==> forall i | 0 <= i < |nodes| :: nodes[i] in VisibleSubgraph(g, nodes[i], policy)
  {
    forall i | 0 <= i < |nodes|
      ensures nodes[i] in VisibleSubgraph(g, nodes[i], policy) <==> SeesItself(g, policy, nodes[i])
    {
      InOwnView(g, policy, nodes[i]);
    }
  }

  /** Without noise (every node public, or every draw zero) under "1-hop" and
      "2-hop", each report is the node's degree in the graph, capped. */
  lemma {:induction false} NoisyDegreesExact(g: Adj, policy: string, pub: set<int>, nodes: seq<int>,
                                             maxDegree: nat, epsilon: real, noise: int -> real)
    requires ValidGraph(g) && AllNodesIn(g, nodes) && epsilon > 0.0 && (policy == OneHop || policy == TwoHop)
    requires forall i | 0 <= i < |nodes| :: nodes[i] in pub || noise(nodes[i]) == 0.0
    ensures forall i | 0 <= i < |nodes| ::
      NoisyDegrees(g, policy, pub, nodes, maxDegree, epsilon, noise)[i] == Min(|g[nodes[i]]|, maxDegree) as real
  {
    if nodes != [] {
      var n := |nodes| - 1;
      var p := nodes[..n];
      NoisyDegreesExact(g, policy, pub, p, maxDegree, epsilon, noise);
      ObserverNeighbourhood(g, nodes[n], policy);
      forall i | 0 <= i < |nodes|
        ensures NoisyDegrees(g, policy, pub, nodes, maxDegree, epsilon, noise)[i] == Min(|g[nodes[i]]|, maxDegree) as real
      {
        if i < n {
          assert nodes[i] == p[i];
        }
      }
    }
  }

  /** Without noise under "1-hop" and "2-hop" the histogram counts every node
      once, in the bin of its degree capped at `maxDegree`. */
  lemma DegreeHistogramExact(g: Adj, policy: string, pub: set<int>, nodes: seq<int>,
                             maxDegree: nat, epsilon: real, noise: int -> real)
    requires ValidGraph(g) && AllNodesIn(g, nodes) && epsilon > 0.0 && (policy == OneHop || policy == TwoHop)
    requires forall i | 0 <= i < |nodes| :: nodes[i] in pub || noise(nodes[i]) == 0.0
    ensures var h := Histogram(NoisyDegrees(g, policy, pub, nodes, maxDegree, epsilon, noise), maxDegree);
      && SumNat(h) == |nodes|
      && forall b | 0 <= b <= maxDegree :: h[b] == |set i | 0 <= i < |nodes| && Min(|g[nodes[i]]|, maxDegree) == b|
  {
    var values := NoisyDegrees(g, policy, pub, nodes, maxDegree, epsilon, noise);
    NoisyDegreesExact(g, policy, pub, nodes, maxDegree, epsilon, noise);
    forall i | 0 <= i < |nodes|
      ensures BinOf(values[i], maxDegree) == Min(|g[nodes[i]]|, maxDegree)
    {
      var d := Min(|g[nodes[i]]|, maxDegree);
      assert (d as real).Floor == d;
    }
    HistogramCounts(values, maxDegree);
    HistogramTotal(values, maxDegree);
    InRangeAll(values, maxDegree);
    forall b | 0 <= b <= maxDegree
      ensures BinMembers(values, maxDegree, b) == set i | 0 <= i < |nodes| && Min(|g[nodes[i]]|, maxDegree) == b
    {
    }
  }

  /** When every value falls in some bin, every position is in range. */
  lemma {:induction false} InRangeAll(values: seq<real>, M: nat)
    requires forall i | 0 <= i < |values| :: BinOf(values[i], M) >= 0
    ensures |InRange(values, M)| == |values|
  {
    if values != [] {
      var n := |values| - 1;
      var p := values[..n];
      assert forall i | 0 <= i < n :: values[i] == p[i];
      InRangeAll(p, M);
      assert InRange(values, M) == InRange(p, M) + {n};
    }
  }

  /** Under "1-hop" and "2-hop" the clipped k-star total never exceeds the
      unclipped sum of comb(degree, k), and equals it when every private node
      has at most D_max neighbours. */
  lemma {:induction false} KStarClippedTotal(g: Adj, policy: string, pub: set<int>, nodes: seq<int>, k: nat)
    requires ValidGraph(g) && AllNodesIn(g, nodes) && (policy == OneHop || policy == TwoHop)
    ensures ExactTotal(g, policy, nodes, KStarQuery(k, pub)) <= KStarSum(g, nodes, k) as real
    ensures (forall i | 0 <= i < |nodes| :: nodes[i] in pub || |g[nodes[i]]| <= DMax) ==>
              ExactTotal(g, policy, nodes, KStarQuery(k, pub)) == KStarSum(g, nodes, k) as real
  {
    if nodes != [] {
      var node := nodes[|nodes| - 1];
      var p := nodes[..|nodes| - 1];
      KStarClippedTotal(g, policy, pub, p, k);
      KStarTotalExact(g, policy, nodes, k);
      KStarTotalExact(g, policy, p, k);
      ObserverNeighbourhood(g, node, policy);
      KStarClipBounds(VisibleSubgraph(g, node, policy), node, k);
      if forall i | 0 <= i < |nodes| :: nodes[i] in pub || |g[nodes[i]]| <= DMax {
        forall i | 0 <= i < |p| ensures p[i] in pub || |g[p[i]]| <= DMax {
          assert p[i] == nodes[i];
        }
      }
    }
  }

  /** Sensitivities of at least 1 add up to at least the number of nodes. */
  lemma {:induction false} SensitivitySumAtLeast(g: Adj, policy: string, nodes: seq<int>, sens: (Adj, int) -> real)
    requires ValidGraph(g) && AllNodesIn(g, nodes)
    requires forall view, node :: sens(view, node) >= 1.0
    ensures SensitivitySum(g, policy, nodes, sens) >= |nodes| as real
  {
    if nodes != [] {
      SensitivitySumAtLeast(g, policy, nodes[..|nodes| - 1], sens);
    }
  }

  /** The average sensitivity the two smooth estimators report is at least 1. */
  lemma SmoothAverageAtLeastOne(g: Adj, policy: string, nodes: seq<int>, k: nat)
    requires ValidGraph(g) && AllNodesIn(g, nodes) && nodes != [] && k >= 1
    ensures Mean(SensitivitySum(g, policy, nodes, KStarSmoothSensitivity(k)), |nodes|) >= 1.0
    ensures Mean(SensitivitySum(g, policy, nodes, TriangleSmoothSensitivity()), |nodes|) >= 1.0
  {
    forall view, node ensures KStarSmoothSensitivity(k)(view, node) >= 1.0 {
      KStarSmoothSensitivityBound(Degree(view, node), k);
    }
    SensitivitySumAtLeast(g, policy, nodes, KStarSmoothSensitivity(k));
    SensitivitySumAtLeast(g, policy, nodes, TriangleSmoothSensitivity());
    MeanAtLeastOne(SensitivitySum(g, policy, nodes, KStarSmoothSensitivity(k)), |nodes|);
    MeanAtLeastOne(SensitivitySum(g, policy, nodes, TriangleSmoothSensitivity()), |nodes|);
  }

  lemma MeanAtLeastOne(sum: real, count: nat)
    requires count > 0 && sum >= count as real
    ensures Mean(sum, count) >= 1.0
  {
    var c := count as real;
    assert Mean(sum, count) * c == sum;
  }

  /** Degrees 2, 2, 3 and 1 with max_degree 3 fill the bins 0..3 with 0, 1, 2 and 1. */
  lemma HistogramExample()
    ensures Histogram([2.0, 2.0, 3.0, 1.0], 3) == [0, 1, 2, 1]
  {
    var v := [2.0, 2.0, 3.0, 1.0];
    assert BinOf(2.0, 3) == 2 && BinOf(3.0, 3) == 3 && BinOf(1.0, 3) == 1;
    assert v[..1][..0] == [] && v[..2][..1] == v[..1] && v[..3][..2] == v[..2] && v[..3] == v[..4][..3];
    assert Histogram([], 3) == [0, 0, 0, 0];
    assert Histogram(v[..1], 3) == [0, 0, 1, 0];
    assert Histogram(v[..2], 3) == [0, 0, 2, 0];
    assert Histogram(v[..3], 3) == [0, 0, 2, 1];
  }
}
