/** The graph-walk samplers of graph_dp_project/src/utils.py. numpy's random
    choices (the next step of a walk, the start node, the shuffle of a
    neighbour list) are choices of the model: every property below holds
    whatever numpy draws. */
module Utils {
  import opened Graphs
  import opened Errors
  import opened Counting

  // ---------------------------------------------------------------------
  // perform_random_walk
  // ---------------------------------------------------------------------

  /** What `perform_random_walk(g, start, walkLength)` may return: a walk
      from `start` along edges of `g` of at most `walkLength` steps, cut short
      only at a node without neighbours. */
  ghost predicate IsWalk(g: Adj, start: int, walkLength: int, path: seq<int>) {
    var steps := if walkLength > 0 then walkLength else 0;
    && 1 <= |path| <= steps + 1
    && path[0] == start
    && (forall j | 0 <= j < |path| - 1 :: HasEdge(g, path[j], path[j + 1]))
    && (|path| < steps + 1 ==> path[|path| - 1] in g && g[path[|path| - 1]] == [])
  }

  /** `perform_random_walk`: from the current node, step to a neighbour
      (any one: numpy picks uniformly), `walkLength` times or until a node has
      no neighbour. networkx raises when the start is not a node and a first
      step is attempted. */
  method RandomWalk(g: Adj, start: int, walkLength: int) returns (r: Result<seq<int>>)
    requires ValidGraph(g)
    ensures walkLength > 0 && start !in g ==> r == Err(NodeNotFound)
    ensures walkLength <= 0 || start in g ==> r.Ok? && IsWalk(g, start, walkLength, r.value)
  {
    var steps := if walkLength > 0 then walkLength else 0;
    var path := [start];
    var current := start;
    var i := 0;
    while i < steps
      invariant 0 <= i <= steps
      invariant |path| == i + 1 && path[0] == start && current == path[i]
      invariant i > 0 ==> start in g && current in g
      invariant forall j | 0 <= j < |path| - 1 :: HasEdge(g, path[j], path[j + 1])
    {
      if current !in g {
        return Err(NodeNotFound);
      }
      var neighbors := g[current];
      if neighbors == [] {
        break;
      }
      var k :| 0 <= k < |neighbors|;
      var next := neighbors[k];
      assert HasEdge(g, next, current);
      path := path + [next];
      current := next;
      i := i + 1;
    }
    r := Ok(path);
  }

  /** Every node of a walk from `start` lies in the connected component of `start`. */
  lemma WalkInComponent(g: Adj, start: int, walkLength: int, path: seq<int>)
    requires ValidGraph(g) && start in g && IsWalk(g, start, walkLength, path)
    ensures forall j | 0 <= j < |path| :: path[j] in Component(g, start)
  {
    forall j | 0 <= j < |path|
      ensures path[j] in Component(g, start)
    {
      var p := path[..j + 1];
      forall k | 0 <= k < |p| - 1
        ensures HasEdge(g, p[k], p[k + 1])
      {
        assert p[k] == path[k] && p[k + 1] == path[k + 1];
      }
      assert PathFromTo(g, p, start, path[j]);
      if j > 0 {
        assert HasEdge(g, path[j], path[j - 1]);
      }
    }
  }

  // ---------------------------------------------------------------------
  // sample_power_law_subgraph
  // ---------------------------------------------------------------------

  /** A walk from `p[0]` through nodes of `keep` along edges of `g`. */
  ghost predicate PathWithin(g: Adj, keep: set<int>, p: seq<int>) {
    && |p| > 0
    && (forall i | 0 <= i < |p| :: p[i] in keep)
    && (forall i | 0 <= i < |p| - 1 :: HasEdge(g, p[i], p[i + 1]))
  }

  /** Every kept node that has left the queue has all its neighbours kept. */
  ghost predicate ClosedBut(g: Adj, keep: set<int>, queue: seq<int>) {
    forall a, b | a in keep && a !in queue && HasEdge(g, a, b) :: b in keep
  }

  /** What `sample_power_law_subgraph(g, size)` may return from the start
      node numpy picks: the subgraph induced by a connected set of nodes
      around `start`, with `size` of them, or the whole component of `start`
      when it is smaller. */
  ghost predicate SampleOf(g: Adj, size: int, start: int, h: Adj) {
    && start in g && start in h
    && h == Induced(g, h.Keys)
    && (forall x | x in h :: Reachable(h, start, x))
    && (size <= 1 ==> h.Keys == {start})
    && (size >= 1 ==> |h.Keys| == if size < |Component(g, start)| then size else |Component(g, start)|)
  }

  /** `sample_power_law_subgraph`: a breadth-first expansion from a start
      node, neighbours in shuffled order, until `size` nodes are kept or the
      queue runs dry; then the induced subgraph. numpy raises when asked to
      pick a start node from an empty graph. `start` is the pick. */
  method SamplePowerLawSubgraph(g: Adj, size: int) returns (r: Result<Adj>, ghost start: int)
    requires ValidGraph(g)
    ensures g == map[] ==> r == Err(EmptyGraph)
    ensures g != map[] ==> r.Ok? && SampleOf(g, size, start, r.value)
  {
    if g == map[] {
      return Err(EmptyGraph), 0;
    }
    assert g.Keys != {};
    NonEmptyHasMember(g.Keys);
    var startNode :| startNode in g;
    start := startNode;
    var keep := {startNode};
    var queue := [startNode];
    ghost var paths: map<int, seq<int>> := map[startNode := [startNode]];
    while |keep| < size && queue != []
      invariant Expansion(g, startNode, keep, queue, paths)
      invariant |keep| == 1 || |keep| <= size
      invariant |keep| < size ==> ClosedBut(g, keep, queue)
      decreases g.Keys - keep, |queue|
    {
      var current := queue[0];
      queue := queue[1..];
      assert current !in queue;
      var neighbors :| multiset(neighbors) == multiset(g[current]);
      keep, queue, paths := Expand(g, size, startNode, current, neighbors, keep, queue, paths);
    }
    if |keep| < size {
      assert queue == [];
    }
    var h := Induced(g, keep);
    SampleFacts(g, size, startNode, keep, queue, paths);
    r := Ok(h);
  }

  /** A walk in `keep` from `s` to `x`. */
  ghost predicate PathFromWithin(g: Adj, keep: set<int>, p: seq<int>, s: int, x: int) {
    PathWithin(g, keep, p) && p[0] == s && p[|p| - 1] == x
  }

  /** The inner loop of `sample_power_law_subgraph`: keep and queue each
      neighbour of `current` that is not kept yet, stopping as soon as `size`
      nodes are kept. */
  method Expand(g: Adj, size: int, ghost startNode: int, current: int, neighbors: seq<int>,
                keep0: set<int>, queue0: seq<int>, ghost paths0: map<int, seq<int>>)
    returns (keep: set<int>, queue: seq<int>, ghost paths: map<int, seq<int>>)
    requires ValidGraph(g) && Expansion(g, startNode, keep0, queue0, paths0)
    requires current in keep0 && current !in queue0
    requires multiset(neighbors) == multiset(g[current])
    requires |keep0| < size
    requires forall a, b | a in keep0 && a !in queue0 && a != current && HasEdge(g, a, b) :: b in keep0
    ensures Expansion(g, startNode, keep, queue, paths)
    ensures keep0 <= keep
    ensures keep == keep0 ==> queue == queue0
    ensures |keep| <= size
    ensures |keep| < size ==> ClosedBut(g, keep, queue)
  {
    keep, queue, paths := keep0, queue0, paths0;
    var j := 0;
    while j < |neighbors|
      invariant 0 <= j <= |neighbors|
      invariant Expansion(g, startNode, keep, queue, paths)
      invariant keep0 <= keep && current in keep && current !in queue
      invariant keep == keep0 ==> queue == queue0
      invariant |keep| < size
      invariant forall a, b | a in keep && a !in queue && a != current && HasEdge(g, a, b) :: b in keep
      invariant forall k | 0 <= k < j :: neighbors[k] in keep
    {
      var n := neighbors[j];
      if n !in keep {
        assert n in multiset(g[current]);
        ExpansionAdd(g, startNode, keep, queue, paths, current, n);
        keep := keep + {n};
        queue := queue + [n];
        paths := paths[n := paths[current] + [n]];
        if |keep| >= size {
          return;
        }
      }
      j := j + 1;
    }
    forall b | HasEdge(g, current, b)
      ensures b in keep
    {
      assert b in multiset(neighbors);
      var k :| 0 <= k < |neighbors| && neighbors[k] == b;
    }
  }

  /** The state of the expansion: the start and every queued node are kept,
      the queue holds each node once, and `paths` holds, for each kept node,
      a walk to it from the start through kept nodes. */
  ghost predicate Expansion(g: Adj, s: int, keep: set<int>, queue: seq<int>, paths: map<int, seq<int>>) {
    && s in keep && keep <= g.Keys
    && NoDup(queue) && (forall x | x in queue :: x in keep)
    && (forall x | x in keep :: x in paths && PathFromWithin(g, keep, paths[x], s, x))
  }

  /** Keeping and queueing a neighbour `n` of a kept node keeps the expansion
      state, with the walk to `n` through that node. */
  lemma ExpansionAdd(g: Adj, s: int, keep: set<int>, queue: seq<int>, paths: map<int, seq<int>>, current: int, n: int)
    requires ValidGraph(g) && Expansion(g, s, keep, queue, paths)
    requires current in keep && HasEdge(g, current, n) && n !in keep
    ensures Expansion(g, s, keep + {n}, queue + [n], paths[n := paths[current] + [n]])
  {
    assert HasEdge(g, n, current);
    var p := paths[current] + [n];
    assert PathFromWithin(g, keep + {n}, p, s, n);
    var paths' := paths[n := p];
    forall x | x in keep + {n}
      ensures x in paths' && PathFromWithin(g, keep + {n}, paths'[x], s, x)
    {
      if x != n {
        assert PathFromWithin(g, keep, paths[x], s, x);
      }
    }
  }

  /** The kept set at the end of the expansion: connected through kept nodes,
      `size` of them or the whole component of the start. */
  lemma SampleFacts(g: Adj, size: int, s: int, keep: set<int>, queue: seq<int>, paths: map<int, seq<int>>)
    requires ValidGraph(g) && Expansion(g, s, keep, queue, paths)
    requires |keep| == 1 || |keep| <= size
    requires |keep| < size ==> ClosedBut(g, keep, [])
    ensures SampleOf(g, size, s, Induced(g, keep))
  {
    var h := Induced(g, keep);
    InducedSpec(g, keep);
    assert h.Keys == keep;
    forall x | x in h
      ensures Reachable(h, s, x) && Reachable(g, s, x)
    {
      var p := paths[x];
      assert PathFromTo(h, p, s, x);
      assert PathFromTo(g, p, s, x);
    }
    var comp := Component(g, s);
    assert keep <= comp;
    SubsetCard(keep, comp);
    if |keep| < size {
      forall x | x in comp
        ensures x in keep
      {
        var p :| PathFromTo(g, p, s, x);
        ClosedContainsPath(g, keep, p);
      }
      assert keep == comp;
    }
    if size <= 1 {
      SingletonOfOne(keep, s);
    }
  }

  /** A set of one element that contains `s` is `{s}`. */
  lemma SingletonOfOne(a: set<int>, s: int)
    requires s in a && |a| == 1
    ensures a == {s}
  {
    assert |a - {s}| == 0;
  }

  /** A sample lies inside the component of its start, and is that whole
      component when `size` is at least as large. */
  lemma SampleInComponent(g: Adj, size: int, start: int, h: Adj)
    requires ValidGraph(g) && SampleOf(g, size, start, h)
    ensures h.Keys <= Component(g, start)
    ensures size >= |Component(g, start)| ==> h.Keys == Component(g, start)
  {
    InducedSpec(g, h.Keys);
    forall x | x in h
      ensures x in Component(g, start)
    {
      var p :| PathFromTo(h, p, start, x);
      assert PathFromTo(g, p, start, x);
    }
    if size >= |Component(g, start)| {
      assert start in Component(g, start) by {
        assert PathFromTo(g, [start], start, start);
      }
      var comp := Component(g, start);
      SubsetCard(h.Keys, comp);
      assert |comp - h.Keys| == 0 by {
        assert |comp| == |h.Keys| + |comp - h.Keys|;
      }
    }
  }
}
