/** The graph store, the visibility policy and the local view of one observer
    (`VisibilityOracle` and `SocialGraph` of graph_dp_project/src/model.py). */
module Model {
  import opened Graphs
  import opened Errors

  /** The policy names the oracle recognises; any other name is unknown. */
  const OneHop := "1-hop"
  const TwoHop := "2-hop"
  const Global := "global"

  /** The public-node selection strategies. */
  const RandomStrategy := "random"
  const DegreeTopK := "degree_top_k"
  const DegreeProbabilistic := "degree_probabilistic"

  /** networkx `shortest_path_length(g, observer, x) <= 2`, for two nodes of `g`:
      `x` is the observer, a neighbour of it, or a neighbour of a neighbour. */
  predicate WithinTwoHops(g: Adj, observer: int, x: int) {
    x == observer || HasEdge(g, observer, x) || (observer in g && exists y | y in g[observer] :: HasEdge(g, y, x))
  }

  /** The nodes at distance at most 2 from the observer. */
  function Ball2(g: Adj, observer: int): set<int> {
    set x | x in g && WithinTwoHops(g, observer, x)
  }

  /** The visibility policy of an estimation run. */
  datatype VisibilityOracle = VisibilityOracle(policy: string) {

    /** `is_visible`: whether the edge (u, v) is visible to the observer.
        Under "2-hop" the distance to `u` is asked for first: networkx raises
        `NodeNotFound` when the observer or `u` is not a node, and `NetworkXNoPath`,
        which the source catches and answers false, when `u` cannot be reached;
        only then is `v` looked at in the same way. */
    ghost function IsVisible(g: Adj, observer: int, u: int, v: int): Result<bool> {
      if policy == OneHop then
        Ok(observer == u || observer == v || HasEdge(g, observer, u) || HasEdge(g, observer, v))
      else if policy == TwoHop then
        if observer !in g || u !in g then Err(NodeNotFound)
        else if !Reachable(g, observer, u) then Ok(false)
        else if v !in g then Err(NodeNotFound)
        else if !Reachable(g, observer, v) then Ok(false)
        else Ok(WithinTwoHops(g, observer, u) && WithinTwoHops(g, observer, v))
      else if policy == Global then Ok(true)
      else Ok(false)
    }
  }

  // ---------------------------------------------------------------------
  // Local views
  // ---------------------------------------------------------------------

  /** The 1-hop view after the first `i` neighbours of the observer have been
      expanded: for each such neighbour, `add_edge(observer, nbr)` and then
      `add_edge(nbr, x)` for every neighbour x of nbr. */
  function OneHopPrefix(g: Adj, observer: int, i: nat): Adj
    requires ValidGraph(g) && observer in g && i <= |g[observer]|
  {
    if i == 0 then map[]
    else
      var nbr := g[observer][i - 1];
      assert HasEdge(g, observer, nbr) && HasEdge(g, nbr, observer);
      OneHopExpand(OneHopPrefix(g, observer, i - 1), observer, nbr, g[nbr])
  }

  /** One step of the 1-hop loop: `add_edge(observer, nbr)`, then
      `add_edge(nbr, x)` for each x of `second`. */
  function OneHopExpand(q: Adj, observer: int, nbr: int, second: seq<int>): Adj {
    AddEdgesFrom(AddEdge(q, observer, nbr), nbr, second)
  }

  /** The view `get_visible_subgraph` builds for an observer of the graph. */
  function VisibleSubgraph(g: Adj, observer: int, policy: string): Adj
    requires ValidGraph(g)
    requires policy == OneHop || policy == TwoHop ==> observer in g
  {
    if policy == OneHop then OneHopPrefix(g, observer, |g[observer]|)
    else if policy == TwoHop then Induced(g, Ball2(g, observer))
    else map[]
  }

  /** The 1-hop branch of `get_visible_subgraph`: nested loops of `add_edge`. */
  method OneHopView(g: Adj, observer: int) returns (view: Adj)
    requires ValidGraph(g) && observer in g
    ensures view == OneHopPrefix(g, observer, |g[observer]|)
  {
    view := map[];
    var nbrs := g[observer];
    for i := 0 to |nbrs|
      invariant view == OneHopPrefix(g, observer, i)
    {
      var nbr := nbrs[i];
      assert HasEdge(g, observer, nbr) && HasEdge(g, nbr, observer);
      ghost var before := view;
      view := AddEdge(view, observer, nbr);
      view := AddEdgesLoop(view, nbr, g[nbr]);
      assert view == OneHopExpand(before, observer, nbr, g[nbr]);
    }
  }

  /** The inner loop of the 1-hop branch: `add_edge(nbr, x)` for each x of `xs`. */
  method AddEdgesLoop(h: Adj, nbr: int, xs: seq<int>) returns (view: Adj)
    ensures view == AddEdgesFrom(h, nbr, xs)
  {
    view := h;
    for j := 0 to |xs|
      invariant view == AddEdgesFrom(h, nbr, xs[..j])
    {
      assert xs[..j + 1][..j] == xs[..j];
      view := AddEdge(view, nbr, xs[j]);
    }
    assert xs[..|xs|] == xs;
  }

  /** The 2-hop branch of `get_visible_subgraph`: the neighbours of the
      observer, then the neighbours of those that are neither neighbours nor the
      observer, then the subgraph induced by the three sets. */
  method TwoHopView(g: Adj, observer: int) returns (view: Adj)
    requires ValidGraph(g) && observer in g
    ensures view == Induced(g, Ball2(g, observer))
  {
    var dist1 := Elems(g[observer]);
    var dist2: set<int> := {};
    var pending := dist1;
    while pending != {}
      invariant pending <= dist1
      invariant forall y :: y in dist2 <==> y !in dist1 && y != observer && exists n :: n in dist1 - pending && HasEdge(g, n, y)
      decreases pending
    {
      NonEmptyHasMember(pending);
      var n1 :| n1 in pending;
      assert HasEdge(g, observer, n1) && HasEdge(g, n1, observer);
      var nbrs := g[n1];
      ghost var before := dist2;
      for j := 0 to |nbrs|
        invariant forall y :: y in dist2 <==> y in before || (y in nbrs[..j] && y !in dist1 && y != observer)
      {
        var n2 := nbrs[j];
        assert forall y :: y in nbrs[..j + 1] <==> y in nbrs[..j] || y == n2;
        if n2 !in dist1 && n2 != observer {
          dist2 := dist2 + {n2};
        }
      }
      assert nbrs[..|nbrs|] == nbrs;
      forall y | y in dist2
        ensures exists n :: n in dist1 - (pending - {n1}) && HasEdge(g, n, y)
      {
        if y !in before {
          assert HasEdge(g, n1, y);
        }
      }
      pending := pending - {n1};
    }
    var visible := {observer} + dist1 + dist2;
    forall x | x in visible ensures x in Ball2(g, observer) {
      if x in dist2 {
        var n :| n in dist1 - pending && HasEdge(g, n, x);
        assert HasEdge(g, x, n);
        assert n in g[observer];
        assert WithinTwoHops(g, observer, x);
      } else if x in dist1 {
        assert HasEdge(g, observer, x) && HasEdge(g, x, observer);
      }
    }
    forall x | x in Ball2(g, observer) ensures x in visible {
      if x != observer && !HasEdge(g, observer, x) {
        var y :| y in g[observer] && HasEdge(g, y, x);
        assert y in dist1;
        assert x !in dist1;
        assert x in dist2;
      }
    }
    assert visible == Ball2(g, observer);
    view := Induced(g, visible);
  }

  // ---------------------------------------------------------------------
  // Ranking nodes by degree (`sorted(..., key=degree, reverse=True)`)
  // ---------------------------------------------------------------------

  /** Inserts `x` after every element of degree at least its own, so that
      nodes of equal degree keep their original order (Python's sort is stable,
      also with `reverse=True`). */
  function InsertByDegree(g: Adj, x: int, s: seq<int>): seq<int> {
    if s == [] then [x]
    else if Degree(g, s[0]) >= Degree(g, x) then [s[0]] + InsertByDegree(g, x, s[1..])
    else [x] + s
  }

  /** The nodes in order of non-increasing degree, stable. */
  function SortByDegree(g: Adj, s: seq<int>): seq<int> {
    if s == [] then [] else InsertByDegree(g, s[|s| - 1], SortByDegree(g, s[..|s| - 1]))
  }

  ghost predicate DescendingByDegree(g: Adj, s: seq<int>) {
    forall i, j | 0 <= i < j < |s| :: Degree(g, s[i]) >= Degree(g, s[j])
  }

  /** Where Python's slice `s[:m]` of a list of length n ends: m itself, at
      most n, and for a negative m all but the last |m| entries. */
  function SliceEnd(n: nat, m: int): (k: nat)
    ensures k <= n
    ensures 0 <= m <= n ==> k == m
    ensures m > n ==> k == n
    ensures m < 0 ==> k + (if -m <= n then -m else n) == n
  {
    if m >= 0 then (if m <= n then m else n)
    else if n + m >= 0 then n + m
    else 0
  }

  /** The "degree_top_k" public set: `sorted_nodes[:m]` of the ranking. */
  function TopK(g: Adj, nodes: seq<int>, m: int): set<int> {
    var ranked := SortByDegree(g, nodes);
    Elems(ranked[..SliceEnd(|ranked|, m)])
  }

  /** `int(len(nodes) * public_fraction)`: Python's `int` truncates toward zero. */
  function NumPublic(n: nat, fraction: real): (m: int)
    ensures var x := (n as real) * fraction;
      && (x >= 0.0 ==> 0 <= m && m as real <= x < (m + 1) as real)
      && (x < 0.0 ==> m <= 0 && (m - 1) as real < x <= m as real)
  {
    var x := (n as real) * fraction;
    if x >= 0.0 then x.Floor else -((-x).Floor)
  }

  /** The nodes of positive degree: the only ones "degree_probabilistic" can
      draw when the total degree is positive. */
  function PositiveDegree(g: Adj): set<int> {
    set x | x in g && |g[x]| > 0
  }

  // ---------------------------------------------------------------------
  // The graph store
  // ---------------------------------------------------------------------

  /** `SocialGraph`: the graph, its node order and the public nodes. */
  class SocialGraph {
    var graph: Adj
    /** The order in which networkx lists the nodes. */
    var nodes: seq<int>
    var publicNodes: set<int>
    const publicFraction: real
    const publicStrategy: string

    ghost predicate Valid()
      reads this
    {
      && ValidGraph(graph)
      && NoDup(nodes)
      && (forall x :: x in nodes <==> x in graph)
    }

    /** `__init__` without a data path: an empty graph and no public node. */
    constructor (publicFraction: real, publicStrategy: string)
      ensures Valid()
      ensures graph == map[] && nodes == [] && publicNodes == {}
      ensures this.publicFraction == publicFraction && this.publicStrategy == publicStrategy
    {
      graph := map[];
      nodes := [];
      publicNodes := {};
      this.publicFraction := publicFraction;
      this.publicStrategy := publicStrategy;
    }

    /** `load_data` once the edge list has been read: install the graph, then
        select the public nodes. `ok` is false when the selection raised. */
    method LoadData(g: Adj, order: seq<int>) returns (ok: bool)
      requires Valid()
      requires ValidGraph(g) && NoDup(order) && forall x :: x in order <==> x in g
      modifies this
      ensures Valid()
      ensures graph == g && nodes == order
      ensures SelectionOutcome(old(publicNodes), ok)
    {
      graph := g;
      nodes := order;
      ok := SelectPublicNodes();
    }

    /** What `_select_public_nodes` leaves in `publicNodes`, and whether it
        returned normally, given the public set `before` it ran. */
    ghost predicate SelectionOutcome(before: set<int>, ok: bool)
      reads this
      requires Valid()
    {
      var m := NumPublic(|nodes|, publicFraction);
      if m == 0 then ok && publicNodes == {}
      else if publicStrategy == RandomStrategy then
        && ok == (0 <= m <= |nodes|)
        && (ok ==> publicNodes <= Elems(nodes) && |publicNodes| == m)
        && (!ok ==> publicNodes == before)
      else if publicStrategy == DegreeTopK then
        ok && publicNodes == TopK(graph, nodes, m)
      else if publicStrategy == DegreeProbabilistic then
        var pool := if PositiveDegree(graph) != {} then PositiveDegree(graph) else Elems(nodes);
        && ok == (0 <= m <= |pool|)
        && (ok ==> publicNodes <= pool && |publicNodes| == m)
        && (!ok ==> publicNodes == before)
      else
        ok && publicNodes == before
    }

    /** `_select_public_nodes`. The random draws of numpy are a choice of the
        model; `ok` is false where numpy raises (a negative sample size, or one
        larger than what can be drawn without replacement). */
    method SelectPublicNodes() returns (ok: bool)
      requires Valid()
      modifies this`publicNodes
      ensures Valid()
      ensures SelectionOutcome(old(publicNodes), ok)
    {
      var m := NumPublic(|nodes|, publicFraction);
      ok := true;
      if m == 0 {
        publicNodes := {};
        return;
      }
      if publicStrategy == RandomStrategy {
        ok := DrawWithoutReplacement(Elems(nodes), m);
      } else if publicStrategy == DegreeTopK {
        publicNodes := TopK(graph, nodes, m);
      } else if publicStrategy == DegreeProbabilistic {
        var positive := PositiveDegree(graph);
        if positive != {} {
          ok := DrawWithoutReplacement(positive, m);
        } else {
          ok := DrawWithoutReplacement(Elems(nodes), m);
        }
      }
      CardElems(nodes);
    }

    /** `set(np.random.choice(pool, m, replace=False))`: any `m` distinct
        members of the pool; false (and no change) when m is negative or the
        pool is too small, where numpy raises. */
    method DrawWithoutReplacement(pool: set<int>, m: int) returns (ok: bool)
      modifies this`publicNodes
      ensures ok == (0 <= m <= |pool|)
      ensures ok ==> publicNodes <= pool && |publicNodes| == m
      ensures !ok ==> publicNodes == old(publicNodes)
    {
      if m < 0 || m > |pool| {
        return false;
      }
      ghost var sample := SubsetOfSize(pool, m);
      var chosen :| chosen <= pool && |chosen| == m;
      publicNodes := chosen;
      ok := true;
    }

    /** `is_public`. */
    predicate IsPublic(node: int)
      reads this
    {
      node in publicNodes
    }

    /** `get_visible_subgraph`: the view of `observer` under the oracle's
        policy, built without changing the graph (no `modifies`). networkx raises
        when the observer of a 1-hop or 2-hop view is not a node. */
    method GetVisibleSubgraph(observer: int, oracle: VisibilityOracle) returns (r: Result<Adj>)
      requires Valid()
      ensures (oracle.policy == OneHop || oracle.policy == TwoHop) && observer !in graph ==> r == Err(NodeNotFound)
      ensures (oracle.policy != OneHop && oracle.policy != TwoHop) || observer in graph ==>
        r == Ok(VisibleSubgraph(graph, observer, oracle.policy))
    {
      if oracle.policy == OneHop || oracle.policy == TwoHop {
        if observer !in graph {
          return Err(NodeNotFound);
        }
      }
      var view: Adj;
      if oracle.policy == OneHop {
        view := OneHopView(graph, observer);
      } else if oracle.policy == TwoHop {
        view := TwoHopView(graph, observer);
      } else {
        view := map[];
      }
      r := Ok(view);
    }
  }

  // ---------------------------------------------------------------------
  // What the views contain
  // ---------------------------------------------------------------------

  /** The 1-hop view after `i` expansions holds exactly the graph edges with an
      endpoint among the first `i` neighbours of the observer. */
  lemma {:induction false} OneHopPrefixEdges(g: Adj, observer: int, i: nat)
    requires ValidGraph(g) && observer in g && i <= |g[observer]|
    ensures var p := OneHopPrefix(g, observer, i);
      forall a, b :: HasEdge(p, a, b) <==> HasEdge(g, a, b) && (a in g[observer][..i] || b in g[observer][..i])
  {
    if i > 0 {
      var q := OneHopPrefix(g, observer, i - 1);
      var nbr := g[observer][i - 1];
      assert nbr in g by {
        assert HasEdge(g, observer, nbr);
      }
      OneHopPrefixEdges(g, observer, i - 1);
      OneHopExpandEdges(q, observer, nbr, g[nbr]);
      OneHopEdgesStep(g, observer, i, q, OneHopExpand(q, observer, nbr, g[nbr]));
    }
  }

  /** The edge step of `OneHopPrefixEdges`: if `q` holds the edges at the first
      `i - 1` neighbours and `p` adds those at the i-th, then `p` holds the
      edges at the first `i`. */
  lemma OneHopEdgesStep(g: Adj, observer: int, i: nat, q: Adj, p: Adj)
    requires ValidGraph(g) && observer in g && 0 < i <= |g[observer]|
    requires forall a, b :: HasEdge(q, a, b) <==>
      HasEdge(g, a, b) && (a in g[observer][..i - 1] || b in g[observer][..i - 1])
    requires var nbr := g[observer][i - 1];
      nbr in g && forall a, b :: HasEdge(p, a, b) <==>
        HasEdge(q, a, b) || (a == observer && b == nbr) || (a == nbr && b == observer)
        || (a == nbr && b in g[nbr]) || (b == nbr && a in g[nbr])
    ensures forall a, b :: HasEdge(p, a, b) <==> HasEdge(g, a, b) && (a in g[observer][..i] || b in g[observer][..i])
  {
    var nbrs := g[observer];
    var nbr := nbrs[i - 1];
    assert HasEdge(g, observer, nbr) && HasEdge(g, nbr, observer);
    assert forall x :: x in nbrs[..i] <==> x in nbrs[..i - 1] || x == nbr;
    forall a, b
      ensures HasEdge(p, a, b) <==> HasEdge(g, a, b) && (a in nbrs[..i] || b in nbrs[..i])
    {
      if HasEdge(g, a, b) && b == nbr {
        assert HasEdge(g, b, a);
      }
    }
  }

  /** Expanding one neighbour `nbr` of the observer adds the edge between them
      and the edges from `nbr` to the nodes of `second`, and nothing else. */
  lemma OneHopExpandEdges(q: Adj, observer: int, nbr: int, second: seq<int>)
    ensures var r := OneHopExpand(q, observer, nbr, second);
      forall a, b :: HasEdge(r, a, b) <==>
        HasEdge(q, a, b) || (a == observer && b == nbr) || (a == nbr && b == observer)
        || (a == nbr && b in second) || (b == nbr && a in second)
  {
    AddEdgesFromEdges(AddEdge(q, observer, nbr), nbr, second);
  }

  /** Every 1-hop prefix is a simple graph without isolated nodes. */
  lemma {:induction false} OneHopPrefixValid(g: Adj, observer: int, i: nat)
    requires ValidGraph(g) && observer in g && i <= |g[observer]|
    ensures ValidGraph(OneHopPrefix(g, observer, i)) && NoIsolated(OneHopPrefix(g, observer, i))
  {
    if i > 0 {
      var q := OneHopPrefix(g, observer, i - 1);
      var nbr := g[observer][i - 1];
      assert nbr in g && nbr != observer && nbr !in g[nbr] by {
        assert HasEdge(g, observer, nbr);
      }
      OneHopPrefixValid(g, observer, i - 1);
      OneHopExpandValid(q, observer, nbr, g[nbr]);
    }
  }

  /** Expanding one neighbour `nbr` of the observer keeps a view simple and
      without isolated nodes. */
  lemma OneHopExpandValid(q: Adj, observer: int, nbr: int, second: seq<int>)
    requires ValidGraph(q) && NoIsolated(q) && observer != nbr && nbr !in second
    ensures var r := OneHopExpand(q, observer, nbr, second);
      ValidGraph(r) && NoIsolated(r)
  {
    var r := AddEdge(q, observer, nbr);
    AddEdgeValid(q, observer, nbr);
    AddEdgesFromValid(r, nbr, second);
    AddEdgeNoIsolated(q, observer, nbr);
    AddEdgesFromNoIsolated(r, nbr, second);
  }

  /** One expansion step appends the expanded neighbour to the observer's list. */
  lemma OneHopStepObserver(g: Adj, observer: int, i: nat)
    requires ValidGraph(g) && observer in g && 0 < i <= |g[observer]|
    requires var q := OneHopPrefix(g, observer, i - 1);
      if observer in q then q[observer] == g[observer][..i - 1] else i == 1
    ensures var nbr := g[observer][i - 1];
      AddEdge(OneHopPrefix(g, observer, i - 1), observer, nbr)[observer] == g[observer][..i]
  {
    var nbrs := g[observer];
    var q := OneHopPrefix(g, observer, i - 1);
    var nbr := nbrs[i - 1];
    assert nbr != observer;
    assert nbr !in nbrs[..i - 1] by {
      forall k | 0 <= k < i - 1 ensures nbrs[k] != nbr {
      }
    }
    assert !HasEdge(q, observer, nbr);
    AddEdgeList(q, observer, nbr);
    assert nbrs[..i] == nbrs[..i - 1] + [nbr];
    if observer !in q {
      assert nbrs[..i - 1] == [];
    }
  }

  /** After `i` expansions the observer is in the view exactly when `i > 0`,
      and its list is its first `i` neighbours, in the graph's order. */
  lemma {:induction false} OneHopPrefixObserver(g: Adj, observer: int, i: nat)
    requires ValidGraph(g) && observer in g && i <= |g[observer]|
    ensures var p := OneHopPrefix(g, observer, i);
      && (observer in p <==> i > 0)
      && (i > 0 ==> p[observer] == g[observer][..i])
  {
    if i > 0 {
      var nbr := g[observer][i - 1];
      assert HasEdge(g, observer, nbr) && HasEdge(g, nbr, observer);
      var r := AddEdge(OneHopPrefix(g, observer, i - 1), observer, nbr);
      OneHopPrefixObserver(g, observer, i - 1);
      OneHopStepObserver(g, observer, i);
      AddEdgesFromKeeps(r, nbr, g[nbr], observer);
    }
  }

  /** The 1-hop view: a simple graph whose edges are exactly the graph edges
      with an endpoint in {observer} plus its neighbours, whose nodes are the
      endpoints of those edges, and where the observer keeps its neighbour list;
      an isolated observer gets an empty view without itself. */
  lemma OneHopViewFacts(g: Adj, observer: int)
    requires ValidGraph(g) && observer in g
    ensures var view := VisibleSubgraph(g, observer, OneHop);
      && ValidGraph(view) && NoIsolated(view)
      && (forall a, b :: HasEdge(view, a, b) <==>
            HasEdge(g, a, b) && (a == observer || b == observer || a in g[observer] || b in g[observer]))
      && (observer in view <==> g[observer] != [])
      && (observer in view ==> view[observer] == g[observer])
      && (g[observer] == [] ==> view == map[])
  {
    var nbrs := g[observer];
    OneHopPrefixEdges(g, observer, |nbrs|);
    OneHopPrefixValid(g, observer, |nbrs|);
    OneHopPrefixObserver(g, observer, |nbrs|);
    assert nbrs[..|nbrs|] == nbrs;
    var view := VisibleSubgraph(g, observer, OneHop);
    forall a, b | HasEdge(g, a, b) && a == observer
      ensures a in nbrs || b in nbrs
    {
    }
    if nbrs == [] {
      assert view.Keys == {};
    }
  }

  /** The 2-hop view: the subgraph of the graph induced by the ball of
      radius 2 around the observer; it contains the observer with its whole
      neighbour list. */
  lemma TwoHopViewFacts(g: Adj, observer: int)
    requires ValidGraph(g) && observer in g
    ensures var view := VisibleSubgraph(g, observer, TwoHop);
      && ValidGraph(view)
      && view.Keys == Ball2(g, observer)
      && (forall x :: x in view <==>
            (x in g && (x == observer || x in g[observer] || exists y | y in g[observer] :: HasEdge(g, y, x))))
      && (forall a, b :: HasEdge(view, a, b) <==> HasEdge(g, a, b) && a in view && b in view)
      && observer in view && view[observer] == g[observer]
  {
    var ball := Ball2(g, observer);
    InducedSpec(g, ball);
    InducedValid(g, ball);
    forall x | x in g[observer] ensures x in ball {
      assert HasEdge(g, observer, x) && HasEdge(g, x, observer);
    }
    InducedList(g, ball, observer);
  }

  /** `is_visible` under "1-hop" agrees with the 1-hop view on every graph edge. */
  lemma OneHopVisibilityAgrees(g: Adj, observer: int)
    requires ValidGraph(g) && observer in g
    ensures forall u, v | HasEdge(g, u, v) ::
      VisibilityOracle(OneHop).IsVisible(g, observer, u, v) == Ok(HasEdge(VisibleSubgraph(g, observer, OneHop), u, v))
  {
    OneHopViewFacts(g, observer);
  }

  /** A node within two hops of the observer can be reached from it. */
  lemma WithinTwoHopsReachable(g: Adj, observer: int, x: int)
    requires ValidGraph(g) && observer in g && x in g && WithinTwoHops(g, observer, x)
    ensures Reachable(g, observer, x)
  {
    if x == observer {
      assert PathFromTo(g, [observer], observer, x);
    } else if HasEdge(g, observer, x) {
      assert PathFromTo(g, [observer, x], observer, x);
    } else {
      var y :| y in g[observer] && HasEdge(g, y, x);
      assert HasEdge(g, observer, y);
      assert PathFromTo(g, [observer, y, x], observer, x);
    }
  }

  /** Under "2-hop", for an observer and two endpoints that are nodes, the
      `NetworkXNoPath` branch changes nothing: the edge is visible exactly when
      both endpoints are within distance 2. */
  lemma TwoHopIsVisibleMeaning(g: Adj, observer: int, u: int, v: int)
    requires ValidGraph(g) && observer in g && u in g && v in g
    ensures VisibilityOracle(TwoHop).IsVisible(g, observer, u, v)
         == Ok(WithinTwoHops(g, observer, u) && WithinTwoHops(g, observer, v))
  {
    if WithinTwoHops(g, observer, u) {
      WithinTwoHopsReachable(g, observer, u);
    }
    if WithinTwoHops(g, observer, v) {
      WithinTwoHopsReachable(g, observer, v);
    }
  }

  /** In a graph without edges every walk is a single node. */
  lemma EdgelessPaths(g: Adj, p: seq<int>)
    requires IsPath(g, p) && forall a | a in g :: g[a] == []
    ensures |p| == 1
  {
    assert |p| > 1 ==> HasEdge(g, p[0], p[1]);
  }

  /** Under "2-hop", an endpoint `u` the observer cannot reach makes the edge
      invisible before `v` is looked at: with nodes 0 and 1 and no edge, the
      edge (1, 7) is invisible to 0 although 7 is not a node. */
  lemma TwoHopUnreachableExample()
    ensures VisibilityOracle(TwoHop).IsVisible(map[0 := [], 1 := []], 0, 1, 7) == Ok(false)
  {
    var g: Adj := map[0 := [], 1 := []];
    forall p | IsPath(g, p)
      ensures |p| == 1
    {
      EdgelessPaths(g, p);
    }
    assert !Reachable(g, 0, 1);
  }

  /** `is_visible` under "2-hop" agrees with the 2-hop view on every graph
      edge: both endpoints within distance 2 exactly when the edge is in the view. */
  lemma TwoHopVisibilityAgrees(g: Adj, observer: int)
    requires ValidGraph(g) && observer in g
    ensures forall u, v | HasEdge(g, u, v) ::
      VisibilityOracle(TwoHop).IsVisible(g, observer, u, v) == Ok(HasEdge(VisibleSubgraph(g, observer, TwoHop), u, v))
  {
    TwoHopViewFacts(g, observer);
    forall u, v | HasEdge(g, u, v)
      ensures VisibilityOracle(TwoHop).IsVisible(g, observer, u, v)
           == Ok(WithinTwoHops(g, observer, u) && WithinTwoHops(g, observer, v))
    {
      assert HasEdge(g, v, u);
      TwoHopIsVisibleMeaning(g, observer, u, v);
    }
  }

  /** Under "global" every edge is visible, under an unknown policy none, and
      for both `get_visible_subgraph` falls back to the empty graph. */
  lemma OtherPoliciesEmpty(g: Adj, observer: int, policy: string, u: int, v: int)
    requires ValidGraph(g) && policy != OneHop && policy != TwoHop
    ensures VisibleSubgraph(g, observer, policy) == map[]
    ensures VisibilityOracle(policy).IsVisible(g, observer, u, v) == Ok(policy == Global)
  {
  }

  /** Under "1-hop" and "2-hop" the observer sees its own neighbourhood as in
      the graph: its degree, its neighbour list, and every edge at a neighbour. */
  lemma ObserverNeighbourhood(g: Adj, observer: int, policy: string)
    requires ValidGraph(g) && observer in g && (policy == OneHop || policy == TwoHop)
    ensures var view := VisibleSubgraph(g, observer, policy);
      && ValidGraph(view)
      && Degree(view, observer) == |g[observer]|
      && (observer in view ==> view[observer] == g[observer])
      && (forall a, b | a in g[observer] :: HasEdge(view, a, b) <==> HasEdge(g, a, b))
  {
    if policy == OneHop {
      OneHopViewFacts(g, observer);
    } else {
      TwoHopViewFacts(g, observer);
      var view := VisibleSubgraph(g, observer, policy);
      forall a, b | a in g[observer] && HasEdge(g, a, b)
        ensures HasEdge(view, a, b)
      {
        assert HasEdge(g, observer, a) && HasEdge(g, a, observer);
        assert HasEdge(g, b, a);
        assert WithinTwoHops(g, observer, b);
      }
    }
  }

  // ---------------------------------------------------------------------
  // The degree ranking and the top-k public set
  // ---------------------------------------------------------------------

  lemma {:induction false} InsertByDegreeElems(g: Adj, x: int, s: seq<int>)
    ensures forall y :: y in InsertByDegree(g, x, s) <==> y in s || y == x
  {
    if s != [] && Degree(g, s[0]) >= Degree(g, x) {
      InsertByDegreeElems(g, x, s[1..]);
      assert s == [s[0]] + s[1..];
    }
  }

  lemma {:induction false} InsertByDegreePerm(g: Adj, x: int, s: seq<int>)
    ensures multiset(InsertByDegree(g, x, s)) == multiset(s) + multiset{x}
  {
    if s != [] && Degree(g, s[0]) >= Degree(g, x) {
      InsertByDegreePerm(g, x, s[1..]);
      assert s == [s[0]] + s[1..];
    }
  }

  lemma {:induction false} InsertByDegreeSorted(g: Adj, x: int, s: seq<int>)
    requires DescendingByDegree(g, s)
    ensures DescendingByDegree(g, InsertByDegree(g, x, s))
  {
    if s == [] {
    } else if Degree(g, s[0]) >= Degree(g, x) {
      var rest := s[1..];
      assert DescendingByDegree(g, rest) by {
        forall i, j | 0 <= i < j < |rest| ensures Degree(g, rest[i]) >= Degree(g, rest[j]) {
          assert rest[i] == s[i + 1] && rest[j] == s[j + 1];
        }
      }
      InsertByDegreeSorted(g, x, rest);
      InsertByDegreeElems(g, x, rest);
      var t := InsertByDegree(g, x, rest);
      var r := [s[0]] + t;
      assert r == InsertByDegree(g, x, s);
      forall j | 0 <= j < |t| ensures Degree(g, s[0]) >= Degree(g, t[j]) {
        var y := t[j];
        assert y in t;
        if y != x {
          assert y in rest;
          var k :| 0 <= k < |rest| && rest[k] == y;
          assert s[k + 1] == y;
        }
      }
      forall i, j | 0 <= i < j < |r| ensures Degree(g, r[i]) >= Degree(g, r[j]) {
        if i == 0 {
          assert r[j] == t[j - 1];
        } else {
          assert r[i] == t[i - 1] && r[j] == t[j - 1];
        }
      }
    } else {
      var r := [x] + s;
      assert r == InsertByDegree(g, x, s);
      forall i, j | 0 <= i < j < |r| ensures Degree(g, r[i]) >= Degree(g, r[j]) {
        if i == 0 {
          assert r[j] == s[j - 1];
          assert j - 1 == 0 || Degree(g, s[0]) >= Degree(g, s[j - 1]);
        } else {
          assert r[i] == s[i - 1] && r[j] == s[j - 1];
        }
      }
    }
  }

  lemma {:induction false} SortByDegreeSpec(g: Adj, s: seq<int>)
    ensures multiset(SortByDegree(g, s)) == multiset(s)
    ensures DescendingByDegree(g, SortByDegree(g, s))
  {
    if s != [] {
      var p := s[..|s| - 1];
      var x := s[|s| - 1];
      var sorted := SortByDegree(g, p);
      assert SortByDegree(g, s) == InsertByDegree(g, x, sorted);
      SortByDegreeSpec(g, p);
      assert multiset(s) == multiset(p) + multiset{x} by {
        assert s == p + [x];
      }
      InsertByDegreePerm(g, x, sorted);
      InsertByDegreeSorted(g, x, sorted);
    }
  }

  /** The "degree_top_k" public set has min(m, n) distinct graph nodes, and
      every public node has a degree at least that of every other node. */
  lemma TopKSpec(g: Adj, nodes: seq<int>, m: int)
    requires NoDup(nodes)
    ensures var top := TopK(g, nodes, m);
      && |top| == SliceEnd(|nodes|, m)
      && top <= Elems(nodes)
      && forall p, q | p in top && q in nodes && q !in top :: Degree(g, p) >= Degree(g, q)
  {
    var ranked := SortByDegree(g, nodes);
    SortByDegreeSpec(g, nodes);
    assert |ranked| == |multiset(ranked)| == |multiset(nodes)| == |nodes|;
    NoDupPermutation(ranked, nodes);
    var k := SliceEnd(|ranked|, m);
    var prefix := ranked[..k];
    assert NoDup(prefix);
    CardElems(prefix);
    var top := TopK(g, nodes, m);
    assert top == Elems(prefix);
    forall p | p in top ensures p in Elems(nodes) {
      assert p in ranked;
      assert p in multiset(ranked);
    }
    forall p, q | p in top && q in nodes && q !in top
      ensures Degree(g, p) >= Degree(g, q)
    {
      var i :| 0 <= i < k && prefix[i] == p;
      assert q in multiset(nodes);
      assert q in ranked;
      var j :| 0 <= j < |ranked| && ranked[j] == q;
      assert j >= k;
      assert ranked[i] == p;
    }
  }

  // ---------------------------------------------------------------------
  // Helper lemmas on sets and lists
  // ---------------------------------------------------------------------

  lemma {:induction false} CardElems(s: seq<int>)
    requires NoDup(s)
    ensures |Elems(s)| == |s|
  {
    if s != [] {
      var p := s[..|s| - 1];
      CardElems(p);
      assert Elems(s) == Elems(p) + {s[|s| - 1]};
      assert s[|s| - 1] !in Elems(p);
    }
  }

  lemma SubsetOfSize(pool: set<int>, m: nat) returns (s: set<int>)
    requires m <= |pool|
    ensures s <= pool && |s| == m
  {
    if m == 0 {
      s := {};
    } else {
      NonEmptyHasMember(pool);
      var x :| x in pool;
      var rest := SubsetOfSize(pool - {x}, m - 1);
      s := rest + {x};
    }
  }

  /** A multiset count of at most one for every value of a list without duplicates. */
  lemma {:induction false} NoDupCount(s: seq<int>, v: int)
    requires NoDup(s)
    ensures multiset(s)[v] <= 1
  {
    if s != [] {
      var p := s[..|s| - 1];
      NoDupCount(p, v);
      assert s == p + [s[|s| - 1]];
      if v == s[|s| - 1] {
        assert v !in p;
      }
    }
  }

  /** A permutation of a list without duplicates has none either. */
  lemma NoDupPermutation(a: seq<int>, b: seq<int>)
    requires multiset(a) == multiset(b) && NoDup(b)
    ensures NoDup(a)
  {
    forall i, j | 0 <= i < j < |a| ensures a[i] != a[j] {
      if a[i] == a[j] {
        var v := a[i];
        assert a == a[..j] + [a[j]] + a[j + 1..];
        assert a[..j][i] == v;
        assert v in multiset(a[..j]);
        assert multiset(a)[v] >= 2;
        NoDupCount(b, v);
        assert false;
      }
    }
  }
}
