/** Finite undirected graphs as networkx stores them: every node maps to the
    list of its neighbours, in the order the edges were inserted. */
module Graphs {

  type Adj = map<int, seq<int>>

  /** No value occurs twice in the list. */
  predicate NoDup(s: seq<int>) {
    forall i, j | 0 <= i < j < |s| :: s[i] != s[j]
  }

  /** networkx `has_edge`: false (not an error) when `u` is not a node. */
  predicate HasEdge(g: Adj, u: int, v: int) {
    u in g && v in g[u]
  }

  /** networkx `degree` of a node, taken as 0 for a node that is absent
      (the guard `degree(node) if node in subgraph else 0`). */
  function Degree(g: Adj, u: int): nat {
    if u in g then |g[u]| else 0
  }

  /** A simple undirected graph: no duplicate neighbours, no self loops,
      and the neighbour relation is symmetric (so every neighbour is a node). */
  ghost predicate ValidGraph(g: Adj) {
    && (forall u | u in g :: NoDup(g[u]) && u !in g[u])
    && (forall u, v | HasEdge(g, u, v) :: HasEdge(g, v, u))
  }

  /** The set of the elements of a list. */
  function Elems(s: seq<int>): (r: set<int>)
    ensures forall x :: x in r <==> x in s
  {
    set x | x in s
  }

  /** A non-empty set has a member (what a pick `x :| x in s` needs). */
  lemma NonEmptyHasMember(s: set<int>)
    requires s != {}
    ensures exists y :: y in s
  {
    if forall y :: y !in s {
      assert false;
    }
  }

  // ---------------------------------------------------------------------
  // networkx `Graph.add_edge`
  // ---------------------------------------------------------------------

  /** `add_edge(u, v)`: creates missing endpoints with empty neighbour lists,
      then appends each endpoint to the other's list unless already there. */
  function AddEdge(h: Adj, u: int, v: int): Adj
  {
    var h1 := if u in h then h else h[u := []];
    var h2 := if v in h1 then h1 else h1[v := []];
    var h3 := if v in h2[u] then h2 else h2[u := h2[u] + [v]];
    if u in h3[v] then h3 else h3[v := h3[v] + [u]]
  }

  /** `add_edge(u, v)` makes both endpoints nodes, adds exactly the edge in
      both directions, and leaves the lists of all other nodes alone. */
  lemma AddEdgeSpec(h: Adj, u: int, v: int)
    ensures var r := AddEdge(h, u, v);
      && r.Keys == h.Keys + {u, v}
      && (forall a, b :: HasEdge(r, a, b) <==> HasEdge(h, a, b) || (a == u && b == v) || (a == v && b == u))
      && (forall x | x in h && x != u && x != v :: r[x] == h[x])
  {
  }

  /** Adding an edge that is already present (in both directions) changes nothing. */
  lemma AddEdgePresent(h: Adj, u: int, v: int)
    requires HasEdge(h, u, v) && HasEdge(h, v, u)
    ensures AddEdge(h, u, v) == h
  {
  }

  /** The list of `u` after `add_edge(u, v)`: `v` is appended when it was missing. */
  lemma AddEdgeList(h: Adj, u: int, v: int)
    requires u != v
    ensures AddEdge(h, u, v)[u] == if HasEdge(h, u, v) then h[u] else (if u in h then h[u] else []) + [v]
    ensures AddEdge(h, u, v)[v] == if HasEdge(h, v, u) then h[v] else (if v in h then h[v] else []) + [u]
  {
  }

  /** Adding an edge between two distinct nodes keeps a graph simple. */
  lemma AddEdgeValid(h: Adj, u: int, v: int)
    requires ValidGraph(h) && u != v
    ensures ValidGraph(AddEdge(h, u, v))
  {
    var r := AddEdge(h, u, v);
    AddEdgeSpec(h, u, v);
    AddEdgeList(h, u, v);
    forall x | x in r
      ensures NoDup(r[x]) && x !in r[x]
    {
      if x != u && x != v {
        assert r[x] == h[x];
      }
    }
  }

  /** Adds the edges (u, x) for the x of `xs`, in order (an inner loop
      `for x in neighbors: add_edge(u, x)`). */
  function AddEdgesFrom(h: Adj, u: int, xs: seq<int>): Adj
  {
    if xs == [] then h else AddEdge(AddEdgesFrom(h, u, xs[..|xs| - 1]), u, xs[|xs| - 1])
  }

  lemma {:induction false} AddEdgesFromEdges(h: Adj, u: int, xs: seq<int>)
    ensures var r := AddEdgesFrom(h, u, xs);
      forall a, b :: HasEdge(r, a, b) <==> HasEdge(h, a, b) || (a == u && b in xs) || (b == u && a in xs)
    ensures AddEdgesFrom(h, u, xs).Keys == h.Keys + (if xs == [] then {} else {u}) + Elems(xs)
  {
    if xs != [] {
      var ys := xs[..|xs| - 1];
      AddEdgesFromEdges(h, u, ys);
      AddEdgeSpec(AddEdgesFrom(h, u, ys), u, xs[|xs| - 1]);
      assert forall x :: x in xs <==> x in ys || x == xs[|xs| - 1];
    }
  }

  /** A node other than `u` keeps its list when each edge towards it is already present. */
  lemma {:induction false} AddEdgesFromKeeps(h: Adj, u: int, xs: seq<int>, w: int)
    requires w in h && w != u
    requires w in xs ==> HasEdge(h, u, w) && HasEdge(h, w, u)
    ensures w in AddEdgesFrom(h, u, xs) && AddEdgesFrom(h, u, xs)[w] == h[w]
  {
    if xs != [] {
      var ys := xs[..|xs| - 1];
      var x := xs[|xs| - 1];
      assert w in ys ==> w in xs;
      AddEdgesFromKeeps(h, u, ys, w);
      AddEdgesFromEdges(h, u, ys);
      var p := AddEdgesFrom(h, u, ys);
      if x == w {
        AddEdgePresent(p, u, w);
      }
    }
  }

  lemma {:induction false} AddEdgesFromValid(h: Adj, u: int, xs: seq<int>)
    requires ValidGraph(h) && u !in xs
    ensures ValidGraph(AddEdgesFrom(h, u, xs))
  {
    if xs != [] {
      var ys := xs[..|xs| - 1];
      assert u !in ys by { assert forall x :: x in ys ==> x in xs; }
      AddEdgesFromValid(h, u, ys);
      AddEdgeValid(AddEdgesFrom(h, u, ys), u, xs[|xs| - 1]);
    }
  }

  /** Every list in a graph built by add_edge alone is non-empty: nodes
      enter only as endpoints of edges. */
  ghost predicate NoIsolated(h: Adj) {
    forall x | x in h :: h[x] != []
  }

  lemma AddEdgeNoIsolated(h: Adj, u: int, v: int)
    requires NoIsolated(h)
    ensures NoIsolated(AddEdge(h, u, v))
  {
    var r := AddEdge(h, u, v);
    AddEdgeSpec(h, u, v);
    forall x | x in r ensures r[x] != [] {
      if x == u { assert v in r[x]; }
      else if x == v { assert u in r[x]; }
      else { assert r[x] == h[x]; }
    }
  }

  lemma {:induction false} AddEdgesFromNoIsolated(h: Adj, u: int, xs: seq<int>)
    requires NoIsolated(h)
    ensures NoIsolated(AddEdgesFrom(h, u, xs))
  {
    if xs != [] {
      AddEdgesFromNoIsolated(h, u, xs[..|xs| - 1]);
      AddEdgeNoIsolated(AddEdgesFrom(h, u, xs[..|xs| - 1]), u, xs[|xs| - 1]);
    }
  }

  // ---------------------------------------------------------------------
  // Induced subgraphs (networkx `subgraph(nodes).copy()`)
  // ---------------------------------------------------------------------

  /** The elements of `s` that lie in `keep`, in their order. */
  function Filter(s: seq<int>, keep: set<int>): seq<int>
  {
    if s == [] then []
    else if s[0] in keep then [s[0]] + Filter(s[1..], keep)
    else Filter(s[1..], keep)
  }

  /** The filtered list holds exactly the kept elements of `s`, and is no longer than `s`. */
  lemma {:induction false} FilterSpec(s: seq<int>, keep: set<int>)
    ensures forall x :: x in Filter(s, keep) <==> x in s && x in keep
    ensures |Filter(s, keep)| <= |s|
  {
    if s != [] {
      FilterSpec(s[1..], keep);
      assert forall x :: x in s <==> x == s[0] || x in s[1..];
    }
  }

  lemma {:induction false} FilterNoDup(s: seq<int>, keep: set<int>)
    requires NoDup(s)
    ensures NoDup(Filter(s, keep))
  {
    if s != [] {
      FilterNoDup(s[1..], keep);
      FilterSpec(s[1..], keep);
      assert s[0] !in s[1..] by {
        forall k | 0 <= k < |s| - 1 ensures s[1..][k] != s[0] {
          assert s[1..][k] == s[k + 1];
        }
      }
    }
  }

  lemma {:induction false} FilterAll(s: seq<int>, keep: set<int>)
    requires forall x | x in s :: x in keep
    ensures Filter(s, keep) == s
  {
    if s != [] {
      var first := s[0];
      assert first in s;
      assert first in keep;
      assert forall x | x in s[1..] :: x in s;
      FilterAll(s[1..], keep);
      assert [s[0]] + s[1..] == s;
    }
  }

  /** The subgraph induced by `keep`: the nodes of `g` in `keep`, each with
      the neighbours that are also kept. */
  function Induced(g: Adj, keep: set<int>): Adj
  {
    map u | u in g && u in keep :: Filter(g[u], keep)
  }

  /** The induced subgraph has the kept nodes of `g`, and exactly the edges of
      `g` between two kept nodes. */
  lemma InducedSpec(g: Adj, keep: set<int>)
    ensures var r := Induced(g, keep);
      && r.Keys == g.Keys * keep
      && forall a, b :: HasEdge(r, a, b) <==> HasEdge(g, a, b) && a in keep && b in keep
  {
    forall u | u in g {
      FilterSpec(g[u], keep);
    }
  }

  lemma InducedValid(g: Adj, keep: set<int>)
    requires ValidGraph(g)
    ensures ValidGraph(Induced(g, keep))
  {
    var r := Induced(g, keep);
    InducedSpec(g, keep);
    forall u | u in r ensures NoDup(r[u]) && u !in r[u] {
      FilterNoDup(g[u], keep);
    }
  }

  /** A kept node whose neighbours are all kept keeps its neighbour list. */
  lemma InducedList(g: Adj, keep: set<int>, u: int)
    requires u in g && u in keep && forall x | x in g[u] :: x in keep
    ensures Induced(g, keep)[u] == g[u]
  {
    FilterAll(g[u], keep);
  }

  // ---------------------------------------------------------------------
  // Paths and reachability
  // ---------------------------------------------------------------------

  /** A non-empty walk along edges of `g`. */
  ghost predicate IsPath(g: Adj, p: seq<int>) {
    |p| > 0 && p[0] in g && forall i | 0 <= i < |p| - 1 :: HasEdge(g, p[i], p[i + 1])
  }

  ghost predicate PathFromTo(g: Adj, p: seq<int>, s: int, x: int) {
    IsPath(g, p) && p[0] == s && p[|p| - 1] == x
  }

  ghost predicate Reachable(g: Adj, s: int, x: int) {
    exists p :: PathFromTo(g, p, s, x)
  }

  /** The connected component of `s`: the nodes reachable from it. */
  ghost function Component(g: Adj, s: int): set<int> {
    set x | x in g && Reachable(g, s, x)
  }

  /** A set that contains `s` and every neighbour of each of its nodes
      contains the whole walk from `s`. */
  lemma {:induction false} ClosedContainsPath(g: Adj, keep: set<int>, p: seq<int>)
    requires IsPath(g, p) && p[0] in keep
    requires forall a, b | a in keep && HasEdge(g, a, b) :: b in keep
    ensures forall i | 0 <= i < |p| :: p[i] in keep
  {
    if |p| > 1 {
      var q := p[..|p| - 1];
      assert IsPath(g, q);
      ClosedContainsPath(g, keep, q);
      assert HasEdge(g, p[|p| - 2], p[|p| - 1]);
    }
  }
}
