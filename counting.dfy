/** The combinatorics behind the local statistics: binomial coefficients
    (`math.comb`), the pair count of the triangle loops, and the identities that
    tie the per-node counts to global edge, k-star and triangle counts. */
module Counting {
  import opened Graphs

  // ---------------------------------------------------------------------
  // Binomial coefficients
  // ---------------------------------------------------------------------

  /** `math.comb(n, k)` for non-negative arguments (0 when k > n), by Pascal's rule. */
  function Comb(n: nat, k: nat): nat {
    if k == 0 then 1
    else if n == 0 then 0
    else Comb(n - 1, k - 1) + Comb(n - 1, k)
  }

  /** There is no way to choose more elements than there are. */
  lemma {:induction false} CombAboveN(n: nat, k: nat)
    requires k > n
    ensures Comb(n, k) == 0
  {
    if n > 0 {
      CombAboveN(n - 1, k - 1);
      CombAboveN(n - 1, k);
    }
  }

  /** At least one way to choose at most n elements. */
  lemma {:induction false} CombPositive(n: nat, k: nat)
    requires k <= n
    ensures Comb(n, k) >= 1
  {
    if k > 0 {
      CombPositive(n - 1, k - 1);
    }
  }

  lemma {:induction false} CombOne(n: nat)
    ensures Comb(n, 1) == n
  {
    if n > 0 {
      CombOne(n - 1);
    }
  }

  /** comb(n, 2) = n(n-1)/2: the number of unordered pairs. */
  lemma {:induction false} CombTwo(n: nat)
    ensures 2 * Comb(n, 2) == n * (n - 1)
  {
    if n > 0 {
      CombTwo(n - 1);
      CombOne(n - 1);
    }
  }

  /** More elements give at least as many choices. */
  lemma {:induction false} CombMonotone(n: nat, m: nat, k: nat)
    requires n <= m
    ensures Comb(n, k) <= Comb(m, k)
  {
    if n < m {
      CombMonotone(n, m - 1, k);
      assert Comb(m - 1, k) <= Comb(m, k);
    }
  }

  // ---------------------------------------------------------------------
  // k-subsets
  // ---------------------------------------------------------------------

  /** The subsets of size k of a finite set. */
  ghost function KSubsets(s: set<int>, k: nat): set<set<int>> {
    set t | t <= s && |t| == k
  }

  /** Adds `x` to every set of `ts`. */
  ghost function AddToAll(ts: set<set<int>>, x: int): set<set<int>> {
    set t | t in ts :: t + {x}
  }

  /** Adding an element none of the sets holds keeps them apart. */
  lemma {:induction false} AddToAllCard(ts: set<set<int>>, x: int)
    requires forall t | t in ts :: x !in t
    ensures |AddToAll(ts, x)| == |ts|
    decreases |ts|
  {
    if ts != {} {
      var t :| t in ts;
      var rest := ts - {t};
      AddToAllCard(rest, x);
      assert AddToAll(ts, x) == AddToAll(rest, x) + {t + {x}};
      forall u | u in rest
        ensures u + {x} != t + {x}
      {
        assert u != t;
        assert u == (u + {x}) - {x};
        assert t == (t + {x}) - {x};
      }
    }
  }

  lemma KSubsetsWithX(s: set<int>, x: int, k: nat)
    requires x in s && k > 0
    ensures forall t | t in KSubsets(s, k) && x in t :: t in AddToAll(KSubsets(s - {x}, k - 1), x)
  {
    forall t | t in KSubsets(s, k) && x in t
      ensures t in AddToAll(KSubsets(s - {x}, k - 1), x)
    {
      var u := t - {x};
      assert u in KSubsets(s - {x}, k - 1);
      assert t == u + {x};
    }
  }

  lemma AddToAllInKSubsets(s: set<int>, x: int, k: nat)
    requires x in s && k > 0
    ensures AddToAll(KSubsets(s - {x}, k - 1), x) <= KSubsets(s, k)
  {
    forall t | t in AddToAll(KSubsets(s - {x}, k - 1), x)
      ensures t in KSubsets(s, k)
    {
      var u :| u in KSubsets(s - {x}, k - 1) && t == u + {x};
      assert x !in u;
      assert |t| == |u| + 1;
    }
  }

  /** The k-subsets of s split into those without x and those with x. */
  lemma KSubsetsSplit(s: set<int>, x: int, k: nat)
    requires x in s && k > 0
    ensures KSubsets(s, k) == KSubsets(s - {x}, k) + AddToAll(KSubsets(s - {x}, k - 1), x)
    ensures KSubsets(s - {x}, k) * AddToAll(KSubsets(s - {x}, k - 1), x) == {}
  {
    KSubsetsWithX(s, x, k);
    AddToAllInKSubsets(s, x, k);
    var without := KSubsets(s - {x}, k);
    var with := AddToAll(KSubsets(s - {x}, k - 1), x);
    assert forall t | t in without :: x !in t;
    assert forall t | t in with :: x in t;
    assert without <= KSubsets(s, k);
  }

  lemma KSubsetsZero(s: set<int>)
    ensures KSubsets(s, 0) == {{}}
  {
    forall t | t in KSubsets(s, 0) ensures t == {} {
      assert |t| == 0;
    }
    assert {} in KSubsets(s, 0);
  }

  lemma KSubsetsOfEmpty(k: nat)
    requires k > 0
    ensures KSubsets({}, k) == {}
  {
  }

  /** There are comb(n, k) ways to choose k elements of an n-element set. */
  lemma {:induction false} KSubsetsCard(s: set<int>, k: nat)
    ensures |KSubsets(s, k)| == Comb(|s|, k)
    decreases |s|
  {
    if k == 0 {
      KSubsetsZero(s);
    } else if s == {} {
      KSubsetsOfEmpty(k);
    } else {
      NonEmptyHasMember(s);
      var x :| x in s;
      var rest := s - {x};
      var without := KSubsets(rest, k);
      var with := AddToAll(KSubsets(rest, k - 1), x);
      assert |rest| == |s| - 1;
      assert |without| == Comb(|rest|, k) by {
        KSubsetsCard(rest, k);
      }
      assert |with| == Comb(|rest|, k - 1) by {
        KSubsetsCard(rest, k - 1);
        AddToAllCard(KSubsets(rest, k - 1), x);
      }
      assert |KSubsets(s, k)| == |without| + |with| by {
        KSubsetsSplit(s, x, k);
      }
    }
  }

  // ---------------------------------------------------------------------
  // Adjacent pairs among a list of neighbours (the local triangle loops)
  // ---------------------------------------------------------------------

  /** How many entries of `s` are adjacent to `a` in `view`: the inner loop
      `for j in ...: if has_edge(u, v): tri_count += 1` for one row. */
  function RowCount(view: Adj, a: int, s: seq<int>): nat {
    if s == [] then 0
    else RowCount(view, a, s[..|s| - 1]) + (if HasEdge(view, a, s[|s| - 1]) then 1 else 0)
  }

  /** The number of index pairs i < j of `s` whose entries are adjacent in
      `view`: what the double loop of `local_triangles` counts, row by row. */
  function ClosedPairs(view: Adj, s: seq<int>): nat {
    if s == [] then 0 else RowCount(view, s[0], s[1..]) + ClosedPairs(view, s[1..])
  }

  /** The members of `S` adjacent to `a`. */
  ghost function NbrsIn(view: Adj, a: int, S: set<int>): set<int> {
    set y | y in S && HasEdge(view, a, y)
  }

  /** An unordered pair, written smaller element first. */
  function Ord(a: int, b: int): (int, int) {
    if a < b then (a, b) else (b, a)
  }

  /** The unordered pairs of adjacent members of `S`. */
  ghost function AdjPairs(view: Adj, S: set<int>): set<(int, int)> {
    set a, b | a in S && b in S && a < b && HasEdge(view, a, b) :: (a, b)
  }

  /** A row counts the distinct neighbours of `a` among the entries. */
  lemma {:induction false} RowCountSet(view: Adj, a: int, s: seq<int>)
    requires NoDup(s)
    ensures RowCount(view, a, s) == |NbrsIn(view, a, Elems(s))|
  {
    if s != [] {
      var p := s[..|s| - 1];
      var x := s[|s| - 1];
      RowCountSet(view, a, p);
      assert x !in p;
      if HasEdge(view, a, x) {
        assert NbrsIn(view, a, Elems(s)) == NbrsIn(view, a, Elems(p)) + {x};
      } else {
        assert NbrsIn(view, a, Elems(s)) == NbrsIn(view, a, Elems(p));
      }
    }
  }

  /** The pairs through `x`, one for each member of `N` (none of them `x`). */
  ghost function PairsWith(x: int, N: set<int>): set<(int, int)> {
    set y | y in N :: Ord(x, y)
  }

  lemma {:induction false} PairsWithCard(x: int, N: set<int>)
    requires x !in N
    ensures |PairsWith(x, N)| == |N|
    decreases |N|
  {
    if N != {} {
      NonEmptyHasMember(N);
      var y :| y in N;
      var rest := N - {y};
      PairsWithCard(x, rest);
      assert PairsWith(x, N) == PairsWith(x, rest) + {Ord(x, y)};
      assert Ord(x, y) !in PairsWith(x, rest);
    }
  }

  /** Taking `x` out of `S` loses exactly the pairs through `x`: one per
      neighbour of `x` left in `S`. This is the change in a node's triangle
      count when one neighbour goes away. */
  lemma AdjPairsSplit(view: Adj, S: set<int>, x: int)
    requires ValidGraph(view) && x in S
    ensures |AdjPairs(view, S)| == |AdjPairs(view, S - {x})| + |NbrsIn(view, x, S - {x})|
  {
    var rest := S - {x};
    var through := PairsWith(x, NbrsIn(view, x, rest));
    forall p | p in AdjPairs(view, S)
      ensures p in AdjPairs(view, rest) + through
    {
      var (a, b) := p;
      if a == x {
        assert b in NbrsIn(view, x, rest);
      } else if b == x {
        assert HasEdge(view, b, a);
        assert a in NbrsIn(view, x, rest);
        assert p == Ord(x, a);
      }
    }
    forall p | p in through
      ensures p in AdjPairs(view, S)
    {
      var y :| y in NbrsIn(view, x, rest) && p == Ord(x, y);
      assert HasEdge(view, y, x);
    }
    assert AdjPairs(view, rest) <= AdjPairs(view, S);
    assert AdjPairs(view, S) == AdjPairs(view, rest) + through;
    assert AdjPairs(view, rest) * through == {};
    PairsWithCard(x, NbrsIn(view, x, rest));
  }

  /** The double loop counts each unordered pair of adjacent neighbours once. */
  lemma {:induction false} ClosedPairsSet(view: Adj, s: seq<int>)
    requires ValidGraph(view) && NoDup(s)
    ensures ClosedPairs(view, s) == |AdjPairs(view, Elems(s))|
  {
    if s != [] {
      var x := s[0];
      var rest := s[1..];
      ClosedPairsSet(view, rest);
      RowCountSet(view, x, rest);
      assert x !in rest;
      assert Elems(rest) == Elems(s) - {x};
      AdjPairsSplit(view, Elems(s), x);
    }
  }

  /** At most comb(n, 2) of the n(n-1)/2 pairs can be adjacent. */
  lemma {:induction false} ClosedPairsAtMostComb(view: Adj, s: seq<int>)
    ensures ClosedPairs(view, s) <= Comb(|s|, 2)
  {
    if s != [] {
      ClosedPairsAtMostComb(view, s[1..]);
      RowCountAtMost(view, s[0], s[1..]);
      CombOne(|s| - 1);
    }
  }

  lemma {:induction false} RowCountAtMost(view: Adj, a: int, s: seq<int>)
    ensures RowCount(view, a, s) <= |s|
  {
    if s != [] {
      RowCountAtMost(view, a, s[..|s| - 1]);
    }
  }

  /** Truncating the neighbour list (the 50-neighbour clip) can only lose pairs. */
  lemma ClosedPairsPrefix(view: Adj, s: seq<int>, k: nat)
    requires ValidGraph(view) && NoDup(s) && k <= |s|
    ensures ClosedPairs(view, s[..k]) <= ClosedPairs(view, s)
  {
    assert NoDup(s[..k]);
    ClosedPairsSet(view, s[..k]);
    ClosedPairsSet(view, s);
    assert AdjPairs(view, Elems(s[..k])) <= AdjPairs(view, Elems(s));
    SubsetCard(AdjPairs(view, Elems(s[..k])), AdjPairs(view, Elems(s)));
  }

  /** Two views with the same edges at the entries of `s` count the same pairs. */
  lemma {:induction false} ClosedPairsAgree(v1: Adj, v2: Adj, s: seq<int>)
    requires forall a, b | a in s :: HasEdge(v1, a, b) <==> HasEdge(v2, a, b)
    ensures ClosedPairs(v1, s) == ClosedPairs(v2, s)
  {
    if s != [] {
      RowCountAgree(v1, v2, s[0], s[1..]);
      ClosedPairsAgree(v1, v2, s[1..]);
    }
  }

  lemma {:induction false} RowCountAgree(v1: Adj, v2: Adj, a: int, s: seq<int>)
    requires forall b :: HasEdge(v1, a, b) <==> HasEdge(v2, a, b)
    ensures RowCount(v1, a, s) == RowCount(v2, a, s)
  {
    if s != [] {
      RowCountAgree(v1, v2, a, s[..|s| - 1]);
    }
  }

  lemma SubsetCard<T>(a: set<T>, b: set<T>)
    requires a <= b
    ensures |a| <= |b|
  {
    assert b == a + (b - a);
  }

  // ---------------------------------------------------------------------
  // Handshake: the degrees add up to twice the number of edges
  // ---------------------------------------------------------------------

  /** The degrees of the listed nodes, added up. */
  function DegreeSum(g: Adj, nodes: seq<int>): nat {
    if nodes == [] then 0 else DegreeSum(g, nodes[..|nodes| - 1]) + Degree(g, nodes[|nodes| - 1])
  }

  /** The edges of `g`, each once, smaller endpoint first. */
  ghost function Edges(g: Adj): set<(int, int)> {
    set a, b | a in g && b in g[a] && a < b :: (a, b)
  }

  /** The directed edges leaving the listed nodes. */
  ghost function Arcs(g: Adj, nodes: seq<int>): set<(int, int)> {
    set u, v | u in nodes && u in g && v in g[u] :: (u, v)
  }

  lemma {:induction false} ArcsFromCard(u: int, s: seq<int>)
    requires NoDup(s)
    ensures |set v | v in s :: (u, v)| == |s|
  {
    if s != [] {
      var p := s[..|s| - 1];
      ArcsFromCard(u, p);
      assert (set v | v in s :: (u, v)) == (set v | v in p :: (u, v)) + {(u, s[|s| - 1])};
      assert s[|s| - 1] !in p;
    }
  }

  lemma {:induction false} ArcsCard(g: Adj, nodes: seq<int>)
    requires ValidGraph(g) && NoDup(nodes)
    ensures |Arcs(g, nodes)| == DegreeSum(g, nodes)
  {
    if nodes != [] {
      var p := nodes[..|nodes| - 1];
      var u := nodes[|nodes| - 1];
      ArcsCard(g, p);
      assert u !in p;
      if u in g {
        ArcsFromCard(u, g[u]);
        assert Arcs(g, nodes) == Arcs(g, p) + set v | v in g[u] :: (u, v);
      } else {
        assert Arcs(g, nodes) == Arcs(g, p);
      }
    }
  }

  /** Each pair, reversed. */
  ghost function Reversed(E: set<(int, int)>): set<(int, int)> {
    set e | e in E :: (e.1, e.0)
  }

  lemma {:induction false} ReversedCard(E: set<(int, int)>)
    ensures |Reversed(E)| == |E|
    decreases |E|
  {
    if E != {} {
      var e :| e in E;
      ReversedCard(E - {e});
      assert Reversed(E) == Reversed(E - {e}) + {(e.1, e.0)};
    }
  }

  /** Handshake lemma: over all nodes the degrees add up to twice the number
      of edges, so half the degree sum is the edge count. */
  lemma Handshake(g: Adj, nodes: seq<int>)
    requires ValidGraph(g) && NoDup(nodes) && forall x :: x in nodes <==> x in g
    ensures DegreeSum(g, nodes) == 2 * |Edges(g)|
  {
    ArcsCard(g, nodes);
    ReversedCard(Edges(g));
    forall a | a in Arcs(g, nodes)
      ensures a in Edges(g) + Reversed(Edges(g))
    {
      var (u, v) := a;
      assert HasEdge(g, u, v) && HasEdge(g, v, u);
      if v < u {
        assert (v, u) in Edges(g);
      }
    }
    forall a | a in Reversed(Edges(g))
      ensures a in Arcs(g, nodes)
    {
      var e :| e in Edges(g) && a == (e.1, e.0);
      assert HasEdge(g, e.0, e.1);
      assert HasEdge(g, e.1, e.0);
    }
    assert Arcs(g, nodes) == Edges(g) + Reversed(Edges(g));
  }

  // ---------------------------------------------------------------------
  // Triangles: the local counts add up to three times the triangle count
  // ---------------------------------------------------------------------

  /** The local triangle counts of the listed nodes, added up. */
  function TriangleSum(g: Adj, nodes: seq<int>): nat {
    if nodes == [] then 0
    else
      var u := nodes[|nodes| - 1];
      TriangleSum(g, nodes[..|nodes| - 1]) + (if u in g then ClosedPairs(g, g[u]) else 0)
  }

  /** The triangles of `g`, each once, as its corners in increasing order. */
  ghost function Triangles(g: Adj): set<(int, int, int)> {
    set x, y, z | x in g && y in g[x] && z in g[x] && x < y < z && HasEdge(g, y, z) :: (x, y, z)
  }

  /** The triangles seen from the listed nodes: a node with two adjacent neighbours. */
  ghost function Wedges(g: Adj, nodes: seq<int>): set<(int, int, int)> {
    set u, a, b | u in nodes && u in g && a in g[u] && b in g[u] && a < b && HasEdge(g, a, b) :: (u, a, b)
  }

  /** A set of pairs, each tagged with `u`. */
  ghost function Tagged(u: int, P: set<(int, int)>): set<(int, int, int)> {
    set p | p in P :: (u, p.0, p.1)
  }

  lemma {:induction false} TaggedCard(u: int, P: set<(int, int)>)
    ensures |Tagged(u, P)| == |P|
    decreases |P|
  {
    if P != {} {
      var p :| p in P;
      TaggedCard(u, P - {p});
      assert Tagged(u, P) == Tagged(u, P - {p}) + {(u, p.0, p.1)};
    }
  }

  /** The triangles seen from `u`: its adjacent pairs of neighbours, tagged with `u`. */
  lemma WedgesStep(g: Adj, p: seq<int>, u: int)
    requires u in g
    ensures Wedges(g, p + [u]) == Wedges(g, p) + Tagged(u, AdjPairs(g, Elems(g[u])))
  {
    var at := Tagged(u, AdjPairs(g, Elems(g[u])));
    forall w | w in at ensures w in Wedges(g, p + [u]) {
      var q :| q in AdjPairs(g, Elems(g[u])) && w == (u, q.0, q.1);
      assert u in p + [u];
    }
    forall w | w in Wedges(g, p + [u]) ensures w in Wedges(g, p) + at {
      var (v, a, b) := w;
      assert v in p + [u];
      if v == u {
        assert (a, b) in AdjPairs(g, Elems(g[u]));
      } else {
        assert v in p;
      }
    }
    forall w | w in Wedges(g, p) ensures w in Wedges(g, p + [u]) {
      assert w.0 in p + [u];
    }
  }

  lemma WedgesSkip(g: Adj, p: seq<int>, u: int)
    requires u !in g
    ensures Wedges(g, p + [u]) == Wedges(g, p)
  {
  }

  lemma {:induction false} WedgesCard(g: Adj, nodes: seq<int>)
    requires ValidGraph(g) && NoDup(nodes)
    ensures |Wedges(g, nodes)| == TriangleSum(g, nodes)
  {
    if nodes != [] {
      var p := nodes[..|nodes| - 1];
      var u := nodes[|nodes| - 1];
      assert nodes == p + [u];
      WedgesCard(g, p);
      assert u !in p;
      if u in g {
        var at := Tagged(u, AdjPairs(g, Elems(g[u])));
        TaggedCard(u, AdjPairs(g, Elems(g[u])));
        ClosedPairsSet(g, g[u]);
        WedgesStep(g, p, u);
        assert forall w | w in Wedges(g, p) :: w.0 in p;
        assert forall w | w in at :: w.0 == u;
        assert Wedges(g, p) * at == {};
      } else {
        WedgesSkip(g, p, u);
      }
    }
  }

  /** A triangle seen from its first, second or third corner. */
  function Corner(t: (int, int, int), r: nat): (int, int, int) {
    if r == 0 then t else if r == 1 then (t.1, t.0, t.2) else (t.2, t.0, t.1)
  }

  ghost function SeenFrom(T: set<(int, int, int)>, r: nat): set<(int, int, int)> {
    set t | t in T :: Corner(t, r)
  }

  lemma {:induction false} SeenFromCard(T: set<(int, int, int)>, r: nat)
    ensures |SeenFrom(T, r)| == |T|
    decreases |T|
  {
    if T != {} {
      var t :| t in T;
      SeenFromCard(T - {t}, r);
      assert SeenFrom(T, r) == SeenFrom(T - {t}, r) + {Corner(t, r)};
    }
  }

  lemma WedgesAreCorners(g: Adj, nodes: seq<int>)
    requires ValidGraph(g) && forall x :: x in nodes <==> x in g
    ensures Wedges(g, nodes) == SeenFrom(Triangles(g), 0) + SeenFrom(Triangles(g), 1) + SeenFrom(Triangles(g), 2)
  {
    var T := Triangles(g);
    forall w | w in Wedges(g, nodes)
      ensures w in SeenFrom(T, 0) + SeenFrom(T, 1) + SeenFrom(T, 2)
    {
      var (u, a, b) := w;
      assert HasEdge(g, u, a) && HasEdge(g, u, b) && HasEdge(g, a, b);
      assert HasEdge(g, a, u) && HasEdge(g, b, u) && HasEdge(g, b, a);
      if u < a {
        assert (u, a, b) in T;
        assert w == Corner((u, a, b), 0);
      } else if u < b {
        assert (a, u, b) in T;
        assert w == Corner((a, u, b), 1);
      } else {
        assert (a, b, u) in T;
        assert w == Corner((a, b, u), 2);
      }
    }
    forall w | w in SeenFrom(T, 0) + SeenFrom(T, 1) + SeenFrom(T, 2)
      ensures w in Wedges(g, nodes)
    {
      var r: nat, t :| r <= 2 && t in T && w == Corner(t, r);
      var (x, y, z) := t;
      assert HasEdge(g, x, y) && HasEdge(g, x, z) && HasEdge(g, y, z);
      assert HasEdge(g, y, x) && HasEdge(g, z, x) && HasEdge(g, z, y);
    }
  }

  /** Each triangle is counted once at each of its three corners, so a third
      of the local counts added over all nodes is the number of triangles. */
  lemma TriangleSumIsThreeTriangles(g: Adj, nodes: seq<int>)
    requires ValidGraph(g) && NoDup(nodes) && forall x :: x in nodes <==> x in g
    ensures TriangleSum(g, nodes) == 3 * |Triangles(g)|
  {
    var T := Triangles(g);
    WedgesCard(g, nodes);
    WedgesAreCorners(g, nodes);
    SeenFromCard(T, 0);
    SeenFromCard(T, 1);
    SeenFromCard(T, 2);
    CornersDisjoint(T);
  }

  /** Seen from different corners, a triangle gives different triples: the
      viewing corner is below, between or above the other two. */
  lemma CornersDisjoint(T: set<(int, int, int)>)
    requires forall t | t in T :: t.0 < t.1 < t.2
    ensures SeenFrom(T, 0) * SeenFrom(T, 1) == {}
    ensures (SeenFrom(T, 0) + SeenFrom(T, 1)) * SeenFrom(T, 2) == {}
  {
    assert forall w | w in SeenFrom(T, 0) :: w.0 < w.1 < w.2;
    assert forall w | w in SeenFrom(T, 1) :: w.1 < w.0 < w.2;
    assert forall w | w in SeenFrom(T, 2) :: w.1 < w.2 < w.0;
  }
}
