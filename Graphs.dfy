/** The networkx `Graph` as the scripts use it: nodes kept in insertion order, edges as
    unordered pairs of nodes, `add_edge`/`remove_edge`/`has_edge`, `edges()`, `neighbors()`
    and `degree`. */
module Graphs {

  /** An undirected edge, kept with its smaller endpoint first; `lo == hi` is a self-loop. */
  datatype Edge = Edge(lo: int, hi: int)

  /** The edge between x and y, whichever order they are given in. */
  function Pair(x: int, y: int): (e: Edge)
    ensures e.lo <= e.hi
    ensures (e.lo == x && e.hi == y) || (e.lo == y && e.hi == x)
  {
    if x <= y then Edge(x, y) else Edge(y, x)
  }

  function PairOf(p: (int, int)): (e: Edge) {
    Pair(p.0, p.1)
  }

  /** A graph: `nodes` is the order `G.nodes()` reports, `edges` the set of its edges. */
  datatype Graph = Graph(nodes: seq<int>, edges: set<Edge>)

  predicate Distinct(s: seq<int>) {
    forall i, j :: 0 <= i < j < |s| ==> s[i] != s[j]
  }

  /** What every networkx graph satisfies: each node listed once, each edge between listed nodes. */
  predicate WellFormed(g: Graph) {
    && Distinct(g.nodes)
    && forall e :: e in g.edges ==> e.lo <= e.hi && e.lo in g.nodes && e.hi in g.nodes
  }

  /** A simple graph: well formed and without self-loops. */
  predicate Simple(g: Graph) {
    WellFormed(g) && forall e :: e in g.edges ==> e.lo < e.hi
  }

  /** The position of x in s. */
  function Index(s: seq<int>, x: int): (i: nat)
    requires x in s
    ensures i < |s| && s[i] == x && x !in s[..i]
  {
    if s[0] == x then 0 else assert s[1..][..Index(s[1..], x)] == s[1..Index(s[1..], x) + 1]; 1 + Index(s[1..], x)
  }

  lemma DistinctTail(s: seq<int>)
    requires Distinct(s) && s != []
    ensures Distinct(s[1..])
  {
    var t := s[1..];
    forall i, j | 0 <= i < j < |t| ensures t[i] != t[j] {
      assert t[i] == s[i + 1] && t[j] == s[j + 1];
    }
  }

  lemma {:induction false} IndexOfDistinct(s: seq<int>, i: nat)
    requires Distinct(s) && i < |s|
    ensures Index(s, s[i]) == i
  {
    if i > 0 {
      assert s[0] != s[i];
      var t := s[1..];
      assert t[i - 1] == s[i];
      DistinctTail(s);
      IndexOfDistinct(t, i - 1);
    }
  }

  function NodeSet(s: seq<int>): (r: set<int>) {
    set x | x in s
  }

  /** Adding a node label that may already be present. */
  function AddNode(s: seq<int>, x: int): (r: seq<int>) {
    if x in s then s else s + [x]
  }

  /** `G.add_edge(u, v)`: endpoints not yet in the graph join its node list, u before v. */
  function WithEdge(g: Graph, u: int, v: int): (h: Graph) {
    Graph(AddNode(AddNode(g.nodes, u), v), g.edges + {Pair(u, v)})
  }

  /** `G.remove_edge(u, v)` on an edge that is present. */
  function WithoutEdge(g: Graph, u: int, v: int): (h: Graph) {
    Graph(g.nodes, g.edges - {Pair(u, v)})
  }

  lemma AddNodeKeeps(s: seq<int>, x: int)
    requires Distinct(s)
    ensures Distinct(AddNode(s, x)) && NodeSet(AddNode(s, x)) == NodeSet(s) + {x}
  {
    if x !in s {
      var r := s + [x];
      assert forall y :: y in r <==> y in s || y == x;
    }
  }

  /** `add_edge` keeps a graph well formed, and changes no node list whose nodes it joins. */
  lemma WithEdgeWellFormed(g: Graph, u: int, v: int)
    requires WellFormed(g)
    ensures WellFormed(WithEdge(g, u, v))
    ensures NodeSet(WithEdge(g, u, v).nodes) == NodeSet(g.nodes) + {u, v}
    ensures u in g.nodes && v in g.nodes ==> WithEdge(g, u, v).nodes == g.nodes
  {
    AddNodeKeeps(g.nodes, u);
    AddNodeKeeps(AddNode(g.nodes, u), v);
  }

  /** `nx.Graph()` followed by `G.add_edges_from(pairs)`. */
  function FromEdges(pairs: seq<(int, int)>): (g: Graph)
  {
    if pairs == [] then Graph([], {})
    else
      var last := pairs[|pairs| - 1];
      WithEdge(FromEdges(pairs[..|pairs| - 1]), last.0, last.1)
  }

  /** A node has a positive degree exactly when some edge has it as an endpoint. */
  lemma DegreeIncident(E: set<Edge>, x: int)
    ensures Degree(E, x) > 0 <==> Incident(E, x) != {}
  {
    if Edge(x, x) in E {
      assert Edge(x, x) in Incident(E, x);
    }
  }

  /** No node of g is without an edge. */
  predicate NoIsolated(g: Graph) {
    forall x :: x in g.nodes ==> Degree(g.edges, x) > 0
  }

  lemma EdgeSetSnoc(init: seq<(int, int)>, last: (int, int))
    ensures EdgeSet(init + [last]) == EdgeSet(init) + {PairOf(last)}
  {
    assert forall p :: p in init + [last] <==> p in init || p == last;
  }

  /** A graph built from pairs is well formed and its edges are exactly the pairs with
      orientation and repetition forgotten. */
  lemma FromEdgesShape(pairs: seq<(int, int)>)
    ensures WellFormed(FromEdges(pairs))
    ensures FromEdges(pairs).edges == EdgeSet(pairs)
  {
    FromEdgesWellFormed(pairs);
    FromEdgesEdges(pairs);
  }

  lemma {:induction false} FromEdgesWellFormed(pairs: seq<(int, int)>)
    ensures WellFormed(FromEdges(pairs))
  {
    if pairs != [] {
      var init := pairs[..|pairs| - 1];
      var last := pairs[|pairs| - 1];
      FromEdgesWellFormed(init);
      WithEdgeWellFormed(FromEdges(init), last.0, last.1);
    }
  }

  lemma {:induction false} FromEdgesEdges(pairs: seq<(int, int)>)
    ensures FromEdges(pairs).edges == EdgeSet(pairs)
  {
    if pairs != [] {
      var init := pairs[..|pairs| - 1];
      var last := pairs[|pairs| - 1];
      FromEdgesEdges(init);
      assert pairs == init + [last];
      EdgeSetSnoc(init, last);
    }
  }

  /** Every node of a graph built from pairs is an endpoint of one of them. */
  lemma {:induction false} FromEdgesNoIsolated(pairs: seq<(int, int)>)
    ensures NoIsolated(FromEdges(pairs))
  {
    if pairs != [] {
      var init := pairs[..|pairs| - 1];
      var last := pairs[|pairs| - 1];
      var h := FromEdges(init);
      FromEdgesShape(init);
      FromEdgesNoIsolated(init);
      forall x | x in FromEdges(pairs).nodes ensures Degree(FromEdges(pairs).edges, x) > 0 {
        WithEdgeNode(h, last.0, last.1, x);
      }
    }
  }

  lemma WithEdgeNode(h: Graph, u: int, v: int, x: int)
    requires WellFormed(h) && NoIsolated(h)
    requires x in WithEdge(h, u, v).nodes
    ensures Degree(WithEdge(h, u, v).edges, x) > 0
  {
    var g := WithEdge(h, u, v);
    WithEdgeWellFormed(h, u, v);
    assert x in NodeSet(g.nodes);
    if x in h.nodes {
      DegreeIncident(h.edges, x);
      var e :| e in Incident(h.edges, x);
      assert e in Incident(g.edges, x);
      DegreeIncident(g.edges, x);
    } else {
      assert x == u || x == v;
      assert Pair(u, v) in Incident(g.edges, x);
      DegreeIncident(g.edges, x);
    }
  }

  /** A graph built from pairs has a self-loop exactly when one of the pairs is a loop. */
  lemma FromEdgesSimple(pairs: seq<(int, int)>)
    ensures Simple(FromEdges(pairs)) <==> forall p :: p in pairs ==> p.0 != p.1
  {
    FromEdgesShape(pairs);
    var g := FromEdges(pairs);
    if forall p :: p in pairs ==> p.0 != p.1 {
      forall e | e in g.edges ensures e.lo < e.hi {
        var p :| p in pairs && PairOf(p) == e;
      }
    } else {
      var p :| p in pairs && p.0 == p.1;
      assert PairOf(p) in g.edges;
    }
  }

  // ---------------------------------------------------------------------------------------
  // `G.edges()`: every edge once, grouped by the first endpoint in node order and written
  // with the endpoint that comes first in node order first.

  /** The pairs (s[i], s[j]) for j from `from` on that are edges. */
  function Row(s: seq<int>, i: nat, from: nat, E: set<Edge>): (r: seq<(int, int)>)
    requires i < |s| && from <= |s|
    decreases |s| - from
  {
    if from == |s| then []
    else (if Pair(s[i], s[from]) in E then [(s[i], s[from])] else []) + Row(s, i, from + 1, E)
  }

  /** The rows of s[i], s[i+1], ... one after the other. */
  function Rows(s: seq<int>, i: nat, E: set<Edge>): (r: seq<(int, int)>)
    requires i <= |s|
    decreases |s| - i
  {
    if i == |s| then [] else Row(s, i, i, E) + Rows(s, i + 1, E)
  }

  /** `list(G.edges())`. */
  function EdgeList(g: Graph): (r: seq<(int, int)>) {
    Rows(g.nodes, 0, g.edges)
  }

  /** p is an edge of g written with its earlier node (in node order) first. */
  predicate Oriented(g: Graph, p: (int, int)) {
    && p.0 in g.nodes && p.1 in g.nodes
    && Index(g.nodes, p.0) <= Index(g.nodes, p.1)
    && PairOf(p) in g.edges
  }

  lemma {:induction false} RowMember(s: seq<int>, i: nat, from: nat, E: set<Edge>, p: (int, int))
    requires Distinct(s) && i < |s| && from <= |s|
    ensures p in Row(s, i, from, E) <==> p.0 == s[i] && p.1 in s && Index(s, p.1) >= from && PairOf(p) in E
    decreases |s| - from
  {
    if from < |s| {
      var head := if Pair(s[i], s[from]) in E then [(s[i], s[from])] else [];
      var rest := Row(s, i, from + 1, E);
      assert p in Row(s, i, from, E) <==> p in head || p in rest;
      RowMember(s, i, from + 1, E, p);
      IndexOfDistinct(s, from);
      assert p in head <==> p.0 == s[i] && p.1 == s[from] && PairOf(p) in E;
    }
  }

  lemma {:induction false} RowsMember(s: seq<int>, i: nat, E: set<Edge>, p: (int, int))
    requires Distinct(s) && i <= |s|
    ensures p in Rows(s, i, E) <==>
      p.0 in s && p.1 in s && i <= Index(s, p.0) <= Index(s, p.1) && PairOf(p) in E
    decreases |s| - i
  {
    if i < |s| {
      var row := Row(s, i, i, E);
      var rest := Rows(s, i + 1, E);
      assert p in Rows(s, i, E) <==> p in row || p in rest;
      RowsMember(s, i + 1, E, p);
      RowMember(s, i, i, E, p);
      IndexOfDistinct(s, i);
      if p.0 in s {
        assert Index(s, p.0) == i <==> p.0 == s[i];
      }
    }
  }

  /** `G.edges()` lists exactly the edges of g, each one oriented by node order. */
  lemma EdgeListMember(g: Graph, p: (int, int))
    requires WellFormed(g)
    ensures p in EdgeList(g) <==> Oriented(g, p)
  {
    RowsMember(g.nodes, 0, g.edges, p);
  }

  /** No two entries of s stand for the same undirected edge. */
  predicate DistinctEdges(s: seq<(int, int)>) {
    forall i, j :: 0 <= i < j < |s| ==> PairOf(s[i]) != PairOf(s[j])
  }

  lemma DistinctEdgesConcat(a: seq<(int, int)>, b: seq<(int, int)>)
    requires DistinctEdges(a) && DistinctEdges(b)
    requires forall x, y :: x in a && y in b ==> PairOf(x) != PairOf(y)
    ensures DistinctEdges(a + b)
  {
    var c := a + b;
    forall i, j | 0 <= i < j < |c| ensures PairOf(c[i]) != PairOf(c[j]) {
      if j < |a| {
        assert c[i] == a[i] && c[j] == a[j];
      } else if i >= |a| {
        assert c[i] == b[i - |a|] && c[j] == b[j - |a|];
      } else {
        assert c[i] in a && c[j] in b;
      }
    }
  }

  lemma {:induction false} RowDistinct(s: seq<int>, i: nat, from: nat, E: set<Edge>)
    requires Distinct(s) && i < |s| && from <= |s|
    ensures DistinctEdges(Row(s, i, from, E))
    decreases |s| - from
  {
    if from < |s| {
      RowDistinct(s, i, from + 1, E);
      var head := if Pair(s[i], s[from]) in E then [(s[i], s[from])] else [];
      forall x, y | x in head && y in Row(s, i, from + 1, E) ensures PairOf(x) != PairOf(y) {
        RowMember(s, i, from + 1, E, y);
        IndexOfDistinct(s, from);
      }
      DistinctEdgesConcat(head, Row(s, i, from + 1, E));
    }
  }

  lemma {:induction false} RowsDistinct(s: seq<int>, i: nat, E: set<Edge>)
    requires Distinct(s) && i <= |s|
    ensures DistinctEdges(Rows(s, i, E))
    decreases |s| - i
  {
    if i < |s| {
      RowsDistinct(s, i + 1, E);
      RowDistinct(s, i, i, E);
      forall x, y | x in Row(s, i, i, E) && y in Rows(s, i + 1, E) ensures PairOf(x) != PairOf(y) {
        RowRowsApart(s, i, E, x, y);
      }
      DistinctEdgesConcat(Row(s, i, i, E), Rows(s, i + 1, E));
    }
  }

  lemma RowRowsApart(s: seq<int>, i: nat, E: set<Edge>, x: (int, int), y: (int, int))
    requires Distinct(s) && i < |s|
    requires x in Row(s, i, i, E) && y in Rows(s, i + 1, E)
    ensures PairOf(x) != PairOf(y)
  {
    RowMember(s, i, i, E, x);
    RowsMember(s, i + 1, E, y);
    IndexOfDistinct(s, i);
    assert x.0 == s[i];
    assert y.0 != s[i] && y.1 != s[i];
  }

  /** The undirected edges a list of pairs stands for. */
  function EdgeSet(s: seq<(int, int)>): (r: set<Edge>) {
    set p | p in s :: PairOf(p)
  }

  lemma {:induction false} DistinctEdgesCount(s: seq<(int, int)>)
    requires DistinctEdges(s)
    ensures |EdgeSet(s)| == |s|
  {
    if s != [] {
      var t := s[1..];
      assert DistinctEdges(t) by {
        forall i, j | 0 <= i < j < |t| ensures PairOf(t[i]) != PairOf(t[j]) {
          assert t[i] == s[i + 1] && t[j] == s[j + 1];
        }
      }
      DistinctEdgesCount(t);
      assert EdgeSet(s) == {PairOf(s[0])} + EdgeSet(t) by {
        assert forall p :: p in s <==> p == s[0] || p in t;
      }
      assert PairOf(s[0]) !in EdgeSet(t) by {
        forall j | 0 <= j < |t| ensures PairOf(t[j]) != PairOf(s[0]) {
          assert t[j] == s[j + 1];
        }
      }
    }
  }

  /** `G.edges()` stands for the edge set of g, lists no edge twice and has one entry per edge. */
  lemma EdgeListEdges(g: Graph)
    requires WellFormed(g)
    ensures DistinctEdges(EdgeList(g))
    ensures EdgeSet(EdgeList(g)) == g.edges
    ensures |EdgeList(g)| == |g.edges|
  {
    RowsDistinct(g.nodes, 0, g.edges);
    forall e | e in g.edges ensures e in EdgeSet(EdgeList(g)) {
      var p := if Index(g.nodes, e.lo) <= Index(g.nodes, e.hi) then (e.lo, e.hi) else (e.hi, e.lo);
      EdgeListMember(g, p);
    }
    forall p | p in EdgeList(g) ensures PairOf(p) in g.edges {
      EdgeListMember(g, p);
    }
    DistinctEdgesCount(EdgeList(g));
  }

  // ---------------------------------------------------------------------------------------
  // Neighbours and degrees

  function NeighborsIn(s: seq<int>, x: int, E: set<Edge>): (r: seq<int>)
    ensures forall y :: y in r <==> y in s && Pair(x, y) in E
    ensures Distinct(s) ==> Distinct(r)
  {
    if s == [] then []
    else (if Pair(x, s[0]) in E then [s[0]] else []) + NeighborsIn(s[1..], x, E)
  }

  /** `list(G.neighbors(x))`: the nodes joined to x by an edge (x itself if it has a self-loop). */
  function Neighbors(g: Graph, x: int): (r: seq<int>)
    requires WellFormed(g)
    ensures forall y :: y in r <==> Pair(x, y) in g.edges
    ensures Distinct(r)
  {
    NeighborsIn(g.nodes, x, g.edges)
  }

  /** The edges with x as an endpoint. */
  function Incident(E: set<Edge>, x: int): (r: set<Edge>) {
    set e | e in E && (e.lo == x || e.hi == x)
  }

  /** `G.degree(x)`: the number of incident edges, where a self-loop counts twice. */
  function Degree(E: set<Edge>, x: int): (d: nat) {
    |Incident(E, x)| + if Edge(x, x) in E then 1 else 0
  }

  /** The degrees of the nodes in s, as a multiset. */
  function Degrees(E: set<Edge>, s: seq<int>): (r: multiset<nat>) {
    if s == [] then multiset{} else multiset{Degree(E, s[0])} + Degrees(E, s[1..])
  }

  /** `sorted(dict(G.degree()).values())`, as a multiset. */
  function DegreeSequence(g: Graph): (r: multiset<nat>) {
    Degrees(g.edges, g.nodes)
  }

  lemma {:induction false} DegreesConcat(E: set<Edge>, a: seq<int>, b: seq<int>)
    ensures Degrees(E, a + b) == Degrees(E, a) + Degrees(E, b)
  {
    if a != [] {
      assert (a + b)[1..] == a[1..] + b;
      DegreesConcat(E, a[1..], b);
    } else {
      assert a + b == b;
    }
  }

  lemma DegreesRemove(E: set<Edge>, b: seq<int>, j: nat)
    requires j < |b|
    ensures Degrees(E, b) == multiset{Degree(E, b[j])} + Degrees(E, b[..j] + b[j + 1..])
  {
    assert b == b[..j] + ([b[j]] + b[j + 1..]);
    DegreesConcat(E, b[..j], [b[j]] + b[j + 1..]);
    DegreesConcat(E, [b[j]], b[j + 1..]);
    DegreesConcat(E, b[..j], b[j + 1..]);
  }

  lemma MultisetRemoveAt(b: seq<int>, j: nat)
    requires j < |b|
    ensures multiset(b[..j] + b[j + 1..]) == multiset(b) - multiset{b[j]}
  {
    assert b == b[..j] + [b[j]] + b[j + 1..];
  }

  /** The degree multiset depends only on the nodes as a multiset, not on their order. */
  lemma {:induction false} DegreesPermutation(E: set<Edge>, a: seq<int>, b: seq<int>)
    requires multiset(a) == multiset(b)
    ensures Degrees(E, a) == Degrees(E, b)
  {
    if a != [] {
      var j := MatchHead(a, b);
      var rest := b[..j] + b[j + 1..];
      DegreesRemove(E, b, j);
      DegreesPermutation(E, a[1..], rest);
    } else {
      assert b == [];
    }
  }

  /** Where the first item of a sits in b, a permutation of a, and what is left on both sides. */
  lemma MatchHead(a: seq<int>, b: seq<int>) returns (j: nat)
    requires a != [] && multiset(a) == multiset(b)
    ensures j < |b| && b[j] == a[0]
    ensures multiset(a[1..]) == multiset(b[..j] + b[j + 1..])
  {
    var x := a[0];
    assert x in multiset(b);
    j :| 0 <= j < |b| && b[j] == x;
    MultisetRemoveAt(b, j);
    assert multiset(a[1..]) == multiset(a) - multiset{x} by {
      assert a == [x] + a[1..];
    }
  }

  lemma DistinctMultiset(a: seq<int>, b: seq<int>)
    requires Distinct(a) && Distinct(b) && NodeSet(a) == NodeSet(b)
    ensures multiset(a) == multiset(b)
  {
    DistinctMultiplicity(a);
    DistinctMultiplicity(b);
    forall x ensures multiset(a)[x] == multiset(b)[x] {
      assert x in a <==> x in NodeSet(a);
      assert x in b <==> x in NodeSet(b);
    }
  }

  lemma {:induction false} DistinctMultiplicity(s: seq<int>)
    requires Distinct(s)
    ensures forall x :: multiset(s)[x] == if x in s then 1 else 0
  {
    if s != [] {
      var t := s[1..];
      assert s == [s[0]] + t;
      assert Distinct(t) by {
        forall i, j | 0 <= i < j < |t| ensures t[i] != t[j] {
          assert t[i] == s[i + 1] && t[j] == s[j + 1];
        }
      }
      DistinctMultiplicity(t);
      assert s[0] !in t by {
        forall j | 0 <= j < |t| ensures t[j] != s[0] {
          assert t[j] == s[j + 1];
        }
      }
      assert multiset(s) == multiset{s[0]} + multiset(t);
    }
  }

  /** Two graphs whose node lists hold the same nodes and whose degrees agree on them have
      the same degree sequence. */
  lemma SameDegreeSequence(g: Graph, h: Graph)
    requires Distinct(g.nodes) && Distinct(h.nodes) && NodeSet(g.nodes) == NodeSet(h.nodes)
    requires forall x :: x in g.nodes ==> Degree(g.edges, x) == Degree(h.edges, x)
    ensures DegreeSequence(g) == DegreeSequence(h)
  {
    DistinctMultiset(g.nodes, h.nodes);
    DegreesPermutation(h.edges, g.nodes, h.nodes);
    DegreesPointwise(g.edges, h.edges, g.nodes);
  }

  lemma {:induction false} DegreesPointwise(E: set<Edge>, F: set<Edge>, s: seq<int>)
    requires forall x :: x in s ==> Degree(E, x) == Degree(F, x)
    ensures Degrees(E, s) == Degrees(F, s)
  {
    if s != [] {
      DegreesPointwise(E, F, s[1..]);
    }
  }

  /** Removing a present edge lowers the degree of each of its endpoints by one (a self-loop's
      by two) and leaves every other degree alone. */
  lemma RemoveIncident(E: set<Edge>, e: Edge, x: int)
    requires e in E
    ensures |Incident(E - {e}, x)| == |Incident(E, x)| - (if e.lo == x || e.hi == x then 1 else 0)
  {
    if e.lo == x || e.hi == x {
      assert Incident(E - {e}, x) == Incident(E, x) - {e};
    } else {
      assert Incident(E - {e}, x) == Incident(E, x);
    }
  }

  /** Adding an absent edge raises the degree of each of its endpoints by one. */
  lemma AddIncident(E: set<Edge>, e: Edge, x: int)
    requires e !in E
    ensures |Incident(E + {e}, x)| == |Incident(E, x)| + (if e.lo == x || e.hi == x then 1 else 0)
  {
    if e.lo == x || e.hi == x {
      assert Incident(E + {e}, x) == Incident(E, x) + {e};
    } else {
      assert Incident(E + {e}, x) == Incident(E, x);
    }
  }

  // ---------------------------------------------------------------------------------------
  // Relabelling

  /** `{node: base + i for i, node in enumerate(s)}`. */
  function Numbering(s: seq<int>, base: int): (m: map<int, int>)
    requires Distinct(s)
    ensures forall x :: x in m <==> x in s
    ensures forall i :: 0 <= i < |s| ==> m[s[i]] == base + i
  {
    var m := map x | x in s :: base + Index(s, x);
    assert forall i :: 0 <= i < |s| ==> m[s[i]] == base + i by {
      forall i | 0 <= i < |s| ensures m[s[i]] == base + i {
        IndexOfDistinct(s, i);
      }
    }
    m
  }

  /** Every edge of E is normalised and has both endpoints in the domain of m. */
  predicate Over(E: set<Edge>, m: map<int, int>) {
    forall e :: e in E ==> e.lo <= e.hi && e.lo in m && e.hi in m
  }

  /** The edges of E with each endpoint x replaced by m[x]. */
  function Image(E: set<Edge>, m: map<int, int>): (r: set<Edge>)
    requires Over(E, m)
  {
    set e | e in E :: Pair(m[e.lo], m[e.hi])
  }

  predicate Injective(m: map<int, int>) {
    forall x, y :: x in m && y in m && x != y ==> m[x] != m[y]
  }

  /** Each label of s put through m. */
  function MapSeq(s: seq<int>, m: map<int, int>): (r: seq<int>)
    requires forall i :: 0 <= i < |s| ==> s[i] in m
    ensures |r| == |s| && forall i :: 0 <= i < |s| ==> r[i] == m[s[i]]
  {
    if s == [] then [] else [m[s[0]]] + MapSeq(s[1..], m)
  }

  lemma Covered(s: seq<int>, m: map<int, int>)
    requires forall x :: x in s ==> x in m
    ensures forall i :: 0 <= i < |s| ==> s[i] in m
  {
    forall i | 0 <= i < |s| ensures s[i] in m {
      var x := s[i];
      assert x in s;
      assert x in m;
    }
  }

  /** `nx.relabel_nodes(g, m)` for a map m defined on every node: the nodes in their old order
      under their new names, and the edges carried over. */
  function Relabel(g: Graph, m: map<int, int>): (h: Graph)
    requires WellFormed(g) && forall x :: x in g.nodes ==> x in m
  {
    Covered(g.nodes, m);
    Graph(MapSeq(g.nodes, m), Image(g.edges, m))
  }

  /** An injective relabelling maps edges one to one: an edge between x and y exists in g
      exactly when one between m[x] and m[y] exists afterwards. */
  lemma ImageMember(E: set<Edge>, m: map<int, int>, x: int, y: int)
    requires Over(E, m)
    requires Injective(m) && x in m && y in m
    ensures Pair(x, y) in E <==> Pair(m[x], m[y]) in Image(E, m)
  {
    if Pair(m[x], m[y]) in Image(E, m) {
      var e :| e in E && Pair(m[e.lo], m[e.hi]) == Pair(m[x], m[y]);
      assert (m[e.lo] == m[x] && m[e.hi] == m[y]) || (m[e.lo] == m[y] && m[e.hi] == m[x]);
      assert Pair(e.lo, e.hi) == e;
    }
  }

  lemma {:induction false} InjectiveImageCount(E: set<Edge>, m: map<int, int>)
    requires Over(E, m)
    requires Injective(m)
    ensures |Image(E, m)| == |E|
    decreases |E|
  {
    if E != {} {
      var e :| e in E;
      var rest := E - {e};
      InjectiveImageCount(rest, m);
      assert Image(E, m) == Image(rest, m) + {Pair(m[e.lo], m[e.hi])};
      assert Pair(e.lo, e.hi) == e;
      ImageMember(rest, m, e.lo, e.hi);
    }
  }

  /** An injective relabelling keeps every degree: the degree of m[x] afterwards is the degree
      of x before. */
  lemma ImageDegree(E: set<Edge>, m: map<int, int>, x: int)
    requires Over(E, m)
    requires Injective(m) && x in m
    ensures Degree(Image(E, m), m[x]) == Degree(E, x)
  {
    var inc := Incident(E, x);
    InjectiveImageCount(inc, m);
    assert Incident(Image(E, m), m[x]) == Image(inc, m) by {
      forall f | f in Incident(Image(E, m), m[x]) ensures f in Image(inc, m) {
        var e :| e in E && Pair(m[e.lo], m[e.hi]) == f;
        assert m[e.lo] == m[x] || m[e.hi] == m[x];
        assert e.lo == x || e.hi == x;
      }
    }
    ImageMember(E, m, x, x);
    assert Pair(x, x) == Edge(x, x);
    assert Pair(m[x], m[x]) == Edge(m[x], m[x]);
  }

  lemma {:induction false} DegreesMapped(E: set<Edge>, m: map<int, int>, s: seq<int>)
    requires Over(E, m) && Injective(m) && forall i :: 0 <= i < |s| ==> s[i] in m
    ensures Degrees(Image(E, m), MapSeq(s, m)) == Degrees(E, s)
  {
    if s != [] {
      assert MapSeq(s, m)[1..] == MapSeq(s[1..], m);
      ImageDegree(E, m, s[0]);
      DegreesMapped(E, m, s[1..]);
    }
  }

  /** Relabelling by an injective map gives an isomorphic graph: it is well formed, has as many
      nodes and edges, joins m[x] and m[y] exactly when g joins x and y, gives every m[x] the
      degree of x, and so has the same degree sequence. Its nodes are the images of g's. */
  lemma RelabelIsomorphic(g: Graph, m: map<int, int>)
    requires WellFormed(g) && Injective(m) && forall x :: x in g.nodes ==> x in m
    ensures var h := Relabel(g, m);
      && WellFormed(h)
      && |h.nodes| == |g.nodes| && |h.edges| == |g.edges|
      && (forall x, y :: x in g.nodes && y in g.nodes ==> (Pair(x, y) in g.edges <==> Pair(m[x], m[y]) in h.edges))
      && (forall x :: x in g.nodes ==> Degree(h.edges, m[x]) == Degree(g.edges, x))
      && NodeSet(h.nodes) == (set x | x in g.nodes :: m[x])
      && DegreeSequence(h) == DegreeSequence(g)
  {
    RelabelWellFormed(g, m);
    RelabelEdges(g, m);
    RelabelNodeSet(g, m);
    assert Over(g.edges, m);
    Covered(g.nodes, m);
    DegreesMapped(g.edges, m, g.nodes);
  }

  lemma RelabelWellFormed(g: Graph, m: map<int, int>)
    requires WellFormed(g) && Injective(m) && forall x :: x in g.nodes ==> x in m
    ensures WellFormed(Relabel(g, m)) && |Relabel(g, m).nodes| == |g.nodes|
  {
    var h := Relabel(g, m);
    Covered(g.nodes, m);
    assert Distinct(h.nodes) by {
      forall i, j | 0 <= i < j < |h.nodes| ensures h.nodes[i] != h.nodes[j] {
        assert g.nodes[i] in g.nodes && g.nodes[j] in g.nodes;
      }
    }
    forall e | e in h.edges ensures e.lo <= e.hi && e.lo in h.nodes && e.hi in h.nodes {
      var f :| f in g.edges && Pair(m[f.lo], m[f.hi]) == e;
      assert m[f.lo] == h.nodes[Index(g.nodes, f.lo)];
      assert m[f.hi] == h.nodes[Index(g.nodes, f.hi)];
    }
  }

  lemma RelabelEdges(g: Graph, m: map<int, int>)
    requires WellFormed(g) && Injective(m) && forall x :: x in g.nodes ==> x in m
    ensures var h := Relabel(g, m);
      && |h.edges| == |g.edges|
      && (forall x, y :: x in g.nodes && y in g.nodes ==> (Pair(x, y) in g.edges <==> Pair(m[x], m[y]) in h.edges))
      && (forall x :: x in g.nodes ==> Degree(h.edges, m[x]) == Degree(g.edges, x))
  {
    var h := Relabel(g, m);
    assert Over(g.edges, m);
    assert h.edges == Image(g.edges, m);
    InjectiveImageCount(g.edges, m);
    forall x, y | x in g.nodes && y in g.nodes ensures Pair(x, y) in g.edges <==> Pair(m[x], m[y]) in h.edges {
      ImageMember(g.edges, m, x, y);
    }
    forall x | x in g.nodes ensures Degree(h.edges, m[x]) == Degree(g.edges, x) {
      ImageDegree(g.edges, m, x);
    }
  }

  lemma RelabelNodeSet(g: Graph, m: map<int, int>)
    requires WellFormed(g) && forall x :: x in g.nodes ==> x in m
    ensures NodeSet(Relabel(g, m).nodes) == (set x | x in g.nodes :: m[x])
  {
    var h := Relabel(g, m);
    Covered(g.nodes, m);
    forall y | y in NodeSet(h.nodes) ensures y in set x | x in g.nodes :: m[x] {
      var i :| 0 <= i < |h.nodes| && h.nodes[i] == y;
      assert g.nodes[i] in g.nodes;
    }
    forall x | x in g.nodes ensures m[x] in NodeSet(h.nodes) {
      assert h.nodes[Index(g.nodes, x)] == m[x];
    }
  }


  /** Two graphs without isolated nodes and with the same edges have the same nodes and the
      same degree sequence. */
  lemma SameEdgesSameDegrees(g: Graph, h: Graph)
    requires WellFormed(g) && WellFormed(h) && NoIsolated(g) && NoIsolated(h) && g.edges == h.edges
    ensures NodeSet(g.nodes) == NodeSet(h.nodes)
    ensures DegreeSequence(g) == DegreeSequence(h)
  {
    forall x | x in g.nodes ensures x in h.nodes {
      DegreeIncident(g.edges, x);
      var e :| e in Incident(g.edges, x);
    }
    forall x | x in h.nodes ensures x in g.nodes {
      DegreeIncident(h.edges, x);
      var e :| e in Incident(h.edges, x);
    }
    assert NodeSet(g.nodes) == NodeSet(h.nodes);
    SameDegreeSequence(g, h);
  }

  // ---------------------------------------------------------------------------------------
  // The working copy

  /** The working copy `cpyG = G.copy()` that the perturbation loops change in place. */
  class MutableGraph {
    var nodes: seq<int>
    var edges: set<Edge>

    /** The graph this object currently holds. */
    function Value(): Graph
      reads this
    {
      Graph(nodes, edges)
    }

    /** `G.copy()`. */
    constructor Copy(g: Graph)
      ensures Value() == g
    {
      nodes := g.nodes;
      edges := g.edges;
    }

    /** `G.has_edge(u, v)`, and `(u, v) in G.edges()`, which asks the same. */
    predicate HasEdge(u: int, v: int)
      reads this
    {
      Pair(u, v) in edges
    }

    /** `G.add_edge(u, v)`. */
    method AddEdge(u: int, v: int)
      modifies this
      ensures Value() == WithEdge(old(Value()), u, v)
    {
      nodes := AddNode(AddNode(nodes, u), v);
      edges := edges + {Pair(u, v)};
    }

    /** `G.remove_edge(u, v)`; networkx raises for an absent edge, and every call in the
        scripts is shown to name a present one. */
    method RemoveEdge(u: int, v: int)
      requires Pair(u, v) in edges
      modifies this
      ensures Value() == WithoutEdge(old(Value()), u, v)
    {
      edges := edges - {Pair(u, v)};
    }
  }
}
