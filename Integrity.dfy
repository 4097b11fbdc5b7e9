/** The integrity check testing/test.py asks for: a graph a run saves and reads back should
    have the degree sequence of the graph the run produced. Saved in verbatim mode and read as
    the runs read, it does not when that graph has a node without edges, and random_switch can
    leave one. Reading the header's size n as nodes 1..n, off a file saved in remap mode, keeps
    every node. */
module Integrity {
  import opened Wrappers
  import opened Text
  import opened Graphs
  import opened Mtx
  import opened Runs
  import opened RandomSwitch

  // ---------------------------------------------------------------------------------------
  // As written: the read-back drops isolated nodes

  /** A node of s with degree 0 puts a 0 in the degrees of s. */
  lemma {:induction false} ZeroDegreeIn(E: set<Edge>, s: seq<int>, x: int)
    requires x in s && Degree(E, x) == 0
    ensures 0 in Degrees(E, s)
  {
    if s[0] != x {
      assert x in s[1..];
      ZeroDegreeIn(E, s[1..], x);
    }
  }

  /** Without a node of degree 0 in s, there is no 0 among its degrees. */
  lemma {:induction false} NoZeroDegree(E: set<Edge>, s: seq<int>)
    requires forall x :: x in s ==> Degree(E, x) > 0
    ensures 0 !in Degrees(E, s)
  {
    if s != [] {
      assert s[0] in s;
      assert forall x :: x in s[1..] ==> x in s;
      NoZeroDegree(E, s[1..]);
    }
  }

  /** A node without edges is not in the verbatim file read back, which therefore has another
      degree sequence: the file lists edges only, and the parse ignores the header's size. */
  lemma IsolatedNodeLost(g: Graph, path: string, comment: string, x: int)
    requires WellFormed(g) && NoBreak(comment) && x in g.nodes && Degree(g.edges, x) == 0
    ensures var out := Load(Concat(Written(g, path, comment, false)));
      && out.Success?
      && x !in out.value.nodes
      && DegreeSequence(out.value) != DegreeSequence(g)
  {
    RoundTripVerbatim(g, path, comment);
    var out := Load(Concat(Written(g, path, comment, false))).value;
    ZeroDegreeIn(g.edges, g.nodes, x);
    NoZeroDegree(out.edges, out.nodes);
  }

  /** The star with centre 1 and leaves 2, 3, 4, a graph the runs can read. */
  function Star(): Graph {
    Graph([1, 2, 3, 4], {Edge(1, 2), Edge(1, 3), Edge(1, 4)})
  }

  /** The star is a graph a run can read: well formed, with no node lacking an edge. */
  lemma StarReadable()
    ensures WellFormed(Star()) && NoIsolated(Star())
  {
    var g := Star();
    assert Incident(g.edges, 2) == {Edge(1, 2)};
    assert Incident(g.edges, 3) == {Edge(1, 3)};
    assert Incident(g.edges, 4) == {Edge(1, 4)};
    assert Edge(1, 2) in Incident(g.edges, 1);
  }

  /** The row of the centre lists its three edges; each leaf's row is empty. */
  lemma StarCentreRow()
    ensures Row(Star().nodes, 0, 0, Star().edges) == [(1, 2), (1, 3), (1, 4)]
  {
    var s, E := Star().nodes, Star().edges;
    assert Pair(1, 1) == Edge(1, 1) && Pair(1, 2) == Edge(1, 2);
    assert Pair(1, 3) == Edge(1, 3) && Pair(1, 4) == Edge(1, 4);
    assert Row(s, 0, 4, E) == [];
    assert Row(s, 0, 3, E) == [(1, 4)];
    assert Row(s, 0, 2, E) == [(1, 3), (1, 4)];
  }

  lemma StarLeafRows()
    ensures Rows(Star().nodes, 1, Star().edges) == []
  {
    var s, E := Star().nodes, Star().edges;
    assert Pair(2, 2) == Edge(2, 2) && Pair(2, 3) == Edge(2, 3) && Pair(2, 4) == Edge(2, 4);
    assert Pair(3, 3) == Edge(3, 3) && Pair(3, 4) == Edge(3, 4) && Pair(4, 4) == Edge(4, 4);
    assert Row(s, 1, 3, E) == [];
    assert Row(s, 1, 1, E) == [];
    assert Row(s, 2, 2, E) == [];
    assert Row(s, 3, 3, E) == [];
    assert Rows(s, 3, E) == [];
  }

  /** `list(G.edges())` of the star. */
  lemma StarEdgeList()
    ensures EdgeList(Star()) == [(1, 2), (1, 3), (1, 4)]
  {
    StarCentreRow();
    StarLeafRows();
    assert [(1, 2), (1, 3), (1, 4)] + [] == [(1, 2), (1, 3), (1, 4)];
  }

  /** The star's edge list builds the star back, its nodes in the same order. */
  lemma StarFromEdges()
    ensures FromEdges([(1, 2), (1, 3), (1, 4)]) == Star()
  {
    var ps := [(1, 2), (1, 3), (1, 4)];
    assert ps[..2] == [(1, 2), (1, 3)] && ps[..2][..1] == [(1, 2)];
    assert [(1, 2)][..0] == [];
    var g1 := Graph([1, 2], {Edge(1, 2)});
    assert FromEdges([(1, 2)]) == g1 by {
      assert Pair(1, 2) == Edge(1, 2);
    }
    assert FromEdges([(1, 2), (1, 3)]) == Graph([1, 2, 3], {Edge(1, 2), Edge(1, 3)}) by {
      assert Pair(1, 3) == Edge(1, 3);
      assert AddNode(AddNode(g1.nodes, 1), 3) == [1, 2, 3];
    }
    assert Pair(1, 4) == Edge(1, 4);
    assert AddNode(AddNode([1, 2, 3], 1), 4) == [1, 2, 3, 4];
  }

  /** The star is what a run reads from the file the verbatim writer makes of it. */
  lemma StarFile(path: string, comment: string)
    requires NoBreak(comment)
    ensures Load(Concat(Written(Star(), path, comment, false))) == Success(Star())
  {
    StarReadable();
    RoundTrip(Star(), path, comment, false);
    StarEdgeList();
    StarFromEdges();
  }

  /** On the star, (2, 3) is a candidate of a round. */
  lemma StarCandidate()
    ensures (2, 3) in NonEdges(Star())
  {
    var g := Star();
    assert WellFormed(g);
    IndexOfDistinct(g.nodes, 1);
    IndexOfDistinct(g.nodes, 2);
    assert PairOf((2, 3)) !in g.edges;
    NonEdgesExactly(g, (2, 3));
  }

  /** On the star, (1, 4) is in the snapshot of a round. */
  lemma StarSnapshot()
    ensures (1, 4) in EdgeTuples(Star())
  {
    var g := Star();
    assert WellFormed(g);
    IndexOfDistinct(g.nodes, 0);
    IndexOfDistinct(g.nodes, 3);
    EdgeListMember(g, (1, 4));
  }

  /** That round leaves node 4 without edges. */
  lemma StarAfterRound()
    ensures var h := WithoutEdge(WithEdge(Star(), 2, 3), 1, 4);
      WellFormed(h) && 4 in h.nodes && Degree(h.edges, 4) == 0
  {
    var g := Star();
    assert WellFormed(g);
    assert AddNode(AddNode(g.nodes, 2), 3) == g.nodes;
    var h := WithoutEdge(WithEdge(g, 2, 3), 1, 4);
    assert h.nodes == g.nodes;
    assert Pair(2, 3) == Edge(2, 3) && Pair(1, 4) == Edge(1, 4);
    assert h.edges == {Edge(1, 2), Edge(1, 3), Edge(2, 3)};
    assert Incident(h.edges, 4) == {};
  }

  /** The star is read from a file written as the runs write theirs. One round of
      random_switch on it may add (2, 3) and remove (1, 4), which leaves 4 without edges; saved
      and read back, the result has lost node 4 and its degree sequence. */
  lemma SwitchIsolates(path: string)
    ensures WellFormed(Star()) && NoIsolated(Star())
    ensures Load(Concat(Written(Star(), path, "random_switch output", false))) == Success(Star())
    ensures (2, 3) in NonEdges(Star()) && (1, 4) in EdgeTuples(Star())
    ensures RoundOk(Star(), ((2, 3), (1, 4)), WithoutEdge(WithEdge(Star(), 2, 3), 1, 4))
    ensures var h := WithoutEdge(WithEdge(Star(), 2, 3), 1, 4);
      var out := Load(Concat(Written(h, path, "random_switch output", false)));
      && WellFormed(h) && 4 in h.nodes && Degree(h.edges, 4) == 0
      && out.Success? && 4 !in out.value.nodes
      && DegreeSequence(out.value) != DegreeSequence(h)
  {
    StarReadable();
    StarCandidate();
    StarSnapshot();
    StarAfterRound();
    RunCommentsNoBreak();
    StarFile(path, "random_switch output");
    IsolatedNodeLost(WithoutEdge(WithEdge(Star(), 2, 3), 1, 4), path, "random_switch output", 4);
  }

  // ---------------------------------------------------------------------------------------
  // Corrected: read the header's size as the nodes 1..n

  /** The nodes 1..n of an n-by-n Matrix Market pattern. */
  function OneTo(n: int): (r: seq<int>)
    ensures |r| == (if n < 0 then 0 else n)
    ensures forall i :: 0 <= i < |r| ==> r[i] == i + 1
  {
    seq(if n < 0 then 0 else n, i => i + 1)
  }

  /** `G.add_edges_from(pairs)` on a graph that already has nodes. */
  function AddEdges(g: Graph, pairs: seq<(int, int)>): Graph {
    if pairs == [] then g
    else
      var last := pairs[|pairs| - 1];
      WithEdge(AddEdges(g, pairs[..|pairs| - 1]), last.0, last.1)
  }

  /** Adding pairs keeps a graph well formed and adds their edges. */
  lemma AddEdgesShape(g: Graph, pairs: seq<(int, int)>)
    requires WellFormed(g)
    ensures WellFormed(AddEdges(g, pairs))
    ensures AddEdges(g, pairs).edges == g.edges + EdgeSet(pairs)
    ensures (forall p :: p in pairs ==> p.0 in g.nodes && p.1 in g.nodes) ==> AddEdges(g, pairs).nodes == g.nodes
  {
    AddEdgesWellFormed(g, pairs);
    AddEdgesEdges(g, pairs);
    if forall p :: p in pairs ==> p.0 in g.nodes && p.1 in g.nodes {
      AddEdgesNodes(g, pairs);
    }
  }

  lemma {:induction false} AddEdgesWellFormed(g: Graph, pairs: seq<(int, int)>)
    requires WellFormed(g)
    ensures WellFormed(AddEdges(g, pairs))
  {
    if pairs != [] {
      var init := pairs[..|pairs| - 1];
      var last := pairs[|pairs| - 1];
      AddEdgesWellFormed(g, init);
      WithEdgeWellFormed(AddEdges(g, init), last.0, last.1);
    }
  }

  lemma {:induction false} AddEdgesEdges(g: Graph, pairs: seq<(int, int)>)
    ensures AddEdges(g, pairs).edges == g.edges + EdgeSet(pairs)
  {
    if pairs != [] {
      var init := pairs[..|pairs| - 1];
      var last := pairs[|pairs| - 1];
      assert pairs == init + [last];
      AddEdgesEdges(g, init);
      EdgeSetSnoc(init, last);
    }
  }

  lemma {:induction false} AddEdgesNodes(g: Graph, pairs: seq<(int, int)>)
    requires WellFormed(g)
    requires forall p :: p in pairs ==> p.0 in g.nodes && p.1 in g.nodes
    ensures AddEdges(g, pairs).nodes == g.nodes
  {
    if pairs != [] {
      var init := pairs[..|pairs| - 1];
      var last := pairs[|pairs| - 1];
      assert forall p :: p in init ==> p in pairs;
      assert last in pairs;
      AddEdgesNodes(g, init);
    }
  }

  /** The size the header declares, the first of its three integers. */
  function DeclaredSize(file: seq<string>): int
    requires Parse(file).Success?
  {
    ParseInts(Split(DropComments(file)[0])).value[0]
  }

  /** Reading a file the way a Matrix Market reader does: the nodes 1..n that the header
      declares, then the edges, so that a node without edges is kept. It fails exactly when
      the runs' read fails, and has the same edges. */
  function LoadDeclared(text: string): (r: Result<Graph, ParseError>)
    ensures r.Success? <==> Load(text).Success?
    ensures r.Success? ==> WellFormed(r.value) && r.value.edges == Load(text).value.edges
  {
    match ParseFile(text)
    case Failure(e) => Failure(e)
    case Success(ps) =>
      var seed := Graph(OneTo(DeclaredSize(ReadLines(text))), {});
      AddEdgesShape(seed, ps);
      FromEdgesShape(ps);
      Success(AddEdges(seed, ps))
  }

  /** The pairs of a remap-mode file lie among the nodes 1..n. */
  lemma RemapPairsInRange(g: Graph)
    requires WellFormed(g)
    ensures forall p :: p in WrittenPairs(g, true) ==> p.0 in OneTo(|g.nodes|) && p.1 in OneTo(|g.nodes|)
  {
    var m := Numbering(g.nodes, 1);
    var ps := WrittenPairs(g, true);
    var s := OneTo(|g.nodes|);
    RemapBijection(g);
    EdgeListCovered(g);
    forall p | p in ps ensures p.0 in s && p.1 in s {
      var i :| 0 <= i < |ps| && ps[i] == p;
      var q := EdgeList(g)[i];
      assert q in EdgeList(g);
      assert p == (m[q.0], m[q.1]);
      assert m[q.0] in m.Values && m[q.1] in m.Values;
      assert s[p.0 - 1] == p.0;
      assert s[p.1 - 1] == p.1;
    }
  }

  /** A remap-mode file read with its declared size: the n nodes 1..n, then the written pairs. */
  lemma DeclaredRemap(g: Graph, path: string, comment: string)
    requires WellFormed(g) && NoBreak(comment)
    ensures var text := Concat(Written(g, path, comment, true));
      && ParseFile(text).Success?
      && LoadDeclared(text) == Success(AddEdges(Graph(OneTo(|g.nodes|), {}), WrittenPairs(g, true)))
  {
    var text := Concat(Written(g, path, comment, true));
    RoundTrip(g, path, comment, true);
    ParseHeader(|g.nodes|, |g.edges|);
    assert DeclaredSize(ReadLines(text)) == |g.nodes|;
  }

  /** The corrected round trip: a graph saved in remap mode and read with its declared size is
      the relabelled graph itself, nodes 1..n in node order and the image of every edge, so
      the degree sequence is kept whether or not some node has no edge. */
  lemma RoundTripDeclared(g: Graph, path: string, comment: string)
    requires WellFormed(g) && NoBreak(comment)
    ensures var m := Numbering(g.nodes, 1);
      var r := LoadDeclared(Concat(Written(g, path, comment, true)));
      && r == Success(Relabel(g, m))
      && r.value.nodes == OneTo(|g.nodes|)
      && DegreeSequence(r.value) == DegreeSequence(g)
  {
    var m := Numbering(g.nodes, 1);
    DeclaredRemap(g, path, comment);
    SeededRemap(g);
    RelabelOneTo(g);
    RemapBijection(g);
    RelabelIsomorphic(g, m);
  }

  /** The nodes 1..n with the remap-mode pairs added keep exactly those nodes. */
  lemma SeededNodes(g: Graph)
    requires WellFormed(g)
    ensures AddEdges(Graph(OneTo(|g.nodes|), {}), WrittenPairs(g, true)).nodes == OneTo(|g.nodes|)
  {
    RemapPairsInRange(g);
    AddEdgesShape(Graph(OneTo(|g.nodes|), {}), WrittenPairs(g, true));
  }

  /** Their edges are the image of g's edges under the 1-based mapping. */
  lemma SeededEdges(g: Graph)
    requires WellFormed(g)
    ensures Over(g.edges, Numbering(g.nodes, 1))
    ensures AddEdges(Graph(OneTo(|g.nodes|), {}), WrittenPairs(g, true)).edges == Image(g.edges, Numbering(g.nodes, 1))
  {
    var m := Numbering(g.nodes, 1);
    var ps := WrittenPairs(g, true);
    EdgeListCovered(g);
    EdgeListEdges(g);
    MapPairsEdges(EdgeList(g), m);
    assert EdgeSet(ps) == Image(g.edges, m);
    AddEdgesShape(Graph(OneTo(|g.nodes|), {}), ps);
  }

  /** The 1-based relabelling puts the nodes 1..n in node order. */
  lemma RelabelOneTo(g: Graph)
    requires WellFormed(g)
    ensures Relabel(g, Numbering(g.nodes, 1)).nodes == OneTo(|g.nodes|)
  {
    var m := Numbering(g.nodes, 1);
    Covered(g.nodes, m);
    var s := MapSeq(g.nodes, m);
    var t := OneTo(|g.nodes|);
    assert |s| == |t|;
    forall i | 0 <= i < |s| ensures s[i] == t[i] {
      assert s[i] == m[g.nodes[i]];
    }
    assert s == t;
    assert Relabel(g, m).nodes == s;
  }

  /** So they are the graph relabelled by the 1-based mapping. */
  lemma SeededRemap(g: Graph)
    requires WellFormed(g)
    ensures AddEdges(Graph(OneTo(|g.nodes|), {}), WrittenPairs(g, true)) == Relabel(g, Numbering(g.nodes, 1))
  {
    RelabelOneTo(g);
    SeededNodes(g);
    SeededEdges(g);
  }

  /** On the star example, the corrected save and read keep node 4 and the degree sequence. */
  lemma SwitchIsolatesDeclared(path: string)
    ensures var h := WithoutEdge(WithEdge(Star(), 2, 3), 1, 4);
      var r := LoadDeclared(Concat(Written(h, path, "random_switch output", true)));
      && r.Success? && 4 in r.value.nodes
      && DegreeSequence(r.value) == DegreeSequence(h)
  {
    var h := WithoutEdge(WithEdge(Star(), 2, 3), 1, 4);
    StarAfterRound();
    RunCommentsNoBreak();
    RoundTripDeclared(h, path, "random_switch output");
    assert OneTo(4)[3] == 4;
  }
}
