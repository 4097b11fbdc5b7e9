/** `run` in scripts/anonymization/random_add_delete.py: up to k double-edge swaps on a copy of
    the graph read from the file, then the result saved in verbatim mode. The loop of the older
    copy scripts/random_add_delete.py (lines 28-59) is the same loop without the save. */
module RandomAddDelete {
  import opened Wrappers
  import opened Graphs
  import opened Mtx
  import opened Runs

  /** An attempt with e1 = (a, b) and e2 = (c, d) changes nothing when the two are the same
      edge, when a, b, c, d are not four distinct nodes, or when a–d or b–c is already an edge
      (`(a, d) in cpyG.edges() or (d, a) in cpyG.edges()` asks exactly `has_edge`). */
  predicate Skipped(g: Graph, e1: (int, int), e2: (int, int)) {
    var (a, b) := e1;
    var (c, d) := e2;
    e1 == e2 || |{a, b, c, d}| < 4 || Pair(a, d) in g.edges || Pair(b, c) in g.edges
  }

  /** `len({a, b, c, d}) < 4` holds exactly when two of the four nodes coincide. */
  lemma FourDistinct(a: int, b: int, c: int, d: int)
    ensures |{a, b, c, d}| <= 4
    ensures |{a, b, c, d}| == 4 <==> a != b && a != c && a != d && b != c && b != d && c != d
  {
    var s1 := {a};
    var s2 := s1 + {b};
    var s3 := s2 + {c};
    var s4 := s3 + {d};
    assert s4 == {a, b, c, d};
    assert |s2| == if b in s1 then 1 else 2;
    assert |s3| == if c in s2 then |s2| else |s2| + 1;
    assert |s4| == if d in s3 then |s3| else |s3| + 1;
  }

  /** The swap: `remove_edge(a, b)`, `remove_edge(c, d)`, `add_edge(a, d)`, `add_edge(b, c)`. */
  function Swapped(g: Graph, e1: (int, int), e2: (int, int)): Graph {
    var (a, b) := e1;
    var (c, d) := e2;
    WithEdge(WithEdge(WithoutEdge(WithoutEdge(g, a, b), c, d), a, d), b, c)
  }

  /** The four edge changes of a swap cancel out at every node. */
  lemma SwapDegree(E: set<Edge>, a: int, b: int, c: int, d: int, x: int)
    requires a != b && a != c && a != d && b != c && b != d && c != d
    requires Pair(a, b) in E && Pair(c, d) in E && Pair(a, d) !in E && Pair(b, c) !in E
    ensures Degree((E - {Pair(a, b), Pair(c, d)}) + {Pair(a, d), Pair(b, c)}, x) == Degree(E, x)
  {
    var ab, cd, ad, bc := Pair(a, b), Pair(c, d), Pair(a, d), Pair(b, c);
    var E1 := E - {ab};
    var E2 := E1 - {cd};
    var E3 := E2 + {ad};
    var E4 := E3 + {bc};
    assert E4 == (E - {ab, cd}) + {ad, bc};
    RemoveIncident(E, ab, x);
    RemoveIncident(E1, cd, x);
    AddIncident(E2, ad, x);
    AddIncident(E3, bc, x);
    assert Edge(x, x) in E4 <==> Edge(x, x) in E;
  }

  lemma SwapShape(g: Graph, e1: (int, int), e2: (int, int))
    requires WellFormed(g) && PairOf(e1) in g.edges && PairOf(e2) in g.edges && !Skipped(g, e1, e2)
    ensures var h := Swapped(g, e1, e2);
      && WellFormed(h)
      && h.nodes == g.nodes
      && h.edges == (g.edges - {Pair(e1.0, e1.1), Pair(e2.0, e2.1)}) + {Pair(e1.0, e2.1), Pair(e1.1, e2.0)}
  {
    var (a, b) := e1;
    var (c, d) := e2;
    var g2 := WithoutEdge(WithoutEdge(g, a, b), c, d);
    var g3 := WithEdge(g2, a, d);
    WithEdgeWellFormed(g2, a, d);
    WithEdgeWellFormed(g3, b, c);
  }

  /** Taking two present edges out and putting two absent ones in keeps the count. */
  lemma SwapCount(E: set<Edge>, ab: Edge, cd: Edge, ad: Edge, bc: Edge)
    requires ab in E && cd in E && ab != cd && ad !in E && bc !in E && ad != bc
    ensures |(E - {ab, cd}) + {ad, bc}| == |E|
  {
    var E1 := E - {ab};
    var E2 := E1 - {cd};
    var E3 := E2 + {ad};
    assert |E1| == |E| - 1;
    assert |E2| == |E1| - 1;
    assert |E3| == |E2| + 1;
    assert |E3 + {bc}| == |E3| + 1;
    assert (E - {ab, cd}) + {ad, bc} == E3 + {bc};
  }

  lemma SwapKeepsCount(g: Graph, e1: (int, int), e2: (int, int))
    requires WellFormed(g) && PairOf(e1) in g.edges && PairOf(e2) in g.edges && !Skipped(g, e1, e2)
    ensures |Swapped(g, e1, e2).edges| == |g.edges|
    ensures Simple(g) ==> Simple(Swapped(g, e1, e2))
  {
    var a, b, c, d := e1.0, e1.1, e2.0, e2.1;
    FourDistinct(a, b, c, d);
    SwapShape(g, e1, e2);
    SwapCount(g.edges, Pair(a, b), Pair(c, d), Pair(a, d), Pair(b, c));
  }

  lemma SwapKeepsDegrees(g: Graph, e1: (int, int), e2: (int, int))
    requires WellFormed(g) && PairOf(e1) in g.edges && PairOf(e2) in g.edges && !Skipped(g, e1, e2)
    ensures forall x :: Degree(Swapped(g, e1, e2).edges, x) == Degree(g.edges, x)
  {
    var a, b, c, d := e1.0, e1.1, e2.0, e2.1;
    FourDistinct(a, b, c, d);
    SwapShape(g, e1, e2);
    forall x ensures Degree(Swapped(g, e1, e2).edges, x) == Degree(g.edges, x) {
      SwapDegree(g.edges, a, b, c, d, x);
    }
  }

  /** A swap that is not skipped keeps the node list, turns the edge set into
      (E − {ab, cd}) ∪ {ad, bc}, keeps every node's degree and so the degree sequence and the
      edge count, and adds no self-loop. */
  lemma SwapPreserves(g: Graph, e1: (int, int), e2: (int, int))
    requires WellFormed(g) && PairOf(e1) in g.edges && PairOf(e2) in g.edges && !Skipped(g, e1, e2)
    ensures var h := Swapped(g, e1, e2);
      && WellFormed(h)
      && h.nodes == g.nodes
      && h.edges == (g.edges - {Pair(e1.0, e1.1), Pair(e2.0, e2.1)}) + {Pair(e1.0, e2.1), Pair(e1.1, e2.0)}
      && |h.edges| == |g.edges|
      && (forall x :: Degree(h.edges, x) == Degree(g.edges, x))
      && DegreeSequence(h) == DegreeSequence(g)
      && (Simple(g) ==> Simple(h))
  {
    var h := Swapped(g, e1, e2);
    SwapShape(g, e1, e2);
    SwapKeepsCount(g, e1, e2);
    SwapKeepsDegrees(g, e1, e2);
    SameDegreeSequence(h, g);
  }

  /** One pass of the loop body (lines 37-59 after the choice): the attempt with the chosen
      edges, which either leaves the working copy alone or performs exactly one swap. */
  method Attempt(cpy: MutableGraph, e1: (int, int), e2: (int, int)) returns (swapped: bool)
    requires WellFormed(cpy.Value()) && PairOf(e1) in cpy.edges && PairOf(e2) in cpy.edges
    modifies cpy
    ensures swapped == !Skipped(old(cpy.Value()), e1, e2)
    ensures cpy.Value() == if swapped then Swapped(old(cpy.Value()), e1, e2) else old(cpy.Value())
  {
    if e1 == e2 {
      return false;
    }
    var (a, b) := e1;
    var (c, d) := e2;
    if |{a, b, c, d}| < 4 {
      return false;
    }
    if cpy.HasEdge(a, d) {
      return false;
    }
    if cpy.HasEdge(b, c) {
      return false;
    }
    assert Pair(a, b) != Pair(c, d);
    cpy.RemoveEdge(a, b);
    cpy.RemoveEdge(c, d);
    cpy.AddEdge(a, d);
    cpy.AddEdge(b, c);
    return true;
  }

  /** One attempt took the working copy from before to after: e1 and e2 were taken from the
      current edge list, and after is before when the attempt is skipped and the swap of the
      two edges otherwise. */
  predicate AttemptOk(before: Graph, c: ((int, int), (int, int)), after: Graph) {
    && c.0 in EdgeList(before) && c.1 in EdgeList(before)
    && after == if Skipped(before, c.0, c.1) then before else Swapped(before, c.0, c.1)
  }

  /** The j-th recorded attempt took states[j] to states[j + 1]. */
  ghost predicate AttemptAt(steps: seq<((int, int), (int, int))>, states: seq<Graph>, j: int)
    requires 0 <= j < |steps| && |states| == |steps| + 1
  {
    AttemptOk(states[j], steps[j], states[j + 1])
  }

  /** Each recorded attempt took the working copy from one recorded state to the next. */
  ghost predicate AttemptHistory(steps: seq<((int, int), (int, int))>, states: seq<Graph>) {
    && |states| == |steps| + 1
    && forall j :: 0 <= j < |steps| ==> AttemptAt(steps, states, j)
  }

  lemma AttemptHistoryGrows(steps: seq<((int, int), (int, int))>, states: seq<Graph>,
      c: ((int, int), (int, int)), after: Graph)
    requires AttemptHistory(steps, states) && AttemptOk(states[|steps|], c, after)
    ensures AttemptHistory(steps + [c], states + [after])
    ensures (states + [after])[0] == states[0]
  {
    var steps', states' := steps + [c], states + [after];
    forall j | 0 <= j < |steps'| ensures AttemptAt(steps', states', j) {
      if j < |steps| {
        assert AttemptAt(steps, states, j);
        assert states'[j] == states[j] && states'[j + 1] == states[j + 1] && steps'[j] == steps[j];
      }
    }
  }

  /** Lines 30-61: the working copy after k attempts, each with two edges chosen from the
      current edge list (which `edges` mirrors, being refreshed after every swap). Every node
      keeps its degree, so the degree sequence, the node list and the edge count are those of
      g, and no self-loop appears. With no edge to choose from, the first `random.choice` raises.
      The attempts come back as ghost results: the chosen edges of each and the working copy
      before and after it, from g to the result, exactly k of them. */
  method SwapLoop(g: Graph, k: nat)
    returns (r: Result<Graph, RunError>, ghost steps: seq<((int, int), (int, int))>, ghost states: seq<Graph>)
    requires WellFormed(g)
    ensures r.Failure? <==> k > 0 && g.edges == {}
    ensures r.Failure? ==> r.error == EmptyChoice
    ensures r.Success? ==>
      && WellFormed(r.value)
      && r.value.nodes == g.nodes
      && |r.value.edges| == |g.edges|
      && (forall x :: Degree(r.value.edges, x) == Degree(g.edges, x))
      && DegreeSequence(r.value) == DegreeSequence(g)
      && (Simple(g) ==> Simple(r.value))
    ensures r.Success? ==>
      && |steps| == k && AttemptHistory(steps, states)
      && states[0] == g && states[k] == r.value
  {
    var cpy := new MutableGraph.Copy(g);
    var edges := EdgeList(cpy.Value());
    steps, states := [], [g];
    EdgeListEdges(g);
    for i := 0 to k
      invariant WellFormed(cpy.Value()) && cpy.nodes == g.nodes && |cpy.edges| == |g.edges|
      invariant forall x :: Degree(cpy.edges, x) == Degree(g.edges, x)
      invariant Simple(g) ==> Simple(cpy.Value())
      invariant edges == EdgeList(cpy.Value())
      invariant DegreeSequence(cpy.Value()) == DegreeSequence(g)
      invariant i > 0 ==> g.edges != {}
      invariant |steps| == i && AttemptHistory(steps, states)
      invariant states[0] == g && states[i] == cpy.Value()
    {
      EdgeListEdges(cpy.Value());
      if edges == [] {
        r := Failure(EmptyChoice);
        return;
      }
      var e1 :| e1 in edges;
      var e2 :| e2 in edges;
      EdgeListMember(cpy.Value(), e1);
      EdgeListMember(cpy.Value(), e2);
      ghost var before := cpy.Value();
      var swapped := Attempt(cpy, e1, e2);
      if swapped {
        SwapPreserves(before, e1, e2);
        edges := EdgeList(cpy.Value());
      }
      AttemptHistoryGrows(steps, states, (e1, e2), cpy.Value());
      steps, states := steps + [(e1, e2)], states + [cpy.Value()];
    }
    r := Success(cpy.Value());
  }

  /** `run(file_path, k)`: read the graph, run the swap loop, then save the working copy in
      verbatim mode to `<base>_randadddel.mtx` beside the input and return that path, or None
      when the save raises. The saved file reads back with the input graph's nodes, edge count
      and degree sequence. A negative k runs no round, as `range(k)` is then empty. The attempts
      come back as ghost results, as SwapLoop gives them, and the saved file is the save of the
      working copy they end with. */
  method Run(text: string, k: int, directory: string, base: string, saveOk: bool)
    returns (r: Result<Option<Saved>, RunError>,
      ghost steps: seq<((int, int), (int, int))>, ghost states: seq<Graph>)
    ensures Load(text).Failure? ==> r == Failure(BadFile(Load(text).error))
    ensures Load(text).Success? ==> (r.Failure? <==> k > 0 && Load(text).value.edges == {})
    ensures r.Success? ==> Load(text).Success? && (r.value.Some? <==> saveOk)
    ensures r.Success? && r.value.Some? ==>
      var G := Load(text).value;
      var out := Load(Concat(r.value.value.lines));
      && r.value.value.path == OutputPath(directory, base, "_randadddel.mtx")
      && out.Success?
      && NodeSet(out.value.nodes) == NodeSet(G.nodes)
      && |out.value.edges| == |G.edges|
      && DegreeSequence(out.value) == DegreeSequence(G)
    ensures r.Success? ==>
      && Load(text).Success?
      && |steps| == Rounds(k) && AttemptHistory(steps, states)
      && states[0] == Load(text).value && WellFormed(states[|steps|])
      && r.value == SaveOutput(states[|steps|], directory, base, "_randadddel.mtx", "random_add_delete output", saveOk)
  {
    var loaded := Load(text);
    if loaded.Failure? {
      return Failure(BadFile(loaded.error)), [], [];
    }
    var G := loaded.value;
    var swapped;
    swapped, steps, states := SwapLoop(G, Rounds(k));
    if swapped.Failure? {
      return Failure(swapped.error), steps, states;
    }
    var cpyG := swapped.value;
    var comment := "random_add_delete output";
    RunCommentsNoBreak();
    var saved := SaveOutput(cpyG, directory, base, "_randadddel.mtx", comment, saveOk);
    if saveOk {
      ReloadSaved(cpyG, G, directory, base, "_randadddel.mtx", comment);
    }
    r := Success(saved);
  }

  /** `run(file_path, k)` of scripts/random_add_delete.py: the same parse and swap loop; the
      graph it draws is the working copy, and it saves nothing. A negative k runs no round. The
      attempts come back as ghost results, and the graph returned is the copy they end with. */
  method LegacyRun(text: string, k: int)
    returns (r: Result<Graph, RunError>,
      ghost steps: seq<((int, int), (int, int))>, ghost states: seq<Graph>)
    ensures Load(text).Failure? ==> r == Failure(BadFile(Load(text).error))
    ensures Load(text).Success? ==> (r.Failure? <==> k > 0 && Load(text).value.edges == {})
    ensures r.Success? ==>
      && Load(text).Success?
      && r.value.nodes == Load(text).value.nodes
      && |r.value.edges| == |Load(text).value.edges|
      && DegreeSequence(r.value) == DegreeSequence(Load(text).value)
    ensures r.Success? ==>
      && |steps| == Rounds(k) && AttemptHistory(steps, states)
      && states[0] == Load(text).value && states[|steps|] == r.value
  {
    var loaded := Load(text);
    if loaded.Failure? {
      return Failure(BadFile(loaded.error)), [], [];
    }
    r, steps, states := SwapLoop(loaded.value, Rounds(k));
  }
}
