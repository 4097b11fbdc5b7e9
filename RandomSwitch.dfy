/** `run` in scripts/anonymization/random_switch.py: up to k rounds that each add one absent
    pair of nodes and remove one edge taken from the edges present before that addition, then
    the result saved in verbatim mode. The older copy scripts/random_switch.py (lines 29-61)
    holds the same loop without the save. */
module RandomSwitch {
  import opened Wrappers
  import opened Graphs
  import opened Mtx
  import opened Runs

  /** `set((u, v) for i, u in enumerate(nodes) for v in nodes[i+1:])`. */
  function PossiblePairs(s: seq<int>): set<(int, int)> {
    set i, j | 0 <= i < j < |s| :: (s[i], s[j])
  }

  /** `set(cpyG.edges())`. */
  function EdgeTuples(g: Graph): set<(int, int)> {
    set p | p in EdgeList(g)
  }

  /** The snapshot is empty exactly when the graph has no edge. */
  lemma EdgeTuplesEmpty(g: Graph)
    requires WellFormed(g)
    ensures EdgeTuples(g) == {} <==> g.edges == {}
  {
    EdgeListEdges(g);
    if EdgeList(g) != [] {
      assert EdgeList(g)[0] in EdgeTuples(g);
    }
  }

  /** `possibleEdges - edges`: the candidates of one round. */
  function NonEdges(g: Graph): set<(int, int)> {
    PossiblePairs(g.nodes) - EdgeTuples(g)
  }

  /** The candidates are exactly the pairs of nodes, earlier one first, that are not edges:
      two node tuples compare equal only when oriented alike, and `G.edges()` orients every
      edge by node order, as the pairs are. */
  lemma NonEdgesExactly(g: Graph, p: (int, int))
    requires WellFormed(g)
    ensures p in NonEdges(g) <==>
      p.0 in g.nodes && p.1 in g.nodes && Index(g.nodes, p.0) < Index(g.nodes, p.1) && PairOf(p) !in g.edges
  {
    var s := g.nodes;
    EdgeListMember(g, p);
    if p in PossiblePairs(s) {
      var i, j :| 0 <= i < j < |s| && p == (s[i], s[j]);
      IndexOfDistinct(s, i);
      IndexOfDistinct(s, j);
    }
    if p.0 in s && p.1 in s && Index(s, p.0) < Index(s, p.1) {
      assert p == (s[Index(s, p.0)], s[Index(s, p.1)]);
    }
  }

  /** There is no candidate exactly when every two distinct nodes are joined. */
  lemma NonEdgesEmpty(g: Graph)
    requires WellFormed(g)
    ensures NonEdges(g) == {} <==> forall x, y :: x in g.nodes && y in g.nodes && x != y ==> Pair(x, y) in g.edges
  {
    if NonEdges(g) == {} {
      forall x, y | x in g.nodes && y in g.nodes && x != y ensures Pair(x, y) in g.edges {
        var p := if Index(g.nodes, x) < Index(g.nodes, y) then (x, y) else (y, x);
        NonEdgesExactly(g, p);
      }
    } else {
      var p :| p in NonEdges(g);
      NonEdgesExactly(g, p);
    }
  }

  /** One round, lines 37-63: adding a candidate p (never a self-loop, never present) and then
      removing an edge q of the snapshot taken before, which is therefore present and not p.
      The node list stays, p is now an edge, and the edge count is back where it was. */
  lemma SwitchRound(g: Graph, p: (int, int), q: (int, int))
    requires WellFormed(g) && p in NonEdges(g) && q in EdgeTuples(g)
    ensures p.0 != p.1
    ensures PairOf(q) != PairOf(p) && PairOf(q) in WithEdge(g, p.0, p.1).edges
    ensures var h := WithoutEdge(WithEdge(g, p.0, p.1), q.0, q.1);
      && WellFormed(h)
      && h.nodes == g.nodes
      && h.edges == (g.edges + {PairOf(p)}) - {PairOf(q)}
      && |h.edges| == |g.edges|
      && (Simple(g) ==> Simple(h))
  {
    NonEdgesExactly(g, p);
    EdgeListMember(g, q);
    WithEdgeWellFormed(g, p.0, p.1);
    var E1 := g.edges + {PairOf(p)};
    assert |E1| == |g.edges| + 1;
    assert |E1 - {PairOf(q)}| == |E1| - 1;
  }

  /** One round took the working copy from before to after: p was a candidate of before, q was
      in before's snapshot, and after is before with p added and then q removed. */
  predicate RoundOk(before: Graph, c: ((int, int), (int, int)), after: Graph) {
    && c.0 in NonEdges(before) && c.1 in EdgeTuples(before)
    && after == WithoutEdge(WithEdge(before, c.0.0, c.0.1), c.1.0, c.1.1)
  }

  /** The j-th recorded round took states[j] to states[j + 1]. */
  ghost predicate RoundAt(steps: seq<((int, int), (int, int))>, states: seq<Graph>, j: int)
    requires 0 <= j < |steps| && |states| == |steps| + 1
  {
    RoundOk(states[j], steps[j], states[j + 1])
  }

  /** Each recorded round took the working copy from one recorded state to the next. */
  ghost predicate RoundHistory(steps: seq<((int, int), (int, int))>, states: seq<Graph>) {
    && |states| == |steps| + 1
    && forall j :: 0 <= j < |steps| ==> RoundAt(steps, states, j)
  }

  lemma RoundHistoryGrows(steps: seq<((int, int), (int, int))>, states: seq<Graph>,
      c: ((int, int), (int, int)), after: Graph)
    requires RoundHistory(steps, states) && RoundOk(states[|steps|], c, after)
    ensures RoundHistory(steps + [c], states + [after])
    ensures (states + [after])[0] == states[0]
  {
    var steps', states' := steps + [c], states + [after];
    forall j | 0 <= j < |steps'| ensures RoundAt(steps', states', j) {
      if j < |steps| {
        assert RoundAt(steps, states, j);
        assert states'[j] == states[j] && states'[j + 1] == states[j + 1] && steps'[j] == steps[j];
      }
    }
  }

  /** Lines 37-62, one round on the working copy, whose node list is nodes. With no candidate
      left it stops and changes nothing. With an empty snapshot, which happens exactly when the
      graph has two nodes but no edge, the second `random.choice` raises. Otherwise it adds a
      candidate p and removes an edge q of the snapshot taken before the addition (ghost
      result c = (p, q)), keeping the node list, the edge count and simplicity. */
  method Round(cpy: MutableGraph, nodes: seq<int>) returns (stop: bool, failed: bool, ghost c: ((int, int), (int, int)))
    requires WellFormed(cpy.Value()) && cpy.nodes == nodes
    modifies cpy
    ensures failed <==> old(cpy.edges) == {} && |nodes| >= 2
    ensures stop <==> NonEdges(old(cpy.Value())) == {}
    ensures stop ==> !failed && cpy.Value() == old(cpy.Value())
    ensures !stop && !failed ==>
      && RoundOk(old(cpy.Value()), c, cpy.Value())
      && WellFormed(cpy.Value()) && cpy.nodes == nodes
      && |cpy.edges| == |old(cpy.edges)|
      && (Simple(old(cpy.Value())) ==> Simple(cpy.Value()))
  {
    stop, failed, c := false, false, ((0, 0), (0, 0));
    var possibleEdges := PossiblePairs(nodes);
    var edges := EdgeTuples(cpy.Value());
    var nonedges := possibleEdges - edges;
    if cpy.edges == {} && |nodes| >= 2 {
      NonEdgesExactly(cpy.Value(), (nodes[0], nodes[1]));
      IndexOfDistinct(nodes, 0);
      IndexOfDistinct(nodes, 1);
      assert (nodes[0], nodes[1]) in nonedges;
    }
    if nonedges == {} {
      stop := true;
      if |nodes| >= 2 {
        EdgeTuplesEmpty(cpy.Value());
      }
      return;
    }
    var newedge :| newedge in nonedges;
    ghost var before := cpy.Value();
    NonEdgesExactly(before, newedge);
    cpy.AddEdge(newedge.0, newedge.1);
    var trueEdges := EdgeList(cpy.Value());
    WithEdgeWellFormed(before, newedge.0, newedge.1);
    EdgeListMember(cpy.Value(), newedge);
    if trueEdges == [] {
      assert false;
      return;
    }
    if edges == {} {
      EdgeTuplesEmpty(before);
      assert newedge in possibleEdges;
      failed := true;
      return;
    }
    EdgeTuplesEmpty(before);
    var edgeToRemove :| edgeToRemove in edges;
    SwitchRound(before, newedge, edgeToRemove);
    cpy.RemoveEdge(edgeToRemove.0, edgeToRemove.1);
    c := (newedge, edgeToRemove);
  }

  /** Lines 31-63: the working copy after at most k rounds, stopping early when no candidate is
      left. The node list is fixed, the edge count unchanged and no self-loop is added. When
      the graph has two nodes but no edge, the snapshot is empty and `random.choice` raises.
      The rounds come back as ghost results: the added pair and the removed edge of each and
      the working copy before and after it, from g to the result; fewer than k rounds only
      when no candidate is left. */
  method SwitchLoop(g: Graph, k: nat)
    returns (r: Result<Graph, RunError>, ghost steps: seq<((int, int), (int, int))>, ghost states: seq<Graph>)
    requires WellFormed(g)
    ensures r.Failure? <==> k > 0 && g.edges == {} && |g.nodes| >= 2
    ensures r.Failure? ==> r.error == EmptyChoice
    ensures r.Success? ==>
      && WellFormed(r.value)
      && r.value.nodes == g.nodes
      && |r.value.edges| == |g.edges|
      && (Simple(g) ==> Simple(r.value))
    ensures r.Success? ==>
      && |steps| <= k && RoundHistory(steps, states)
      && states[0] == g && states[|steps|] == r.value
      && (|steps| < k ==> NonEdges(r.value) == {})
  {
    var cpy := new MutableGraph.Copy(g);
    var nodes := cpy.nodes;
    steps, states := [], [g];
    for i := 0 to k
      invariant WellFormed(cpy.Value()) && cpy.nodes == nodes == g.nodes
      invariant |cpy.edges| == |g.edges|
      invariant Simple(g) ==> Simple(cpy.Value())
      invariant i > 0 ==> !(g.edges == {} && |g.nodes| >= 2)
      invariant |steps| == i && RoundHistory(steps, states)
      invariant states[0] == g && states[i] == cpy.Value()
    {
      ghost var before := cpy.Value();
      var stop, failed, c := Round(cpy, nodes);
      if failed {
        r := Failure(EmptyChoice);
        return;
      }
      if stop {
        r := Success(cpy.Value());
        return;
      }
      RoundHistoryGrows(steps, states, c, cpy.Value());
      steps, states := steps + [c], states + [cpy.Value()];
    }
    r := Success(cpy.Value());
  }

  /** A graph read from a file has no isolated node, so it cannot have nodes without edges and
      the failing choice never happens. */
  lemma LoadedCannotFail(g: Graph)
    requires WellFormed(g) && NoIsolated(g)
    ensures g.nodes != [] ==> g.edges != {}
  {
    if g.nodes != [] {
      var x := g.nodes[0];
      DegreeIncident(g.edges, x);
      var e :| e in Incident(g.edges, x);
    }
  }

  /** `run(file_path, k)`: read the graph, run the rounds, then save the working copy in verbatim
      mode to `<base>_randswitch.mtx` beside the input and return that path, or None when the
      save raises. The saved file reads back with the input's edge count and no new node. A
      negative k runs no round, as `range(k)` is then empty. The rounds come back as ghost
      results, as SwitchLoop gives them, and the saved file is the save of the working copy
      they end with. */
  method Run(text: string, k: int, directory: string, base: string, saveOk: bool)
    returns (r: Result<Option<Saved>, RunError>,
      ghost steps: seq<((int, int), (int, int))>, ghost states: seq<Graph>)
    ensures Load(text).Failure? ==> r == Failure(BadFile(Load(text).error))
    ensures Load(text).Success? ==> r.Success? && (r.value.Some? <==> saveOk)
    ensures r.Success? && r.value.Some? ==>
      var G := Load(text).value;
      var out := Load(Concat(r.value.value.lines));
      && r.value.value.path == OutputPath(directory, base, "_randswitch.mtx")
      && out.Success?
      && |out.value.edges| == |G.edges|
      && NodeSet(out.value.nodes) <= NodeSet(G.nodes)
      && (Simple(G) ==> Simple(out.value))
    ensures r.Success? ==>
      && Load(text).Success?
      && |steps| <= Rounds(k) && RoundHistory(steps, states)
      && states[0] == Load(text).value && WellFormed(states[|steps|])
      && (|steps| < Rounds(k) ==> NonEdges(states[|steps|]) == {})
      && r.value == SaveOutput(states[|steps|], directory, base, "_randswitch.mtx", "random_switch output", saveOk)
  {
    var loaded := Load(text);
    if loaded.Failure? {
      return Failure(BadFile(loaded.error)), [], [];
    }
    var G := loaded.value;
    LoadedCannotFail(G);
    var switched;
    switched, steps, states := SwitchLoop(G, Rounds(k));
    var cpyG := switched.value;
    var comment := "random_switch output";
    RunCommentsNoBreak();
    var saved := SaveOutput(cpyG, directory, base, "_randswitch.mtx", comment, saveOk);
    if saveOk {
      ReloadSavedEdges(cpyG, directory, base, "_randswitch.mtx", comment);
    }
    r := Success(saved);
  }

  /** `run(file_path, k)` of scripts/random_switch.py: the same parse and rounds; the graph it
      draws is the working copy, and it saves nothing. A negative k runs no round. The rounds
      come back as ghost results, and the graph returned is the copy they end with. */
  method LegacyRun(text: string, k: int)
    returns (r: Result<Graph, RunError>,
      ghost steps: seq<((int, int), (int, int))>, ghost states: seq<Graph>)
    ensures Load(text).Failure? ==> r == Failure(BadFile(Load(text).error))
    ensures Load(text).Success? ==>
      && r.Success?
      && r.value.nodes == Load(text).value.nodes
      && |r.value.edges| == |Load(text).value.edges|
    ensures r.Success? ==>
      && |steps| <= Rounds(k) && RoundHistory(steps, states)
      && states[0] == Load(text).value && states[|steps|] == r.value
      && (|steps| < Rounds(k) ==> NonEdges(r.value) == {})
  {
    var loaded := Load(text);
    if loaded.Failure? {
      return Failure(BadFile(loaded.error)), [], [];
    }
    LoadedCannotFail(loaded.value);
    r, steps, states := SwitchLoop(loaded.value, Rounds(k));
  }
}
