/** `run` in scripts/anonymization/random_walk.py: every edge (u, v) of the input is replaced by
    (u, endpoint), where endpoint ends a random walk of k steps from v on the input graph, after
    reconciling self-loops and duplicates; the edge is kept when no replacement fits. */
module RandomWalk {
  import opened Wrappers
  import opened Graphs
  import opened Mtx
  import opened Runs

  /** Consecutive nodes of w are joined by an edge of g. */
  predicate IsWalk(g: Graph, w: seq<int>) {
    forall i :: 0 <= i < |w| - 1 ==> Pair(w[i], w[i + 1]) in g.edges
  }

  /** The node a walk arrived from is a neighbour of the node it arrived at, so a walk from a
      node with a neighbour ends at a node with one. */
  lemma WalkEndHasNeighbor(g: Graph, w: seq<int>)
    requires WellFormed(g) && |w| >= 1 && IsWalk(g, w)
    requires Neighbors(g, w[0]) != []
    ensures Neighbors(g, w[|w| - 1]) != []
  {
    var n := |w|;
    if n >= 2 {
      assert Pair(w[n - 2], w[n - 1]) in g.edges;
      assert Pair(w[n - 1], w[n - 2]) == Pair(w[n - 2], w[n - 1]);
      assert w[n - 2] in Neighbors(g, w[n - 1]);
    }
  }

  /** Lines 44-62: a walk on g of at most k steps from start, each to a node chosen among the
      current node's neighbours. It stops early only at a node without neighbours, so from a
      node that has one it takes all k steps. The walk reads g alone: it is given the value,
      not the working copy. */
  method Walk(g: Graph, start: int, k: nat) returns (endpoint: int, ghost path: seq<int>)
    requires WellFormed(g) && start in g.nodes
    ensures |path| >= 1 && path[0] == start && path[|path| - 1] == endpoint && IsWalk(g, path)
    ensures |path| <= k + 1
    ensures |path| < k + 1 ==> Neighbors(g, endpoint) == []
    ensures endpoint in g.nodes
    ensures Neighbors(g, start) != [] ==> |path| == k + 1 && Neighbors(g, endpoint) != []
  {
    var current := start;
    path := [start];
    for step := 0 to k
      invariant |path| == step + 1 && path[0] == start && path[|path| - 1] == current
      invariant IsWalk(g, path) && current in g.nodes
      invariant Neighbors(g, start) != [] ==> Neighbors(g, current) != []
    {
      var neighbors := Neighbors(g, current);
      if neighbors == [] {
        break;
      }
      var j :| 0 <= j < |neighbors|;
      var next := neighbors[j];
      path := path + [next];
      current := next;
      assert current in g.nodes;
      if Neighbors(g, start) != [] {
        WalkEndHasNeighbor(g, path);
      }
    }
    endpoint := current;
  }

  /** `[n for n in s if n != v]`. */
  function Except(s: seq<int>, v: int): (r: seq<int>)
    ensures forall y :: y in r <==> y in s && y != v
  {
    if s == [] then []
    else (if s[0] != v then [s[0]] else []) + Except(s[1..], v)
  }

  /** Lines 73-84: an endpoint equal to u is replaced by a neighbour of u in G other than v, or
      by v when v is its only neighbour; any other endpoint stays. The branch for a u without
      neighbours (lines 85-90) cannot run, since v is one. The endpoint keeps a neighbour in G,
      and in a simple graph it is never u. */
  method AvoidSelfLoop(G: Graph, u: int, v: int, endpoint: int) returns (e: int)
    requires WellFormed(G) && Pair(u, v) in G.edges
    requires endpoint in G.nodes && Neighbors(G, endpoint) != []
    ensures u != endpoint ==> e == endpoint
    ensures u == endpoint ==> (Pair(u, e) in G.edges && e != v) || e == v
    ensures u == endpoint ==> (e == v <==> OnlyNeighbor(G, u, v))
    ensures e in G.nodes && Neighbors(G, e) != []
    ensures Simple(G) ==> e != u
  {
    e := endpoint;
    if u == endpoint {
      var uNeighbors := Neighbors(G, u);
      assert v in uNeighbors;
      if uNeighbors != [] {
        var candidates := Except(uNeighbors, v);
        if candidates != [] {
          var j :| 0 <= j < |candidates|;
          e := candidates[j];
        } else {
          e := v;
        }
        assert Pair(e, u) == Pair(u, e);
        assert u in Neighbors(G, e);
      } else {
        assert false;
      }
    }
  }

  /** Replacing the present edge (u, v) by an edge (u, w) absent once (u, v) is gone keeps the
      node list and the edge count, and keeps a simple graph simple when w is not u. */
  lemma ReplaceEdge(g: Graph, u: int, v: int, w: int)
    requires WellFormed(g) && Pair(u, v) in g.edges && w in g.nodes
    requires Pair(u, w) !in g.edges - {Pair(u, v)}
    ensures var h := WithEdge(WithoutEdge(g, u, v), u, w);
      && WellFormed(h) && h.nodes == g.nodes
      && h.edges == (g.edges - {Pair(u, v)}) + {Pair(u, w)}
      && |h.edges| == |g.edges|
      && (Simple(g) && u != w ==> Simple(h))
  {
    var r := WithoutEdge(g, u, v);
    assert u in g.nodes;
    WithEdgeWellFormed(r, u, w);
    assert |r.edges| == |g.edges| - 1;
  }

  /** Removing the present edge (u, v) and adding it back gives the graph back. */
  lemma RestoreEdge(g: Graph, u: int, v: int)
    requires WellFormed(g) && Pair(u, v) in g.edges
    ensures WithEdge(WithoutEdge(g, u, v), u, v) == g
  {
    var r := WithoutEdge(g, u, v);
    assert u in g.nodes && v in g.nodes;
    WithEdgeWellFormed(r, u, v);
  }

  /** x is reached from u by a walk on g of at least one and at most n steps. */
  ghost predicate Near(g: Graph, u: int, x: int, n: nat) {
    exists w :: IsWalk(g, w) && 2 <= |w| <= n + 1 && w[0] == u && w[|w| - 1] == x
  }

  /** The edge e joins the two ends of a walk on g of at least one and at most n steps. */
  ghost predicate NearEdge(g: Graph, e: Edge, n: nat) {
    exists u, x :: Near(g, u, x, n) && e == Pair(u, x)
  }

  /** Every edge of the set is an edge of g or joins the ends of a walk on g of at most n steps. */
  ghost predicate WithinReach(g: Graph, edges: set<Edge>, n: nat) {
    forall e :: e in edges ==> e in g.edges || NearEdge(g, e, n)
  }

  /** An edge (u, v) followed by a walk from v is a walk from u, one step longer. */
  lemma NearByWalk(g: Graph, u: int, path: seq<int>, n: nat)
    requires |path| >= 1 && Pair(u, path[0]) in g.edges && IsWalk(g, path) && |path| <= n
    ensures Near(g, u, path[|path| - 1], n)
  {
    var w := [u] + path;
    assert w[|w| - 1] == path[|path| - 1];
    assert forall i :: 1 <= i < |w| - 1 ==> w[i] == path[i - 1] && w[i + 1] == path[i];
    assert IsWalk(g, w);
  }

  lemma NearByEdge(g: Graph, u: int, x: int, n: nat)
    requires Pair(u, x) in g.edges && n >= 1
    ensures Near(g, u, x, n)
  {
    assert IsWalk(g, [u, x]);
  }

  /** A walk can be extended by an edge at its end, and allowing more steps loses no walk. */
  lemma NearStep(g: Graph, u: int, x: int, y: int, n: nat)
    requires Near(g, u, x, n)
    ensures Pair(x, y) in g.edges ==> Near(g, u, y, n + 1)
    ensures Near(g, u, x, n + 1)
  {
    var w :| IsWalk(g, w) && 2 <= |w| <= n + 1 && w[0] == u && w[|w| - 1] == x;
    if Pair(x, y) in g.edges {
      var w' := w + [y];
      assert forall i :: 0 <= i < |w| ==> w'[i] == w[i];
      assert IsWalk(g, w');
    }
  }

  /** What became of one processed edge: the walk taken from v, whether (u, v) was restored,
      the endpoint checked for a duplicate at line 93, the neighbour of it picked as the
      alternative at line 99 (the checked endpoint itself when there was no duplicate), and the
      endpoint finally used. */
  datatype Step = Step(walk: seq<int>, restored: bool, checked: int, alternative: int, endpoint: int)

  /** Every neighbour of u in G is v, so the `candidates` list of line 79 is empty. */
  ghost predicate OnlyNeighbor(G: Graph, u: int, v: int) {
    forall y :: Pair(u, y) in G.edges ==> y == v
  }

  /** Lines 44-84 for the edge (u, v): s.walk is a walk on G of exactly k steps from v, and the
      endpoint checked for a duplicate is its end, unless the walk came back to u; then it is a
      neighbour of u in G, and it is v exactly when v is u's only neighbour. */
  ghost predicate Walked(G: Graph, k: nat, u: int, v: int, s: Step) {
    && |s.walk| == k + 1 && s.walk[0] == v && IsWalk(G, s.walk)
    && (s.walk[k] != u ==> s.checked == s.walk[k])
    && (s.walk[k] == u ==> Pair(u, s.checked) in G.edges && (s.checked == v <==> OnlyNeighbor(G, u, v)))
  }

  /** Lines 65-115 after the walk took the working copy's edges from before to after. Either the
      edge (u, checked) was already present once (u, v) had gone, the alternative picked among
      the checked endpoint's neighbours in G was u or already joined to u, and (u, v) is
      restored; or an edge (u, endpoint) absent at that point replaces (u, v), where endpoint is
      the checked one when that was absent, and otherwise the alternative, a neighbour of it in
      G other than u. */
  ghost predicate Reconciled(G: Graph, u: int, v: int, before: set<Edge>, s: Step, after: set<Edge>) {
    var rest := before - {Pair(u, v)};
    && (s.restored ==>
      && Pair(u, s.checked) in rest
      && Pair(s.checked, s.alternative) in G.edges
      && (s.alternative == u || Pair(u, s.alternative) in rest)
      && after == before)
    && (!s.restored ==>
      && s.endpoint in G.nodes
      && Pair(u, s.endpoint) !in rest
      && after == rest + {Pair(u, s.endpoint)}
      && (Pair(u, s.checked) !in rest ==> s.endpoint == s.checked)
      && (Pair(u, s.checked) in rest ==>
        s.endpoint == s.alternative && Pair(s.checked, s.endpoint) in G.edges && s.endpoint != u))
  }

  /** One pass of lines 41-115 for the edge (u, v) of G, as s records it. */
  ghost predicate StepOk(G: Graph, k: nat, u: int, v: int, before: set<Edge>, s: Step, after: set<Edge>) {
    Pair(u, v) in G.edges && Walked(G, k, u, v, s) && Reconciled(G, u, v, before, s, after)
  }

  /** The number of restored edges among the steps: `duplicates_avoided`. */
  function Restorations(steps: seq<Step>): (n: nat)
    ensures n <= |steps|
  {
    if steps == [] then 0
    else Restorations(steps[..|steps| - 1]) + (if steps[|steps| - 1].restored then 1 else 0)
  }

  /** steps[j] took the working copy from states[j] to states[j + 1] for the edge ps[j], for
      every step taken so far. */
  ghost predicate History(G: Graph, k: nat, ps: seq<(int, int)>, steps: seq<Step>, states: seq<set<Edge>>) {
    && |steps| <= |ps| && |states| == |steps| + 1
    && forall j :: 0 <= j < |steps| ==> StepAt(G, k, ps, steps, states, j)
  }

  /** The j-th recorded step took states[j] to states[j + 1] for the edge ps[j]. */
  ghost predicate StepAt(G: Graph, k: nat, ps: seq<(int, int)>, steps: seq<Step>, states: seq<set<Edge>>, j: int)
    requires 0 <= j < |steps| <= |ps| && |states| == |steps| + 1
  {
    StepOk(G, k, ps[j].0, ps[j].1, states[j], steps[j], states[j + 1])
  }

  /** One more step extends the history and the restoration count. */
  lemma HistoryGrows(G: Graph, k: nat, ps: seq<(int, int)>, steps: seq<Step>, states: seq<set<Edge>>,
      s: Step, after: set<Edge>)
    requires History(G, k, ps, steps, states) && |steps| < |ps|
    requires StepOk(G, k, ps[|steps|].0, ps[|steps|].1, states[|steps|], s, after)
    ensures History(G, k, ps, steps + [s], states + [after])
    ensures (states + [after])[0] == states[0]
    ensures Restorations(steps + [s]) == Restorations(steps) + (if s.restored then 1 else 0)
  {
    assert (steps + [s])[..|steps|] == steps;
    var steps', states' := steps + [s], states + [after];
    forall j | 0 <= j < |steps'|
      ensures StepAt(G, k, ps, steps', states', j)
    {
      if j < |steps| {
        assert StepAt(G, k, ps, steps, states, j);
        assert states'[j] == states[j] && states'[j + 1] == states[j + 1] && steps'[j] == steps[j];
      }
    }
  }

  /** The endpoint checked in a step is at most k + 1 steps from u in G: the edge (u, v)
      followed by the walk, or one edge of u when the walk came back to u. */
  lemma CheckedNear(G: Graph, k: nat, u: int, v: int, s: Step)
    requires Pair(u, v) in G.edges && Walked(G, k, u, v, s)
    ensures Near(G, u, s.checked, k + 1)
  {
    if s.walk[k] != u {
      NearByWalk(G, u, s.walk, k + 1);
    } else {
      NearByEdge(G, u, s.checked, k + 1);
    }
  }

  /** Where a step leaves an edge: an edge added by a step joins u to a node at most k + 2
      steps away in G. */
  lemma StepEdges(G: Graph, k: nat, u: int, v: int, before: set<Edge>, s: Step, after: set<Edge>)
    requires StepOk(G, k, u, v, before, s, after)
    requires WithinReach(G, before, k + 2)
    ensures WithinReach(G, after, k + 2)
  {
    if !s.restored {
      CheckedNear(G, k, u, v, s);
      NearStep(G, u, s.checked, s.endpoint, k + 1);
      assert Near(G, u, s.endpoint, k + 2);
      assert NearEdge(G, Pair(u, s.endpoint), k + 2);
    }
  }

  /** Every edge left after the recorded steps, starting from G's edges, is an edge of G or
      joins the ends of a walk on G of at most k + 2 steps. */
  lemma {:induction false} HistoryReach(G: Graph, k: nat, ps: seq<(int, int)>, steps: seq<Step>,
      states: seq<set<Edge>>)
    requires History(G, k, ps, steps, states) && states[0] == G.edges
    ensures WithinReach(G, states[|steps|], k + 2)
    decreases |steps|
  {
    var n := |steps|;
    if n > 0 {
      var steps', states' := steps[..n - 1], states[..n];
      assert History(G, k, ps, steps', states') by {
        forall j | 0 <= j < n - 1 ensures StepAt(G, k, ps, steps', states', j) {
          assert StepAt(G, k, ps, steps, states, j);
        }
      }
      HistoryReach(G, k, ps, steps', states');
      assert StepAt(G, k, ps, steps, states, n - 1);
      StepEdges(G, k, ps[n - 1].0, ps[n - 1].1, states[n - 1], steps[n - 1], states[n]);
    }
  }

  /** Lines 41-115 for one edge (u, v) of G: walk from v, remove (u, v) from the working copy,
      avoid a self-loop, and on a duplicate (u, endpoint) try one more step from the endpoint.
      The walk, the endpoint checked for a duplicate and the neighbour of it picked as the
      alternative come back as ghost results. The walk takes all k steps on G, since v has the
      neighbour u, and the step is Walked and Reconciled: (u, v) is restored only when the
      checked edge was present and the alternative was u or already joined to u
      (`duplicates_avoided` counts these); otherwise (u, endpoint) replaces it. The branch for an
      endpoint without neighbours (lines 107-111) cannot run. The edge count never changes, and
      a simple graph stays simple. */
  method Rewire(G: Graph, cpy: MutableGraph, u: int, v: int, k: nat)
    returns (endpoint: int, restored: bool, ghost path: seq<int>, ghost checked: int, ghost picked: int)
    requires WellFormed(G) && Pair(u, v) in G.edges
    requires WellFormed(cpy.Value()) && cpy.nodes == G.nodes && Pair(u, v) in cpy.edges
    modifies cpy
    ensures Walked(G, k, u, v, Step(path, restored, checked, picked, endpoint))
    ensures Reconciled(G, u, v, old(cpy.edges), Step(path, restored, checked, picked, endpoint), cpy.edges)
    ensures WellFormed(cpy.Value()) && cpy.nodes == G.nodes
    ensures |cpy.edges| == |old(cpy.edges)|
    ensures Simple(G) && Simple(old(cpy.Value())) ==> Simple(cpy.Value())
  {
    ghost var before := cpy.Value();
    assert Pair(v, u) == Pair(u, v);
    assert u in Neighbors(G, v);
    var current;
    current, path := Walk(G, v, k);
    endpoint := current;
    if cpy.HasEdge(u, v) {
      cpy.RemoveEdge(u, v);
    }
    endpoint := AvoidSelfLoop(G, u, v, endpoint);
    checked := endpoint;
    picked := endpoint;
    if cpy.HasEdge(u, endpoint) {
      var endpointNeighbors := Neighbors(G, endpoint);
      if endpointNeighbors != [] {
        var j :| 0 <= j < |endpointNeighbors|;
        var alternative := endpointNeighbors[j];
        picked := alternative;
        if alternative != u && !cpy.HasEdge(u, alternative) {
          endpoint := alternative;
        } else {
          cpy.AddEdge(u, v);
          RestoreEdge(before, u, v);
          restored := true;
          return;
        }
      } else {
        assert false;
      }
    }
    cpy.AddEdge(u, endpoint);
    ReplaceEdge(before, u, v, endpoint);
    restored := false;
  }

  /** Lines 30-115: every edge of `list(G.edges())` is processed once, in order, on a copy of G.
      The ghost results record each step and the working copy's edges before and after it, from
      G's edges to the result's. The result has G's node list and edge count, and is simple
      when G is; each of its edges is an edge of G or joins two nodes at most k + 2 steps apart
      in G. No self-loop is ever kept for want of a neighbour, and `duplicates_avoided` counts
      the restored edges. */
  method RewireAll(G: Graph, k: nat)
    returns (h: Graph, selfLoopsAvoided: nat, duplicatesAvoided: nat,
      ghost steps: seq<Step>, ghost states: seq<set<Edge>>)
    requires WellFormed(G)
    ensures WellFormed(h) && h.nodes == G.nodes && |h.edges| == |G.edges|
    ensures Simple(G) ==> Simple(h)
    ensures History(G, k, EdgeList(G), steps, states) && |steps| == |EdgeList(G)|
    ensures states[0] == G.edges && states[|steps|] == h.edges
    ensures WithinReach(G, h.edges, k + 2)
    ensures selfLoopsAvoided == 0
    ensures duplicatesAvoided == Restorations(steps)
    ensures selfLoopsAvoided + duplicatesAvoided <= |G.edges|
  {
    var cpy := new MutableGraph.Copy(G);
    var edgesToProcess := EdgeList(G);
    EdgeListEdges(G);
    selfLoopsAvoided := 0;
    duplicatesAvoided := 0;
    steps := [];
    states := [G.edges];
    for i := 0 to |edgesToProcess|
      invariant WellFormed(cpy.Value()) && cpy.nodes == G.nodes
      invariant |cpy.edges| == |G.edges|
      invariant forall j :: i <= j < |edgesToProcess| ==> PairOf(edgesToProcess[j]) in cpy.edges
      invariant Simple(G) ==> Simple(cpy.Value())
      invariant History(G, k, edgesToProcess, steps, states) && |steps| == i
      invariant states[0] == G.edges && states[i] == cpy.edges
      invariant selfLoopsAvoided == 0 && duplicatesAvoided == Restorations(steps)
    {
      var (u, v) := edgesToProcess[i];
      EdgeListMember(G, (u, v));
      ghost var before := cpy.edges;
      var endpoint, restored, path, checked, picked := Rewire(G, cpy, u, v, k);
      if restored {
        duplicatesAvoided := duplicatesAvoided + 1;
      }
      ghost var s := Step(path, restored, checked, picked, endpoint);
      HistoryGrows(G, k, edgesToProcess, steps, states, s, cpy.edges);
      steps := steps + [s];
      states := states + [cpy.edges];
      forall j | i + 1 <= j < |edgesToProcess| ensures PairOf(edgesToProcess[j]) in cpy.edges {
        assert PairOf(edgesToProcess[j]) != Pair(u, v);
      }
    }
    HistoryReach(G, k, edgesToProcess, steps, states);
    h := Graph(cpy.nodes, cpy.edges);
  }

  /** `run(file_path, k)`: read the graph, rewire every edge, and report the rewired graph with
      its two counters (the statistics it prints and the graph it draws); it saves nothing. A
      negative k walks no step, as `range(k)` is then empty. The connectivity test at line 125
      raises on a graph without nodes (a file that lists no edge line, whatever its header
      says), which the model reports as NullGraph. The steps come back as ghost results, as
      RewireAll gives them: one per edge of G, ending at the rewired graph, with
      `duplicates_avoided` the number of restored edges. */
  method Run(text: string, k: int)
    returns (r: Result<(Graph, nat, nat), RunError>, ghost steps: seq<Step>, ghost states: seq<set<Edge>>)
    ensures Load(text).Failure? ==> r == Failure(BadFile(Load(text).error))
    ensures Load(text).Success? && Load(text).value.nodes == [] ==> r == Failure(NullGraph)
    ensures Load(text).Success? && Load(text).value.nodes != [] ==>
      var G := Load(text).value;
      && r.Success?
      && WellFormed(r.value.0)
      && r.value.0.nodes == G.nodes
      && |r.value.0.edges| == |G.edges|
      && (Simple(G) ==> Simple(r.value.0))
      && WithinReach(G, r.value.0.edges, Rounds(k) + 2)
      && r.value.1 == 0
      && r.value.1 + r.value.2 <= |G.edges|
    ensures Load(text).Success? && Load(text).value.nodes != [] ==>
      var G := Load(text).value;
      && History(G, Rounds(k), EdgeList(G), steps, states) && |steps| == |EdgeList(G)|
      && states[0] == G.edges && states[|steps|] == r.value.0.edges
      && r.value.2 == Restorations(steps)
  {
    var loaded := Load(text);
    if loaded.Failure? {
      return Failure(BadFile(loaded.error)), [], [];
    }
    var cpyG, selfLoopsAvoided, duplicatesAvoided;
    cpyG, selfLoopsAvoided, duplicatesAvoided, steps, states := RewireAll(loaded.value, Rounds(k));
    if cpyG.nodes == [] {
      r := Failure(NullGraph);
      return;
    }
    r := Success((cpyG, selfLoopsAvoided, duplicatesAvoided));
  }
}
