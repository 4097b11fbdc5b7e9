/** `run` in scripts/anonymization/naive_anonymization.py: every node is renamed to its position
    in the node order (0, 1, ...), which keeps the graph up to isomorphism, and the result is
    saved in verbatim mode. The older copy scripts/naive_anonymization.py (lines 32-33) holds
    the same renaming without the save. */
module NaiveAnonymization {
  import opened Wrappers
  import opened Graphs
  import opened Mtx
  import opened Runs

  /** Line 34: `{old_node: i for i, old_node in enumerate(cpyG.nodes())}`. */
  function AnonymousIds(g: Graph): map<int, int>
    requires WellFormed(g)
  {
    Numbering(g.nodes, 0)
  }

  /** The mapping sends the i-th node to i: a bijection from the node list onto 0..n-1. */
  lemma AnonymousIdsBijection(g: Graph)
    requires WellFormed(g)
    ensures var m := AnonymousIds(g);
      && Injective(m)
      && (forall x :: x in m <==> x in g.nodes)
      && (forall i :: 0 <= i < |g.nodes| ==> m[g.nodes[i]] == i)
      && (forall y :: y in m.Values <==> 0 <= y < |g.nodes|)
  {
    var m := AnonymousIds(g);
    forall x, y | x in m && y in m && x != y ensures m[x] != m[y] {
      var i := Index(g.nodes, x);
      var j := Index(g.nodes, y);
    }
    forall y ensures y in m.Values <==> 0 <= y < |g.nodes| {
      if 0 <= y < |g.nodes| {
        assert m[g.nodes[y]] == y;
      }
      if y in m.Values {
        var x :| x in m && m[x] == y;
        var i := Index(g.nodes, x);
      }
    }
  }

  /** Line 35: `nx.relabel_nodes(cpyG, mapping)`, which builds a new graph whose nodes are the
      images in the old node order and whose edges are the images of the old edges. */
  function Anonymize(g: Graph): (h: Graph)
    requires WellFormed(g)
    ensures WellFormed(h) && |h.nodes| == |g.nodes|
  {
    AnonymousIdsBijection(g);
    RelabelWellFormed(g, AnonymousIds(g));
    Relabel(g, AnonymousIds(g))
  }

  /** The relabelled graph is isomorphic to g through the mapping: its nodes are 0..n-1 in
      order, two nodes are joined exactly when their originals were, and every node keeps its
      degree, so node count, edge count and degree sequence are g's. */
  lemma AnonymizeIsomorphic(g: Graph)
    requires WellFormed(g)
    ensures var m := AnonymousIds(g);
      var h := Anonymize(g);
      && WellFormed(h)
      && |h.nodes| == |g.nodes| && (forall i :: 0 <= i < |h.nodes| ==> h.nodes[i] == i)
      && Over(g.edges, m) && h.edges == Image(g.edges, m) && |h.edges| == |g.edges|
      && (forall x, y :: x in g.nodes && y in g.nodes ==> (Pair(x, y) in g.edges <==> Pair(m[x], m[y]) in h.edges))
      && DegreeSequence(h) == DegreeSequence(g)
  {
    AnonymousIdsBijection(g);
    RelabelIsomorphic(g, AnonymousIds(g));
    assert Over(g.edges, AnonymousIds(g));
  }

  /** No node of the relabelled graph is isolated when none of g is. */
  lemma AnonymizeNoIsolated(g: Graph)
    requires WellFormed(g) && NoIsolated(g)
    ensures NoIsolated(Anonymize(g))
  {
    var m := AnonymousIds(g);
    var h := Anonymize(g);
    AnonymousIdsBijection(g);
    RelabelIsomorphic(g, m);
    forall y | y in h.nodes ensures Degree(h.edges, y) > 0 {
      var i :| 0 <= i < |h.nodes| && h.nodes[i] == y;
      assert g.nodes[i] in g.nodes;
    }
  }

  /** The labels of a sequence holding its own positions are 0..n-1. */
  lemma PositionLabels(s: seq<int>)
    requires forall i :: 0 <= i < |s| ==> s[i] == i
    ensures forall y :: y in s <==> 0 <= y < |s|
  {
    forall y | 0 <= y < |s| ensures y in s {
      assert s[y] == y;
    }
  }

  /** The largest label of 0..n-1 is n-1. */
  lemma MaxOfPositions(s: seq<int>)
    requires s != [] && forall i :: 0 <= i < |s| ==> s[i] == i
    ensures MaxLabel(s) == |s| - 1
  {
    assert s[|s| - 1] in s;
    var i :| 0 <= i < |s| && s[i] == MaxLabel(s);
  }

  /** The lines saved for the relabelled graph: the banner, the comment, a header declaring
      n-1 rather than n for n nodes, and one line per edge. */
  lemma SavedLayout(G: Graph, directory: string, base: string)
    requires WellFormed(G)
    ensures var h := Anonymize(G);
      var lines := SaveOutput(h, directory, base, "_anonymized.mtx", "naive_anonymization output", true).value.lines;
      && |lines| == 3 + |G.edges|
      && lines[0] == Banner
      && lines[1] == "% " + "naive_anonymization output" + "\n"
      && (|G.nodes| > 0 ==> lines[2] == HeaderLine(|G.nodes| - 1, |G.edges|))
  {
    var h := Anonymize(G);
    var path := OutputPath(directory, base, "_anonymized.mtx");
    AnonymizeIsomorphic(G);
    LayoutPreamble(h, path, "naive_anonymization output", false);
    LayoutBody(h, path, "naive_anonymization output", false);
    if |h.nodes| > 0 {
      MaxOfPositions(h.nodes);
    }
  }

  /** The saved file reads back as the relabelled graph's edges and node set. */
  lemma SavedReload(G: Graph, directory: string, base: string)
    requires WellFormed(G) && NoIsolated(G)
    ensures var h := Anonymize(G);
      var saved := SaveOutput(h, directory, base, "_anonymized.mtx", "naive_anonymization output", true);
      var out := Load(Concat(saved.value.lines));
      && out.Success?
      && out.value.edges == h.edges
      && NodeSet(out.value.nodes) == NodeSet(h.nodes)
      && DegreeSequence(out.value) == DegreeSequence(h)
  {
    var h := Anonymize(G);
    assert WellFormed(h) by {
      AnonymizeIsomorphic(G);
    }
    AnonymizeNoIsolated(G);
    RunCommentsNoBreak();
    ReloadSaved(h, h, directory, base, "_anonymized.mtx", "naive_anonymization output");
  }

  /** A graph with the relabelled graph's edges, node set and degree sequence has the image of
      G's edges, nodes exactly 0..n-1 (so label 0 whenever G has a node) and G's degree
      sequence. */
  lemma LikeAnonymized(G: Graph, out: Graph)
    requires WellFormed(G)
    requires out.edges == Anonymize(G).edges && NodeSet(out.nodes) == NodeSet(Anonymize(G).nodes)
    requires DegreeSequence(out) == DegreeSequence(Anonymize(G))
    ensures var m := AnonymousIds(G);
      && Over(G.edges, m) && out.edges == Image(G.edges, m)
      && (forall y :: y in out.nodes <==> 0 <= y < |G.nodes|)
      && DegreeSequence(out) == DegreeSequence(G)
  {
    var h := Anonymize(G);
    forall y ensures y in out.nodes <==> y in h.nodes {
      assert y in NodeSet(out.nodes) <==> y in NodeSet(h.nodes);
    }
    AnonymizeIsomorphic(G);
    PositionLabels(h.nodes);
  }

  /** What `run` leaves in the file whose path it returns: the banner, the comment, a header
      declaring n-1 rather than n for n nodes and one line per edge, which read back as the
      image of G's edges, with nodes exactly 0..n-1 (so label 0 is in the file whenever G has a
      node) and G's degree sequence. */
  ghost predicate AnonymizedFile(G: Graph, s: Saved, directory: string, base: string)
    requires WellFormed(G)
  {
    var m := AnonymousIds(G);
    var out := Load(Concat(s.lines));
    && s.path == OutputPath(directory, base, "_anonymized.mtx")
    && |s.lines| == 3 + |G.edges|
    && s.lines[0] == Banner
    && s.lines[1] == "% " + "naive_anonymization output" + "\n"
    && (|G.nodes| > 0 ==> s.lines[2] == HeaderLine(|G.nodes| - 1, |G.edges|))
    && out.Success?
    && Over(G.edges, m) && out.value.edges == Image(G.edges, m)
    && (forall y :: y in out.value.nodes <==> 0 <= y < |G.nodes|)
    && DegreeSequence(out.value) == DegreeSequence(G)
  }

  /** The relabelled graph, saved, makes such a file. */
  lemma SavedAnonymized(G: Graph, directory: string, base: string)
    requires WellFormed(G) && NoIsolated(G)
    ensures AnonymizedFile(G, SaveOutput(Anonymize(G), directory, base, "_anonymized.mtx", "naive_anonymization output", true).value, directory, base)
  {
    var saved := SaveOutput(Anonymize(G), directory, base, "_anonymized.mtx", "naive_anonymization output", true);
    SavedLayout(G, directory, base);
    SavedReload(G, directory, base);
    var out := Load(Concat(saved.value.lines));
    LikeAnonymized(G, out.value);
  }

  /** `run(file_path, k)`: read the graph, relabel it, then save it in verbatim mode to
      `<base>_anonymized.mtx` beside the input and return that path, or None when the save
      raises; k is not used. */
  method Run(text: string, directory: string, base: string, saveOk: bool)
    returns (r: Result<Option<Saved>, RunError>)
    ensures Load(text).Failure? ==> r == Failure(BadFile(Load(text).error))
    ensures Load(text).Success? ==> r.Success? && (r.value.Some? <==> saveOk)
    ensures r.Success? && r.value.Some? ==> AnonymizedFile(Load(text).value, r.value.value, directory, base)
  {
    var loaded := Load(text);
    if loaded.Failure? {
      return Failure(BadFile(loaded.error));
    }
    var G := loaded.value;
    var cpyG := Anonymize(G);
    var saved := SaveOutput(cpyG, directory, base, "_anonymized.mtx", "naive_anonymization output", saveOk);
    if saveOk {
      SavedAnonymized(G, directory, base);
    }
    return Success(saved);
  }

  /** `run(file_path, k)` of scripts/naive_anonymization.py: the same parse and relabelling to
      0..n-1 (lines 30-33); the graph it draws is the relabelled one, it saves nothing, and k is
      not used. */
  method LegacyRun(text: string) returns (r: Result<Graph, RunError>)
    ensures Load(text).Failure? ==> r == Failure(BadFile(Load(text).error))
    ensures Load(text).Success? ==>
      var G := Load(text).value;
      && r.Success?
      && r.value == Anonymize(G)
      && (forall i :: 0 <= i < |r.value.nodes| ==> r.value.nodes[i] == i)
      && |r.value.nodes| == |G.nodes| && |r.value.edges| == |G.edges|
      && DegreeSequence(r.value) == DegreeSequence(G)
  {
    var loaded := Load(text);
    if loaded.Failure? {
      return Failure(BadFile(loaded.error));
    }
    AnonymizeIsomorphic(loaded.value);
    return Success(Anonymize(loaded.value));
  }
}
