/** What the `run` functions share around their algorithms: the errors that escape them, the
    output path they build, and the guarded save at their end. */
module Runs {
  import opened Wrappers
  import opened Graphs
  import opened Mtx

  /** An exception that leaves `run`: the file could not be parsed, `random.choice` was given
      an empty list (IndexError), or `nx.is_connected` was asked about the graph without nodes
      (NetworkXPointlessConcept). */
  datatype RunError = BadFile(error: ParseError) | EmptyChoice | NullGraph

  /** The number of times `for _ in range(k)` runs its body: k, or none for a negative k. */
  function Rounds(k: int): (n: nat)
    ensures k >= 0 ==> n == k
    ensures k < 0 ==> n == 0
  {
    if k < 0 then 0 else k
  }

  /** A file written by a run: the path `run` returns and the lines written to it. */
  datatype Saved = Saved(path: string, lines: seq<string>)

  /** `os.path.join(directory, name)` for a name without a separator: the name under the
      directory, or the name alone when the directory is empty. */
  function JoinPath(directory: string, name: string): (p: string)
    ensures |name| <= |p| && p[|p| - |name|..] == name
    ensures directory == "" ==> p == name
  {
    if directory == "" then name
    else if directory[|directory| - 1] == '/' then directory + name
    else directory + "/" + name
  }

  /** `os.path.join(os.path.dirname(file_path), f"{base}{suffix}")`, with the directory and the
      base name of the input given. */
  function OutputPath(directory: string, base: string, suffix: string): string {
    JoinPath(directory, base + suffix)
  }

  /** The `try` around `save_graph_as_mtx(cpyG, out_path, comment=..., remap_to_one_based=False)`:
      `ok` says whether the file system let the write through; when it did not, the exception is
      caught and `run` returns None. */
  function SaveOutput(g: Graph, directory: string, base: string, suffix: string, comment: string, ok: bool)
    : (r: Option<Saved>)
    requires WellFormed(g)
    ensures r.Some? <==> ok
    ensures r.Some? ==> r.value.path == OutputPath(directory, base, suffix)
  {
    if ok then
      var path := OutputPath(directory, base, suffix);
      Some(Saved(path, SaveGraphAsMtx(g, Some(path), comment, false).value.1))
    else None
  }

  /** The comments the runs write hold no line break. */
  lemma RunCommentsNoBreak()
    ensures NoBreak("random_add_delete output")
    ensures NoBreak("random_switch output")
    ensures NoBreak("naive_anonymization output")
  {
  }

  /** A saved graph reads back with its own edges, and with no node it did not have. */
  lemma ReloadSavedEdges(g: Graph, directory: string, base: string, suffix: string, comment: string)
    requires WellFormed(g) && NoBreak(comment)
    ensures var out := Load(Concat(SaveOutput(g, directory, base, suffix, comment, true).value.lines));
      && out.Success?
      && out.value.edges == g.edges
      && NodeSet(out.value.nodes) <= NodeSet(g.nodes)
  {
    var path := OutputPath(directory, base, suffix);
    RoundTripVerbatim(g, path, comment);
    var h := Load(Concat(Written(g, path, comment, false))).value;
    forall x | x in h.nodes ensures x in g.nodes {
      DegreeIncident(h.edges, x);
      var e :| e in Incident(h.edges, x);
    }
  }

  /** A saved graph with the nodes and degrees of `reference` and no isolated node reads back
      with `reference`'s nodes, edge count and degree sequence. */
  lemma ReloadSaved(g: Graph, reference: Graph, directory: string, base: string, suffix: string, comment: string)
    requires WellFormed(g) && NoBreak(comment) && WellFormed(reference) && NoIsolated(reference)
    requires NodeSet(g.nodes) == NodeSet(reference.nodes) && |g.edges| == |reference.edges|
    requires forall x :: Degree(g.edges, x) == Degree(reference.edges, x)
    ensures var out := Load(Concat(SaveOutput(g, directory, base, suffix, comment, true).value.lines));
      && out.Success?
      && out.value.edges == g.edges
      && NodeSet(out.value.nodes) == NodeSet(reference.nodes)
      && |out.value.edges| == |reference.edges|
      && DegreeSequence(out.value) == DegreeSequence(reference)
  {
    var path := OutputPath(directory, base, suffix);
    assert NoIsolated(g) by {
      forall x | x in g.nodes ensures Degree(g.edges, x) > 0 {
        assert x in NodeSet(reference.nodes);
      }
    }
    RoundTripVerbatim(g, path, comment);
    var h := Load(Concat(Written(g, path, comment, false))).value;
    assert DegreeSequence(g) == DegreeSequence(reference) by {
      SameDegreeSequence(g, reference);
    }
  }
}
