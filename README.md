# Graph-Anonymization in Dafny

This project models the graph-anonymization scripts of Graph-Anonymization. Each script reads
an undirected graph from a Matrix Market coordinate file. It perturbs a copy of the graph, or
relabels it, and writes the result back in the same format.

The model covers the following:

- **The file format** (`Mtx`, `Text`). `save_graph_as_mtx` is modelled in both of its modes:
  - remap to 1..n, with a `% orig -> new` line per node;
  - verbatim integer labels, where the header size is the largest label.

  The writer is a function from a graph to the chunks it writes. The parse copied into every
  `run` is modelled with Python's `str.split()`, `int()` and `str()`:
  - read the lines;
  - drop `%` lines;
  - read a three-integer header;
  - read integer pairs;
  - pass them to `add_edges_from`.

  Writing and then parsing is proved to give back the written edge list, whatever the header
  says.
- **The graph** (`Graphs`). A networkx `Graph` is a node list in insertion order plus a set of
  unordered edges. `G.edges()` is modelled as the list networkx produces: grouped by the first
  endpoint in node order, and oriented with the earlier node first. The working copy `cpyG`
  that the scripts mutate is the class `MutableGraph`. Its `add_edge`, `remove_edge` and
  `has_edge` update its fields in place.
- **The four perturbations**:
  - `RandomAddDelete`: double-edge swaps;
  - `RandomSwitch`: add a non-edge, then remove an edge from the snapshot taken before;
  - `RandomWalk`: walk-based rewiring with its two counters;
  - `NaiveAnonymization`: relabelling to 0..n-1.

  Each is a method with the loop of the source and the invariants that loop keeps.
  `random.choice` is a nondeterministic pick (`:|`), so every property holds for every choice.
  Each `run` is modelled once, as the script under `scripts/anonymization/`. The older copies
  under `scripts/` hold the same loops without the save, and are the `LegacyRun` methods:
  - scripts/random_add_delete.py lines 28-59 correspond to lines 30-61;
  - scripts/random_switch.py lines 29-61 correspond to lines 31-63;
  - scripts/naive_anonymization.py lines 32-33 correspond to lines 34-35.
- **The integrity check** that testing/test.py asks for: saved graphs should keep the degree
  sequence (`Integrity`). This is where the finding below comes from.

Inputs that the scripts get from the world are parameters:

- the file's text;
- the output directory and base name, which stand in for `os.path.dirname`, `basename` and
  `splitext`;
- `saveOk`, which says whether the write succeeded, in place of the `try`/`except` around the
  save.
- the round count `k`, any integer, since the scripts take `int(k)` unchecked. A negative k
  runs no round, as `range(k)` is then empty (`Runs.Rounds`).

## Model

| member | source | states |
|---|---|---|
| Text.Split | scripts/anonymization/random_switch.py:16-19 | `str.split()` gives non-empty words that contain no whitespace |
| Text.SplitAtSpace | scripts/anonymization/random_switch.py:16-19 | the words of a line are the words before any whitespace character in it followed by the words after it |
| Text.SplitWordAlone | scripts/anonymization/random_switch.py:16-19 | a non-empty run of non-whitespace characters splits into exactly itself |
| Text.SplitThree | scripts/utils/util_mtx.py:64 | a header line `a b c\n` with three whitespace-free words splits back into exactly those three words |
| Text.SplitTwo | scripts/utils/util_mtx.py:66 | an edge line `a b\n` splits back into exactly those two words |
| Text.IntStrRoundTrip | scripts/utils/util_mtx.py:64-70 | `str(n)` is non-empty and has no whitespace; it starts with `-` or a digit; `int(str(n)) == n` |
| Mtx.ReadWrittenLines | scripts/utils/util_mtx.py:55-70 | whole lines written one after another and read back line by line are the same lines |
| Mtx.DropCommentsKeeps | scripts/anonymization/random_switch.py:13 | the filter keeps exactly the lines that do not start with `%` |
| Mtx.DropCommentsLine | scripts/anonymization/random_switch.py:13 | a single `%` line is dropped and any other single line is kept |
| Mtx.DropCommentsJoin | scripts/anonymization/random_switch.py:13 | filtering a concatenation concatenates the filtered parts, so the kept lines keep their order and their repeats |
| Mtx.ParseTuplesSpec | scripts/anonymization/random_switch.py:19 | the tuple list exists exactly when every line is all integers, and then it holds one tuple per line, in order |
| Mtx.AsPairsSpec | scripts/anonymization/random_switch.py:25 | `add_edges_from` accepts the tuples exactly when each is a pair, and takes them in order |
| Mtx.ParseSpec | scripts/anonymization/random_switch.py:12-25 | no content line gives NoHeader; a first content line that is not three integers gives BadHeader; the parse succeeds exactly when every further line is two integers, giving one pair per line, in order |
| Mtx.SaveGraphAsMtx | scripts/utils/util_mtx.py:19-72 | with no output path the save fails with ValueError and writes nothing; otherwise it succeeds and returns the path it was given |
| Mtx.RemapBijection | scripts/utils/util_mtx.py:22-27 | the remap mapping is injective, its domain is the node list, and its values are exactly 1..n |
| Mtx.MapPairsEdges | scripts/utils/util_mtx.py:29-36 | renaming each `G.edges()` pair through the mapping gives exactly the image of the edge set |
| Mtx.MaxLabel | scripts/utils/util_mtx.py:43 | the verbatim size is a listed label that bounds every label, or 0 for no nodes |
| Mtx.LayoutPreamble | scripts/utils/util_mtx.py:55-63 | banner first, then the `% comment` line exactly when the comment is non-empty; in remap mode the mapping note and one `% orig -> i+1` line per node, in node order; all are `%` lines |
| Mtx.LayoutBody | scripts/utils/util_mtx.py:64-70 | then `n n m`, with n the node count (remap) or the largest label (verbatim) and m the edge count, then exactly m edge lines holding the written pairs in order; none is a `%` line |
| Mtx.WrittenAllLines | scripts/utils/util_mtx.py:55-70 | when the comment has no line break, every chunk written is one whole line |
| Mtx.ParseHeader | scripts/anonymization/random_switch.py:16 | the written header line reads back as the three integers n, n, m |
| Mtx.ParseEdgeLines | scripts/anonymization/random_switch.py:19 | the written edge lines are not `%` lines and read back as the same pairs, in order |
| Mtx.ParseLayout | scripts/anonymization/random_switch.py:12-19 | `%` lines, a header and edge lines parse to the pairs of the edge lines; the header values play no part |
| Mtx.RoundTrip | scripts/utils/util_mtx.py:55-70 | the parse of a saved file gives back exactly the written pairs, in both modes, and its first content line is the header |
| Mtx.Load | scripts/anonymization/random_switch.py:24-25 | a graph read from a file is well formed and has no node without an edge |
| Mtx.RoundTripVerbatim | scripts/utils/util_mtx.py:67-70 | a verbatim file reads back with the graph's edge set; with no isolated node it also has the node set and the degree sequence |
| Mtx.RoundTripRemap | scripts/utils/util_mtx.py:59-66 | a remap file reads back with the image of the edge set under 1..n; with no isolated node its nodes are exactly 1..n and the degree sequence is kept |
| Mtx.NumberedGraph | scripts/utils/util_mtx.py:26 | the graph renamed by the 1..n mapping is well formed, has nodes exactly 1..n and keeps the degree sequence |
| Graphs.WithEdgeWellFormed | scripts/anonymization/random_add_delete.py:58-59 | `add_edge` keeps the graph well formed, adds its endpoints to the node set, and keeps the node list when both are nodes |
| Graphs.FromEdgesShape | scripts/anonymization/random_switch.py:24-25 | the graph built from pairs is well formed, and its edges are the pairs with orientation and repeats forgotten |
| Graphs.FromEdgesNoIsolated | scripts/anonymization/random_switch.py:24-25 | every node of a graph built from pairs is an endpoint of one of them |
| Graphs.FromEdgesSimple | scripts/anonymization/random_switch.py:24-25 | the built graph has no self-loop exactly when no pair is a loop |
| Graphs.EdgeListMember | scripts/anonymization/random_switch.py:41 | a pair is in `G.edges()` exactly when it is an edge whose first node comes no later in node order |
| Graphs.EdgeListEdges | scripts/anonymization/random_add_delete.py:32 | `G.edges()` lists every edge exactly once |
| Graphs.Numbering | scripts/utils/util_mtx.py:26 | the numbering is defined exactly on the listed nodes and sends the i-th node to base + i |
| Graphs.Neighbors | scripts/anonymization/random_walk.py:49 | `G.neighbors(x)` lists exactly the nodes joined to x |
| Graphs.DegreeIncident | scripts/anonymization/random_walk.py:49-53 | a node has positive degree exactly when some edge touches it |
| Graphs.DegreesPermutation | testing/test.py:10 | the sorted degree list depends only on the nodes as a multiset, not on their order |
| Graphs.SameDegreeSequence | testing/test.py:10 | two graphs with the same node set whose degrees agree node by node have equal degree sequences |
| Graphs.RelabelIsomorphic | scripts/anonymization/naive_anonymization.py:35 | `relabel_nodes` by an injective mapping gives a well-formed graph with the same node and edge counts; nodes x, y are joined exactly when m[x], m[y] are; each degree carries over and the degree sequence is kept |
| Graphs.SameEdgesSameDegrees | testing/test.py:10-14 | two graphs without isolated nodes that have the same edges have the same node set and degree sequence |
| Graphs.MutableGraph.Copy | scripts/anonymization/random_add_delete.py:31 | the copy holds the graph's nodes and edges |
| Graphs.MutableGraph.AddEdge | scripts/anonymization/random_add_delete.py:58-59 | `add_edge` makes the working copy the graph with that edge added, its endpoints joining the node list |
| Graphs.MutableGraph.RemoveEdge | scripts/anonymization/random_add_delete.py:56-57 | `remove_edge` on a present edge takes exactly that edge out |
| Runs.JoinPath | scripts/anonymization/random_add_delete.py:79 | `os.path.join` ends with the file name and is the name alone for an empty directory |
| Runs.SaveOutput | scripts/anonymization/random_add_delete.py:77-85 | the guarded save returns a file exactly when the write succeeds, and the file's path is `<dir>/<base><suffix>` |
| Runs.ReloadSaved | scripts/anonymization/random_add_delete.py:80 | a saved graph that has the input's node set and degrees reads back with the input's node set, edge count and degree sequence |
| Runs.ReloadSavedEdges | scripts/anonymization/random_switch.py:82 | a saved graph reads back with its own edges and no node it did not have |
| RandomAddDelete.FourDistinct | scripts/anonymization/random_add_delete.py:47 | `len({a,b,c,d}) < 4` holds exactly when two of the four nodes coincide |
| RandomAddDelete.SwapDegree | scripts/anonymization/random_add_delete.py:56-59 | the four edge changes of a swap leave every node's degree as it was |
| RandomAddDelete.SwapPreserves | scripts/anonymization/random_add_delete.py:56-59 | a swap that is not skipped keeps the node list; the edge set becomes (E − {ab, cd}) ∪ {ad, bc}; every degree, the degree sequence and the edge count are kept; no self-loop appears |
| RandomAddDelete.Attempt | scripts/anonymization/random_add_delete.py:40-59 | an attempt swaps exactly when e1 ≠ e2, a, b, c, d are distinct, and a–d and b–c are not edges; otherwise the working copy is untouched |
| RandomAddDelete.SwapLoop | scripts/anonymization/random_add_delete.py:30-61 | the loop fails (empty `random.choice`) exactly when k > 0 and there is no edge; otherwise exactly k attempts lead from the input to the result, each on two edges of the current edge list and each skipped (nothing changes) or a swap, as Attempt states; the node list, edge count, every degree and the degree sequence are kept; a simple graph stays simple |
| RandomAddDelete.Run | scripts/anonymization/random_add_delete.py:10-85 | a bad file gives its parse error; otherwise, for any integer k, the choice fails exactly for an edgeless graph and k > 0 (a negative k runs no round); the result is a path exactly when the save succeeds; that path is `<base>_randadddel.mtx`; the saved file is the save of the working copy after exactly max(k, 0) attempts, each as SwapLoop records it (two edges from the current edge list, then skip or swap), starting from the read graph; it reads back with the input's node set, edge count and degree sequence |
| RandomAddDelete.LegacyRun | scripts/random_add_delete.py:8-59 | the same parse and swap loop, for any integer k: the choice fails exactly for an edgeless graph and k > 0; otherwise the result is the working copy after exactly max(k, 0) recorded attempts from the read graph, with node list, edge count and degree sequence kept |
| RandomSwitch.NonEdgesExactly | scripts/anonymization/random_switch.py:37-44 | the candidates are exactly the node pairs, earlier node first, that are not edges |
| RandomSwitch.NonEdgesEmpty | scripts/anonymization/random_switch.py:47-48 | there is no candidate exactly when every two distinct nodes are joined |
| RandomSwitch.EdgeTuplesEmpty | scripts/anonymization/random_switch.py:41 | the snapshot is empty exactly when the graph has no edge |
| RandomSwitch.SwitchRound | scripts/anonymization/random_switch.py:50-63 | the added pair is no self-loop; the removed edge, taken from the earlier snapshot, is present and is not the added pair; the node list and edge count are kept and the edge set becomes (E ∪ {p}) − {q} |
| RandomSwitch.Round | scripts/anonymization/random_switch.py:37-62 | one round stops, changing nothing, exactly when no candidate is left; it fails exactly when there is no edge and there are at least two nodes; otherwise it adds a current non-edge p and removes an edge q of the snapshot, the new edge set being (E ∪ {p}) − {q}, with the node list, edge count and simplicity kept |
| RandomSwitch.SwitchLoop | scripts/anonymization/random_switch.py:31-63 | the loop fails (empty snapshot) exactly when k > 0, there is no edge and there are at least two nodes; otherwise at most k rounds lead from the input to the result, each adding a current non-edge and removing an edge of its snapshot, and fewer than k only when no candidate is left in the result; the node list is fixed, the edge count kept and a simple graph stays simple |
| RandomSwitch.LoadedCannotFail | scripts/anonymization/random_switch.py:59-62 | a graph read from a file with a node has an edge, so the failing choice never happens after a load |
| RandomSwitch.Run | scripts/anonymization/random_switch.py:10-87 | a bad file gives its parse error; otherwise the run succeeds for any integer k (a negative k runs no round); the result is a path exactly when the save succeeds; that path is `<base>_randswitch.mtx`; the saved file is the save of the working copy after at most max(k, 0) rounds, each as SwitchLoop records it (a current non-edge added, a snapshot edge removed), starting from the read graph and stopping early only when no candidate is left; it reads back with the input's edge count, no new node, and no self-loop when the input had none |
| RandomSwitch.LegacyRun | scripts/random_switch.py:8-61 | the same parse and rounds, for any integer k: the run succeeds, and the result is the working copy after at most max(k, 0) recorded rounds from the read graph, fewer only when no candidate is left, with the node list and edge count kept |
| RandomWalk.WalkEndHasNeighbor | scripts/anonymization/random_walk.py:49-59 | a walk from a node with a neighbour ends at a node with a neighbour |
| RandomWalk.Walk | scripts/anonymization/random_walk.py:44-62 | the endpoint ends a walk on G from v of at most k steps; it stops early only at a node without neighbours; from a node with a neighbour it takes all k steps |
| RandomWalk.Except | scripts/anonymization/random_walk.py:79 | the candidates are exactly the neighbours other than v |
| RandomWalk.AvoidSelfLoop | scripts/anonymization/random_walk.py:73-90 | an endpoint equal to u becomes a G-neighbour of u other than v, or v, and it is v exactly when v is u's only neighbour; any other endpoint is kept; in a simple graph the result is never u; the branch for a u without neighbours cannot be reached |
| RandomWalk.ReplaceEdge | scripts/anonymization/random_walk.py:113-115 | replacing (u, v) by an absent (u, w) keeps the node list and edge count, and a simple graph stays simple when w ≠ u |
| RandomWalk.RestoreEdge | scripts/anonymization/random_walk.py:103-105 | removing (u, v) and adding it back restores the graph |
| RandomWalk.Rewire | scripts/anonymization/random_walk.py:41-115 | the walk from v is a walk on G of exactly k steps (v has the neighbour u, so it never stops early); the endpoint checked for a duplicate is the walk's end, or, when the walk came back to u, a G-neighbour of u that is v exactly when v is u's only neighbour; (u, v) is restored only when that checked edge was already present once (u, v) had gone and the neighbour of the checked endpoint picked as the alternative was u or already joined to u, and then nothing changes; otherwise an edge (u, endpoint) that was absent replaces (u, v), where endpoint is the checked one when that edge was absent and otherwise the picked alternative, a G-neighbour of the checked one other than u; the edge count never changes; a simple graph stays simple; the no-neighbour branch at lines 107-111 cannot be reached |
| RandomWalk.CheckedNear | scripts/anonymization/random_walk.py:44-84 | the endpoint checked for a duplicate lies at most k + 1 steps from u in G: the edge (u, v) followed by the walk, or one edge of u |
| RandomWalk.StepEdges | scripts/anonymization/random_walk.py:93-115 | after one step, every edge is still an edge of G or joins the ends of a walk on G of at most k + 2 steps |
| RandomWalk.HistoryReach | scripts/anonymization/random_walk.py:41-115 | after any number of steps from G's edges, every edge is an edge of G or joins the ends of a walk on G of at most k + 2 steps |
| RandomWalk.RewireAll | scripts/anonymization/random_walk.py:30-115 | every original edge is processed once, in the model's edge-list order (see "## Left out"), each step recorded with its k-step walk from v on G, its checked endpoint and its outcome on the working copy exactly as Rewire states them, from G's edges to the result's; the node list and edge count are kept; a simple graph stays simple; every edge of the result is an edge of G or joins two nodes at most k + 2 steps apart in G; `self_loops_avoided` is 0 and `duplicates_avoided` counts the restored edges |
| RandomWalk.Run | scripts/anonymization/random_walk.py:8-142 | a bad file gives its parse error; a file that lists no edge line gives NullGraph whatever its header says, where line 125 raises; otherwise the rewired graph is the end of RewireAll's history (one recorded step per edge of the read graph, each with its k-step walk from v on G, its checked endpoint and its outcome as Rewire states them), it keeps the node list, the edge count and simplicity, every edge lies within max(k, 0) + 2 steps in G, `self_loops_avoided` is 0 and `duplicates_avoided` counts the restored edges; a negative k walks no step |
| NaiveAnonymization.AnonymousIdsBijection | scripts/anonymization/naive_anonymization.py:34 | the i-th node goes to i; the mapping is a bijection from the node list onto 0..n-1 |
| NaiveAnonymization.Anonymize | scripts/anonymization/naive_anonymization.py:35 | the relabelled graph is well formed and has as many nodes |
| NaiveAnonymization.AnonymizeIsomorphic | scripts/anonymization/naive_anonymization.py:34-35 | the relabelled graph has nodes 0..n-1 in order and the image of the edges, with the same edge count; joined exactly when the originals were (isomorphic); the degree sequence is kept |
| NaiveAnonymization.SavedLayout | scripts/anonymization/naive_anonymization.py:59 | the saved file is banner, comment, a header declaring n-1 (not n) for n nodes, and one line per edge |
| NaiveAnonymization.AnonymizeNoIsolated | scripts/anonymization/naive_anonymization.py:35 | relabelling a graph without isolated nodes leaves none |
| NaiveAnonymization.SavedReload | scripts/anonymization/naive_anonymization.py:59 | the saved relabelled graph reads back with its own edges, node set and degree sequence |
| NaiveAnonymization.LikeAnonymized | scripts/anonymization/naive_anonymization.py:34-35 | a graph with the relabelled graph's edges, node set and degree sequence has nodes exactly 0..n-1 (so label 0) and the input's degree sequence |
| NaiveAnonymization.SavedAnonymized | scripts/anonymization/naive_anonymization.py:56-61 | the saved file has that layout and reads back with the image edges, nodes exactly 0..n-1 and the input's degree sequence |
| NaiveAnonymization.Run | scripts/anonymization/naive_anonymization.py:10-64 | a bad file gives its parse error; otherwise the result is a path to `<base>_anonymized.mtx` exactly when the save succeeds, and that file is as SavedAnonymized states |
| NaiveAnonymization.LegacyRun | scripts/naive_anonymization.py:8-33 | the same parse; the result is exactly the read graph relabelled to 0..n-1, the i-th node to i, with the node count, edge count and degree sequence kept |
| Integrity.IsolatedNodeLost | scripts/utils/util_mtx.py:68-70 | a verbatim file of a graph with a degree-0 node reads back without that node, with another degree sequence |
| Integrity.StarFile | scripts/utils/util_mtx.py:67-70 | the verbatim file written of the star 1–2, 1–3, 1–4 reads back as exactly the star |
| Integrity.SwitchIsolates | scripts/anonymization/random_switch.py:53-63 | the star 1–2, 1–3, 1–4 is read from the file written of it; one round on it may add (2, 3) and remove (1, 4), a round as `RoundOk` admits; node 4 is left without edges, and the saved file reads back without it and with another degree sequence |
| Integrity.LoadDeclared | scripts/anonymization/random_switch.py:16 | reading the header's size as nodes 1..n fails exactly when the runs' read fails, and has the same edges |
| Integrity.AddEdgesShape | scripts/anonymization/random_switch.py:25 | adding pairs to a graph keeps it well formed, adds exactly their edges, and adds no node when their ends are already nodes |
| Integrity.RoundTripDeclared | testing/test.py:10-14 | a remap-mode file read with its declared size is the graph relabelled to 1..n, nodes in order, with the same degree sequence, isolated nodes or not |
| Integrity.SwitchIsolatesDeclared | testing/test.py:10-11 | on the star example the corrected read keeps node 4 and the degree sequence |

## Left out

- File and console I/O are not modelled: `open`, `os.makedirs`, `print`. The file is its text,
  and the writer returns the chunks it writes.
- A failed write is the `saveOk` parameter. The model does not say why the file system refuses.
- `os.path.basename`, `splitext` and `dirname` of the input path are not modelled. Their
  results are the `directory` and `base` parameters. `os.path.join` is modelled for POSIX
  separators.
- Drawing is not modelled: `spring_layout`, `nx.draw`, `plt.show`, `plt.title`. It has no
  effect on the graphs.
- random_walk's connectivity report (lines 124-129) and its printed statistics are not
  modelled. `Run` returns the two counters instead of printing them. The one effect of the
  report that is modelled is the exception `nx.is_connected` raises on a graph without nodes:
  `Run` returns it as the NullGraph failure.
- The distribution of `random.choice` is not modelled. Every choice is an arbitrary pick, and
  the properties hold for all of them.
- Within one node's group, a networkx edge list follows adjacency insertion order. The model
  lists the neighbours in node order. The group order, the orientation and the set of listed
  pairs are as in networkx, but the order of lines in a saved file can differ, and with it
  the node order of the graph read back from that file. For edges added in the order
  (1, 4), (2, 3), (1, 3), (1, 2), networkx writes `1 4`, `1 3`, `1 2`, `2 3` and the file reads
  back with nodes 1, 4, 3, 2; the model writes `1 2` before `1 3` and reads back 1, 4, 2, 3.
- RewireAll: the edges are processed in the model's edge-list order, not in networkx's
  `G.edges()` order, which differs within one node's group as above. Each step reads the
  working copy left by the steps before it, so for the same random choices the model and
  networkx can produce different graphs. `HistoryReach` holds for steps taken in any order of
  the edges; the other properties are proved for the model's order.
- Node labels are integers throughout. The ValueError for a non-integer label in verbatim mode
  (util_mtx.py:39-42) therefore has no counterpart. `int()` is modelled for ASCII digits,
  signs and single underscores, not for other Unicode digits.
- The round-trip lemmas require a comment without line breaks. Every comment the runs pass
  qualifies (`Runs.RunCommentsNoBreak`).
- Mtx.SaveGraphAsMtx: `comment=None` and `comment=""` are both the empty string, and both
  write no comment line, as in the source.
- NaiveAnonymization.Run: the unused parameter `k` is dropped.
- NaiveAnonymization.LegacyRun: the unused parameter `k` of scripts/naive_anonymization.py:8
  is dropped.
- RandomWalk.Run: at lines 85-90 `self_loops_avoided` can never be incremented. v is always a
  neighbour of u, so that branch is unreachable, and the model proves the counter stays 0
  rather than modelling an increment.
- RandomSwitch.Run: it states no degree-sequence property, because the rounds do not keep
  degrees. It states the edge count and the node subset.
- The k-core, k-shell and centrality utilities, main.py and the drawing helper are outside this
  model.

## Findings

| source | as written | input that shows it | evidently intended | confidence | as-written member | corrected member |
|---|---|---|---|---|---|---|
| scripts/anonymization/random_switch.py:53-63 with scripts/utils/util_mtx.py:68-70 and scripts/anonymization/random_switch.py:12-25 | A round can remove the last edge of a node. The verbatim file lists edges only, and the shared parse ignores the header's size. Reading the saved graph back therefore drops that node, and its degree sequence differs from the graph the run produced. This is the check testing/test.py:10-11 asks for. | the star 1–2, 1–3, 1–4; one round adds (2, 3) and removes (1, 4) | the saved graph reads back with the anonymized graph's nodes and degree sequence | not executed | Integrity.SwitchIsolates (with Integrity.IsolatedNodeLost) | Integrity.RoundTripDeclared (with Integrity.SwitchIsolatesDeclared): the file is saved in remap mode and read with its declared size as nodes 1..n |
