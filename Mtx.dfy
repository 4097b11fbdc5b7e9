/** The graph file format: `save_graph_as_mtx` in scripts/utils/util_mtx.py, and the parse that
    every `run` opens with (read the lines, drop `%` lines, read a three-integer header, read
    integer edge tuples, hand them to `add_edges_from`). */
module Mtx {
  import opened Wrappers
  import opened Text
  import opened Graphs

  // ---------------------------------------------------------------------------------------
  // Reading a file as `for l in open(path)` does

  predicate IsLineBreak(c: char) {
    c == '\n' || c == '\r'
  }

  /** The length of the line body at the start of t: everything before the first line break. */
  function BodyLength(t: string): (k: nat)
    ensures k <= |t| && (k < |t| ==> IsLineBreak(t[k]))
    ensures forall i :: 0 <= i < k ==> !IsLineBreak(t[i])
  {
    if t == [] || IsLineBreak(t[0]) then 0 else 1 + BodyLength(t[1..])
  }

  /** The lines of a text file opened in text mode: `\r\n` and a lone `\r` are read as `\n`, and
      each line keeps its `\n`, except perhaps the last. */
  function ReadLines(t: string): seq<string>
    decreases |t|
  {
    if t == [] then []
    else
      var k := BodyLength(t);
      if k == |t| then [t]
      else
        var skip := if t[k] == '\r' && k + 1 < |t| && t[k + 1] == '\n' then 2 else 1;
        [t[..k] + "\n"] + ReadLines(t[k + skip..])
  }

  /** The text a sequence of `fh.write` calls leaves in the file. */
  function Concat(chunks: seq<string>): string {
    if chunks == [] then [] else chunks[0] + Concat(chunks[1..])
  }

  /** s is one whole line: a body without line breaks, then `\n`. */
  predicate IsLine(s: string) {
    |s| > 0 && s[|s| - 1] == '\n' && forall i :: 0 <= i < |s| - 1 ==> !IsLineBreak(s[i])
  }

  lemma BodyLengthOfLine(s: string, rest: string)
    requires IsLine(s)
    ensures BodyLength(s + rest) == |s| - 1
  {
    var t := s + rest;
    assert t[|s| - 1] == '\n';
    assert forall i :: 0 <= i < |s| - 1 ==> t[i] == s[i];
  }

  /** Writing whole lines one after another and reading the file back gives the same lines. */
  lemma {:induction false} ReadWrittenLines(chunks: seq<string>)
    requires forall i :: 0 <= i < |chunks| ==> IsLine(chunks[i])
    ensures ReadLines(Concat(chunks)) == chunks
  {
    if chunks != [] {
      var s := chunks[0];
      var rest := Concat(chunks[1..]);
      var t := s + rest;
      BodyLengthOfLine(s, rest);
      var k := |s| - 1;
      assert t[k] == '\n';
      assert t[..k] + "\n" == s;
      assert t[k + 1..] == rest;
      ReadWrittenLines(chunks[1..]);
    }
  }

  // ---------------------------------------------------------------------------------------
  // The parse each run performs

  /** What goes wrong, as the Python exception it raises. */
  datatype ParseError =
    | NoHeader       // `lines[0]` on an empty list: IndexError
    | BadHeader      // the header is not exactly three integers: ValueError
    | NotAnInteger   // a word of an edge line is not an integer: ValueError
    | BadEdgeTuple   // `add_edges_from` gets a tuple that is not a pair: NetworkXError or TypeError

  predicate IsComment(line: string) {
    |line| > 0 && line[0] == '%'
  }

  /** `[l for l in f if not l.startswith('%') and not l.startswith('%%')]`. */
  function DropComments(lines: seq<string>): seq<string> {
    if lines == [] then []
    else (if IsComment(lines[0]) then [] else [lines[0]]) + DropComments(lines[1..])
  }

  /** `map(int, words)` taken to the end: None when some word is not an integer. */
  function ParseInts(words: seq<string>): (r: Option<seq<int>>)
    ensures r.Some? ==> |r.value| == |words|
  {
    if words == [] then Some([])
    else
      match (ParseInt(words[0]), ParseInts(words[1..]))
      case (Some(v), Some(vs)) => Some([v] + vs)
      case _ => None
  }

  /** `[tuple(map(int, line.split())) for line in lines]`. */
  function ParseTuples(lines: seq<string>): Option<seq<seq<int>>> {
    if lines == [] then Some([])
    else
      match (ParseInts(Split(lines[0])), ParseTuples(lines[1..]))
      case (Some(t), Some(ts)) => Some([t] + ts)
      case _ => None
  }

  /** What `add_edges_from` makes of the tuples: each must be a pair (a 3-tuple would need a
      dict as its third item, and an int is not one). */
  function AsPairs(ts: seq<seq<int>>): Option<seq<(int, int)>> {
    if ts == [] then Some([])
    else if |ts[0]| != 2 then None
    else
      match AsPairs(ts[1..])
      case Some(ps) => Some([(ts[0][0], ts[0][1])] + ps)
      case None => None
  }

  /** Lines 12-19 and 25 of every run: the file lines to the edge pairs the graph is built from.
      The header's three integers are read and then not used. */
  function Parse(file: seq<string>): Result<seq<(int, int)>, ParseError> {
    var content := DropComments(file);
    if content == [] then Failure(NoHeader)
    else
      var header := ParseInts(Split(content[0]));
      if header.None? || |header.value| != 3 then Failure(BadHeader)
      else
        match ParseTuples(content[1..])
        case None => Failure(NotAnInteger)
        case Some(ts) =>
          match AsPairs(ts)
          case None => Failure(BadEdgeTuple)
          case Some(ps) => Success(ps)
  }

  /** The `%` filter keeps exactly the lines that do not start with `%`. */
  lemma {:induction false} DropCommentsKeeps(lines: seq<string>)
    ensures forall l :: l in DropComments(lines) <==> l in lines && !IsComment(l)
  {
    if lines != [] {
      DropCommentsKeeps(lines[1..]);
      assert forall l :: l in lines <==> l == lines[0] || l in lines[1..];
    }
  }

  /** A line `map(int, line.split())` reads as exactly k integers. */
  predicate IntsLine(line: string, k: nat) {
    ParseInts(Split(line)).Some? && |ParseInts(Split(line)).value| == k
  }

  lemma {:induction false} ParseTuplesSpec(lines: seq<string>)
    ensures ParseTuples(lines).Some? <==> forall i :: 0 <= i < |lines| ==> ParseInts(Split(lines[i])).Some?
    ensures ParseTuples(lines).Some? ==>
      |ParseTuples(lines).value| == |lines|
      && forall i :: 0 <= i < |lines| ==> ParseTuples(lines).value[i] == ParseInts(Split(lines[i])).value
  {
    if lines != [] {
      var rest := lines[1..];
      ParseTuplesSpec(rest);
      assert lines == [lines[0]] + rest;
      ParseTuplesCons(lines[0], rest);
      assert forall i :: 1 <= i < |lines| ==> lines[i] == rest[i - 1];
      if ParseTuples(lines).Some? {
        var t := ParseInts(Split(lines[0])).value;
        var ts := ParseTuples(rest).value;
        assert ParseTuples(lines).value == [t] + ts;
      }
    }
  }

  lemma {:induction false} AsPairsSpec(ts: seq<seq<int>>)
    ensures AsPairs(ts).Some? <==> forall i :: 0 <= i < |ts| ==> |ts[i]| == 2
    ensures AsPairs(ts).Some? ==>
      |AsPairs(ts).value| == |ts|
      && forall i :: 0 <= i < |ts| ==> AsPairs(ts).value[i] == (ts[i][0], ts[i][1])
  {
    if ts != [] {
      AsPairsSpec(ts[1..]);
      assert forall i :: 1 <= i < |ts| ==> ts[i] == ts[1..][i - 1];
    }
  }

  /** What the parse accepts and what it makes of it: with no line left after dropping `%`
      lines it fails for want of a header; a first line that is not three integers is a bad
      header; otherwise it succeeds exactly when every further line is two integers, giving
      one pair per line, in order. The header's values are only checked for being integers. */
  lemma ParseSpec(file: seq<string>)
    ensures var content := DropComments(file);
      var r := Parse(file);
      && (content == [] ==> r == Failure(NoHeader))
      && (content != [] && !IntsLine(content[0], 3) ==> r == Failure(BadHeader))
      && (r.Success? <==> content != [] && IntsLine(content[0], 3) && forall i :: 1 <= i < |content| ==> IntsLine(content[i], 2))
      && (r.Success? ==>
            |r.value| == |content| - 1
            && forall i :: 0 <= i < |r.value| ==> ParseInts(Split(content[i + 1])) == Some([r.value[i].0, r.value[i].1]))
  {
    var content := DropComments(file);
    if content != [] && IntsLine(content[0], 3) {
      var rest := content[1..];
      ParseTuplesSpec(rest);
      assert forall i :: 1 <= i < |content| ==> content[i] == rest[i - 1];
      if ParseTuples(rest).Some? {
        var ts := ParseTuples(rest).value;
        AsPairsSpec(ts);
        if AsPairs(ts).Some? {
          var ps := AsPairs(ts).value;
          forall i | 0 <= i < |ps| ensures ParseInts(Split(content[i + 1])) == Some([ps[i].0, ps[i].1]) {
            assert ts[i] == ParseInts(Split(rest[i])).value;
            assert ts[i] == [ts[i][0], ts[i][1]];
          }
        }
      }
    }
  }

  /** Opening the file at its path and parsing it: the text is the file's contents. */
  function ParseFile(text: string): Result<seq<(int, int)>, ParseError> {
    Parse(ReadLines(text))
  }

  // ---------------------------------------------------------------------------------------
  // `save_graph_as_mtx`

  // Written in short pieces: the verifier reasons about the characters of short literals.
  const Banner := "%%MatrixMarket matrix" + " coordinate pattern" + " symmetric" + "\n"
  const MappingNote := "% node_mapping:" + " original_label->new_label" + " (1-based)" + "\n"

  /** `f"{n} {n} {m}\n"`. */
  function HeaderLine(n: int, m: int): string {
    IntStr(n) + " " + IntStr(n) + " " + IntStr(m) + "\n"
  }

  /** `f"{u} {v}\n"` for each pair. */
  function EdgeLines(ps: seq<(int, int)>): (lines: seq<string>)
    ensures |lines| == |ps|
    ensures forall i :: 0 <= i < |ps| ==> lines[i] == IntStr(ps[i].0) + " " + IntStr(ps[i].1) + "\n"
  {
    if ps == [] then [] else [IntStr(ps[0].0) + " " + IntStr(ps[0].1) + "\n"] + EdgeLines(ps[1..])
  }

  /** `f"% {orig} -> {new}\n"` for each item of the 1-based mapping, in node order. */
  function MappingLines(s: seq<int>, next: int): (lines: seq<string>)
    ensures |lines| == |s|
    ensures forall i :: 0 <= i < |s| ==> lines[i] == "% " + IntStr(s[i]) + " -> " + IntStr(next + i) + "\n"
  {
    if s == [] then [] else ["% " + IntStr(s[0]) + " -> " + IntStr(next) + "\n"] + MappingLines(s[1..], next + 1)
  }

  /** `[f"% {comment}\n"] if comment else []`; a comment of None is the empty string here. */
  function CommentLines(comment: string): seq<string> {
    if comment != "" then ["% " + comment + "\n"] else []
  }

  /** `max(int_nodes) if int_nodes else 0`. */
  function MaxLabel(s: seq<int>): (n: int)
    ensures s == [] ==> n == 0
    ensures s != [] ==> n in s && forall x :: x in s ==> x <= n
  {
    if s == [] then 0
    else
      assert forall x :: x in s ==> x == s[0] || x in s[1..];
      if |s| == 1 || s[0] >= MaxLabel(s[1..]) then s[0] else MaxLabel(s[1..])
  }

  /** Each pair with both labels put through m. */
  function MapPairs(ps: seq<(int, int)>, m: map<int, int>): (r: seq<(int, int)>)
    requires forall p :: p in ps ==> p.0 in m && p.1 in m
    ensures |r| == |ps|
    ensures forall i :: 0 <= i < |ps| ==> r[i] == (m[ps[i].0], m[ps[i].1])
  {
    if ps == [] then [] else [(m[ps[0].0], m[ps[0].1])] + MapPairs(ps[1..], m)
  }

  lemma EdgeListCovered(g: Graph)
    requires WellFormed(g)
    ensures forall p :: p in EdgeList(g) ==> p.0 in g.nodes && p.1 in g.nodes
  {
    forall p | p in EdgeList(g) ensures p.0 in g.nodes && p.1 in g.nodes {
      EdgeListMember(g, p);
    }
  }

  /** The `edges` list: `G.edges()` itself in verbatim mode, its image under the numbering
      1..n in remap mode. */
  function WrittenPairs(g: Graph, remap: bool): seq<(int, int)>
    requires WellFormed(g)
  {
    EdgeListCovered(g);
    if remap then MapPairs(EdgeList(g), Numbering(g.nodes, 1)) else EdgeList(g)
  }

  /** The `n` of the header: the node count in remap mode, the largest label in verbatim mode. */
  function Declared(g: Graph, remap: bool): int {
    if remap then |g.nodes| else MaxLabel(g.nodes)
  }

  /** The lines written before the header: the banner, the comment, and in remap mode the
      mapping note with one line per item of the mapping. */
  function Preamble(g: Graph, comment: string, remap: bool): seq<string> {
    [Banner] + CommentLines(comment) + (if remap then [MappingNote] + MappingLines(g.nodes, 1) else [])
  }

  datatype SaveError = NoOutPath   // ValueError("out_path must be provided")

  /** `save_graph_as_mtx(g, out_path, comment, remap_to_one_based)`: the path it returns and the
      chunks it writes, in order. Node labels are integers throughout this model, so the
      ValueError for a non-integer label in verbatim mode has no counterpart. */
  function SaveGraphAsMtx(g: Graph, outPath: Option<string>, comment: string, remap: bool)
    : (r: Result<(string, seq<string>), SaveError>)
    requires WellFormed(g)
    ensures r.Failure? <==> outPath.None?
    ensures r.Success? ==> r.value.0 == outPath.value
  {
    if outPath.None? then Failure(NoOutPath)
    else
      var edges := WrittenPairs(g, remap);
      Success((outPath.value, Preamble(g, comment, remap) + [HeaderLine(Declared(g, remap), |edges|)] + EdgeLines(edges)))
  }

  /** What `save_graph_as_mtx` writes for g. */
  function Written(g: Graph, path: string, comment: string, remap: bool): seq<string>
    requires WellFormed(g)
  {
    SaveGraphAsMtx(g, Some(path), comment, remap).value.1
  }

  // ---------------------------------------------------------------------------------------
  // What the writer promises

  /** The mapping of remap mode is a bijection from the node list onto 1..n. */
  lemma RemapBijection(g: Graph)
    requires WellFormed(g)
    ensures var m := Numbering(g.nodes, 1);
      && Injective(m)
      && (forall x :: x in m <==> x in g.nodes)
      && (forall y :: y in m.Values <==> 1 <= y <= |g.nodes|)
  {
    var m := Numbering(g.nodes, 1);
    forall x, y | x in m && y in m && x != y ensures m[x] != m[y] {
      var i := Index(g.nodes, x);
      var j := Index(g.nodes, y);
    }
    forall y ensures y in m.Values <==> 1 <= y <= |g.nodes| {
      if 1 <= y <= |g.nodes| {
        assert m[g.nodes[y - 1]] == y;
      }
      if y in m.Values {
        var x :| x in m && m[x] == y;
        var i := Index(g.nodes, x);
      }
    }
  }

  lemma WrittenShape(g: Graph, path: string, comment: string, remap: bool)
    requires WellFormed(g)
    ensures |WrittenPairs(g, remap)| == |g.edges|
    ensures Written(g, path, comment, remap)
      == Preamble(g, comment, remap) + [HeaderLine(Declared(g, remap), |g.edges|)] + EdgeLines(WrittenPairs(g, remap))
  {
    EdgeListEdges(g);
  }

  lemma ConcatAt<T>(pre: seq<T>, x: T, post: seq<T>)
    ensures var l := pre + [x] + post;
      && |l| == |pre| + 1 + |post| && l[|pre|] == x
      && (forall i :: 0 <= i < |pre| ==> l[i] == pre[i])
      && (forall i :: 0 <= i < |post| ==> l[|pre| + 1 + i] == post[i])
  {
  }

  lemma PreambleLength(g: Graph, comment: string, remap: bool)
    ensures |Preamble(g, comment, remap)| == (if comment != "" then 2 else 1) + (if remap then 1 + |g.nodes| else 0)
  {
  }

  lemma PreambleComments(g: Graph, comment: string, remap: bool)
    ensures var pre := Preamble(g, comment, remap);
      var c := if comment != "" then 2 else 1;
      && |pre| == (if remap then c + 1 + |g.nodes| else c)
      && pre[0] == Banner
      && (comment != "" ==> pre[1] == "% " + comment + "\n")
      && (remap ==> pre[c] == MappingNote)
      && (remap ==> forall i :: 0 <= i < |g.nodes| ==>
            pre[c + 1 + i] == "% " + IntStr(g.nodes[i]) + " -> " + IntStr(i + 1) + "\n")
      && (forall i :: 0 <= i < |pre| ==> IsComment(pre[i]))
  {
    var pre := Preamble(g, comment, remap);
    var a := [Banner] + CommentLines(comment);
    var b := if remap then [MappingNote] + MappingLines(g.nodes, 1) else [];
    assert pre == a + b;
    PreambleHeadComments(comment);
    if remap {
      MappingBlockComments(g.nodes);
      var ms := MappingLines(g.nodes, 1);
      assert forall i :: 0 <= i < |g.nodes| ==> pre[|a| + 1 + i] == ms[i];
    }
    forall i | 0 <= i < |pre| ensures IsComment(pre[i]) {
      if i >= |a| {
        assert pre[i] == b[i - |a|];
      }
    }
  }

  lemma PreambleHeadComments(comment: string)
    ensures forall i :: 0 <= i < |[Banner] + CommentLines(comment)| ==> IsComment(([Banner] + CommentLines(comment))[i])
  {
    assert Banner[0] == '%';
    assert ("% " + comment + "\n")[0] == '%';
  }

  lemma MappingBlockComments(s: seq<int>)
    ensures forall i :: 0 <= i < |[MappingNote] + MappingLines(s, 1)| ==> IsComment(([MappingNote] + MappingLines(s, 1))[i])
  {
    var b := [MappingNote] + MappingLines(s, 1);
    var ms := MappingLines(s, 1);
    assert MappingNote[0] == '%';
    forall i | 0 <= i < |b| ensures IsComment(b[i]) {
      if i > 0 {
        assert b[i] == ms[i - 1];
        assert ms[i - 1] == "% " + IntStr(s[i - 1]) + " -> " + IntStr(i) + "\n";
        assert ms[i - 1][0] == '%';
      }
    }
  }

  /** The lines of the written file up to the header: the banner; the comment line exactly when
      there is a comment; in remap mode the mapping note and one `% orig -> new` line per node,
      in node order. All of them are `%` lines. */
  lemma LayoutPreamble(g: Graph, path: string, comment: string, remap: bool)
    requires WellFormed(g)
    ensures var lines := Written(g, path, comment, remap);
      var c := if comment != "" then 2 else 1;
      var h := if remap then c + 1 + |g.nodes| else c;
      && h < |lines|
      && lines[0] == Banner
      && (comment != "" ==> lines[1] == "% " + comment + "\n")
      && (remap ==> lines[c] == MappingNote)
      && (remap ==> forall i :: 0 <= i < |g.nodes| ==>
            lines[c + 1 + i] == "% " + IntStr(g.nodes[i]) + " -> " + IntStr(i + 1) + "\n")
      && (forall i :: 0 <= i < h ==> IsComment(lines[i]))
  {
    WrittenShape(g, path, comment, remap);
    var lines := Written(g, path, comment, remap);
    var pre := Preamble(g, comment, remap);
    var header := HeaderLine(Declared(g, remap), |g.edges|);
    var es := EdgeLines(WrittenPairs(g, remap));
    assert lines == pre + [header] + es;
    ConcatAt(pre, header, es);
    PreambleComments(g, comment, remap);
  }

  /** The header and what follows it: `n n m` with n the node count (remap mode) or the largest
      label (verbatim mode) and m the number of edges, then exactly m edge lines, the pairs the
      file lists in their order. None of them is a `%` line. */
  lemma LayoutBody(g: Graph, path: string, comment: string, remap: bool)
    requires WellFormed(g)
    ensures var lines := Written(g, path, comment, remap);
      var h := (if comment != "" then 2 else 1) + (if remap then 1 + |g.nodes| else 0);
      var ps := WrittenPairs(g, remap);
      && |lines| == h + 1 + |g.edges|
      && lines[h] == HeaderLine(if remap then |g.nodes| else MaxLabel(g.nodes), |g.edges|)
      && |ps| == |g.edges|
      && (forall i :: 0 <= i < |g.edges| ==> lines[h + 1 + i] == IntStr(ps[i].0) + " " + IntStr(ps[i].1) + "\n")
      && (forall i :: h <= i < |lines| ==> !IsComment(lines[i]))
  {
    var pre := Preamble(g, comment, remap);
    var header := HeaderLine(Declared(g, remap), |g.edges|);
    var ps := WrittenPairs(g, remap);
    WrittenShape(g, path, comment, remap);
    assert Written(g, path, comment, remap) == pre + [header] + EdgeLines(ps);
    PreambleLength(g, comment, remap);
    NotComment(Declared(g, remap), 0, |g.edges|);
    BodyLines(pre, header, ps);
  }

  /** A header that is not a `%` line followed by edge lines: where each line sits. */
  lemma BodyLines(pre: seq<string>, header: string, ps: seq<(int, int)>)
    requires !IsComment(header)
    ensures var lines := pre + [header] + EdgeLines(ps);
      && |lines| == |pre| + 1 + |ps|
      && lines[|pre|] == header
      && (forall i :: 0 <= i < |ps| ==> lines[|pre| + 1 + i] == IntStr(ps[i].0) + " " + IntStr(ps[i].1) + "\n")
      && (forall i :: |pre| <= i < |lines| ==> !IsComment(lines[i]))
  {
    var es := EdgeLines(ps);
    ConcatAt(pre, header, es);
    EdgeLinesNotComment(ps);
    BodyNotComment(pre, header, es);
  }

  lemma EdgeLinesNotComment(ps: seq<(int, int)>)
    ensures forall j :: 0 <= j < |ps| ==> !IsComment(EdgeLines(ps)[j])
  {
    forall j | 0 <= j < |ps| ensures !IsComment(EdgeLines(ps)[j]) {
      NotComment(ps[j].0, ps[j].1, 0);
    }
  }

  lemma BodyNotComment(pre: seq<string>, header: string, es: seq<string>)
    requires !IsComment(header) && forall j :: 0 <= j < |es| ==> !IsComment(es[j])
    ensures var lines := pre + [header] + es;
      forall i :: |pre| <= i < |lines| ==> !IsComment(lines[i])
  {
    var lines := pre + [header] + es;
    forall i | |pre| <= i < |lines| ensures !IsComment(lines[i]) {
      if i > |pre| {
        assert lines[i] == es[i - |pre| - 1];
      }
    }
  }

  /** A line that starts with the decimal form of an integer is not a `%` line. */
  lemma NotComment(a: int, b: int, c: int)
    ensures !IsComment(HeaderLine(a, c)) && !IsComment(IntStr(a) + " " + IntStr(b) + "\n")
  {
    IntStrRoundTrip(a);
    assert HeaderLine(a, c)[0] == IntStr(a)[0];
    assert (IntStr(a) + " " + IntStr(b) + "\n")[0] == IntStr(a)[0];
  }

  // ---------------------------------------------------------------------------------------
  // The round trip

  predicate NoBreak(s: string) {
    forall i :: 0 <= i < |s| ==> !IsLineBreak(s[i])
  }

  lemma LineOf(body: string)
    requires NoBreak(body)
    ensures IsLine(body + "\n")
  {
    var s := body + "\n";
    assert forall i :: 0 <= i < |s| - 1 ==> s[i] == body[i];
  }

  lemma NoBreakJoin(a: string, b: string)
    requires NoBreak(a) && NoBreak(b)
    ensures NoBreak(a + b)
  {
    var s := a + b;
    forall i | 0 <= i < |s| ensures !IsLineBreak(s[i]) {
      if i >= |a| { assert s[i] == b[i - |a|]; }
    }
  }

  lemma IntStrNoBreak(n: int)
    ensures NoBreak(IntStr(n))
  {
    IntStrRoundTrip(n);
    var s := IntStr(n);
    forall i | 0 <= i < |s| ensures !IsLineBreak(s[i]) {
      assert !IsSpace(s[i]);
    }
  }

  /** `f"{a} {b}"` and the like: decimal integers and spaces hold no line break. */
  lemma NumbersNoBreak(a: int, b: int, c: int)
    ensures NoBreak(IntStr(a) + " " + IntStr(b) + " " + IntStr(c))
    ensures NoBreak(IntStr(a) + " " + IntStr(b))
    ensures NoBreak("% " + IntStr(a) + " -> " + IntStr(b))
  {
    IntStrNoBreak(a);
    IntStrNoBreak(b);
    IntStrNoBreak(c);
    NoBreakJoin(IntStr(a), " ");
    NoBreakJoin(IntStr(a) + " ", IntStr(b));
    NoBreakJoin(IntStr(a) + " " + IntStr(b), " ");
    NoBreakJoin(IntStr(a) + " " + IntStr(b) + " ", IntStr(c));
    NoBreakJoin("% ", IntStr(a));
    NoBreakJoin("% " + IntStr(a), " -> ");
    NoBreakJoin("% " + IntStr(a) + " -> ", IntStr(b));
  }

  predicate AllLines(s: seq<string>) {
    forall i :: 0 <= i < |s| ==> IsLine(s[i])
  }

  lemma AllLinesJoin(a: seq<string>, b: seq<string>)
    requires AllLines(a) && AllLines(b)
    ensures AllLines(a + b)
  {
    var s := a + b;
    forall i | 0 <= i < |s| ensures IsLine(s[i]) {
      if i >= |a| { assert s[i] == b[i - |a|]; }
    }
  }

  lemma PreambleAllLines(g: Graph, comment: string, remap: bool)
    requires NoBreak(comment)
    ensures AllLines(Preamble(g, comment, remap))
  {
    NoBreakJoin("%%MatrixMarket matrix", " coordinate pattern");
    NoBreakJoin("%%MatrixMarket matrix" + " coordinate pattern", " symmetric");
    LineOf("%%MatrixMarket matrix" + " coordinate pattern" + " symmetric");
    if comment != "" {
      NoBreakJoin("% ", comment);
      LineOf("% " + comment);
    }
    var cl := CommentLines(comment);
    assert AllLines([Banner] + cl);
    if remap {
      NoBreakJoin("% node_mapping:", " original_label->new_label");
      NoBreakJoin("% node_mapping:" + " original_label->new_label", " (1-based)");
      LineOf("% node_mapping:" + " original_label->new_label" + " (1-based)");
      var ms := MappingLines(g.nodes, 1);
      forall i | 0 <= i < |ms| ensures IsLine(ms[i]) {
        NumbersNoBreak(g.nodes[i], 1 + i, 0);
        LineOf("% " + IntStr(g.nodes[i]) + " -> " + IntStr(1 + i));
      }
      AllLinesJoin([MappingNote], ms);
      AllLinesJoin([Banner] + cl, [MappingNote] + ms);
    } else {
      assert Preamble(g, comment, remap) == [Banner] + cl;
    }
  }

  lemma EdgeLinesAllLines(ps: seq<(int, int)>)
    ensures AllLines(EdgeLines(ps))
  {
    var es := EdgeLines(ps);
    forall i | 0 <= i < |es| ensures IsLine(es[i]) {
      NumbersNoBreak(ps[i].0, ps[i].1, 0);
      LineOf(IntStr(ps[i].0) + " " + IntStr(ps[i].1));
    }
  }

  /** Every chunk `save_graph_as_mtx` writes is one whole line, provided the comment holds no
      line break. */
  lemma WrittenAllLines(g: Graph, path: string, comment: string, remap: bool)
    requires WellFormed(g) && NoBreak(comment)
    ensures AllLines(Written(g, path, comment, remap))
  {
    WrittenShape(g, path, comment, remap);
    var n := Declared(g, remap);
    var header := HeaderLine(n, |g.edges|);
    PreambleAllLines(g, comment, remap);
    NumbersNoBreak(n, n, |g.edges|);
    LineOf(IntStr(n) + " " + IntStr(n) + " " + IntStr(|g.edges|));
    EdgeLinesAllLines(WrittenPairs(g, remap));
    AllLinesJoin(Preamble(g, comment, remap), [header]);
    AllLinesJoin(Preamble(g, comment, remap) + [header], EdgeLines(WrittenPairs(g, remap)));
  }

  /** A single line: dropped when it is a `%` line, kept otherwise. */
  lemma DropCommentsLine(line: string)
    ensures IsComment(line) ==> DropComments([line]) == []
    ensures !IsComment(line) ==> DropComments([line]) == [line]
  {
    assert [line][1..] == [];
  }

  /** The filter works line by line: filtering a concatenation is concatenating the filtered
      parts, so the kept lines stay in their order and keep their repeats. */
  lemma {:induction false} DropCommentsJoin(a: seq<string>, b: seq<string>)
    ensures DropComments(a + b) == DropComments(a) + DropComments(b)
  {
    if a != [] {
      assert (a + b)[1..] == a[1..] + b;
      DropCommentsJoin(a[1..], b);
    } else {
      assert a + b == b;
    }
  }

  lemma {:induction false} DropAllComments(a: seq<string>)
    requires forall i :: 0 <= i < |a| ==> IsComment(a[i])
    ensures DropComments(a) == []
  {
    if a != [] {
      DropAllComments(a[1..]);
    }
  }

  lemma ParseIntsCons(w: string, ws: seq<string>)
    ensures ParseInts([w] + ws) ==
      if ParseInt(w).Some? && ParseInts(ws).Some? then Some([ParseInt(w).value] + ParseInts(ws).value) else None
  {
    assert ([w] + ws)[1..] == ws;
  }

  /** The integers of the header line come back from `map(int, line.split())`. */
  lemma ParseHeader(n: int, m: int)
    ensures ParseInts(Split(HeaderLine(n, m))) == Some([n, n, m])
  {
    IntStrRoundTrip(n);
    IntStrRoundTrip(m);
    SplitThree(IntStr(n), IntStr(n), IntStr(m));
    ParseIntsCons(IntStr(m), []);
    ParseIntsCons(IntStr(n), [IntStr(m)]);
    ParseIntsCons(IntStr(n), [IntStr(n), IntStr(m)]);
    assert [IntStr(n), IntStr(n), IntStr(m)] == [IntStr(n)] + ([IntStr(n)] + ([IntStr(m)] + []));
    assert [n] + ([n] + ([m] + [])) == [n, n, m];
  }

  lemma ParseTuplesCons(line: string, lines: seq<string>)
    ensures ParseTuples([line] + lines) ==
      if ParseInts(Split(line)).Some? && ParseTuples(lines).Some?
      then Some([ParseInts(Split(line)).value] + ParseTuples(lines).value) else None
  {
    assert ([line] + lines)[1..] == lines;
  }

  lemma AsPairsCons(t: seq<int>, ts: seq<seq<int>>)
    requires |t| == 2
    ensures AsPairs([t] + ts) == if AsPairs(ts).Some? then Some([(t[0], t[1])] + AsPairs(ts).value) else None
  {
    assert ([t] + ts)[1..] == ts;
  }

  /** The edge lines come back as the same pairs, and none of them is a `%` line. */
  lemma {:induction false} ParseEdgeLines(ps: seq<(int, int)>)
    ensures DropComments(EdgeLines(ps)) == EdgeLines(ps)
    ensures ParseTuples(EdgeLines(ps)).Some? && AsPairs(ParseTuples(EdgeLines(ps)).value) == Some(ps)
  {
    if ps != [] {
      var line := IntStr(ps[0].0) + " " + IntStr(ps[0].1) + "\n";
      ParseEdgeLine(ps[0].0, ps[0].1);
      ParseEdgeLines(ps[1..]);
      var lines := EdgeLines(ps);
      assert lines == [line] + EdgeLines(ps[1..]);
      ParseTuplesCons(line, EdgeLines(ps[1..]));
      var ts := ParseTuples(EdgeLines(ps[1..])).value;
      AsPairsCons([ps[0].0, ps[0].1], ts);
      assert ps == [(ps[0].0, ps[0].1)] + ps[1..];
    }
  }

  /** One edge line `f"{u} {v}\n"` reads back as the integers u and v, and is not a `%` line. */
  lemma ParseEdgeLine(u: int, v: int)
    ensures var line := IntStr(u) + " " + IntStr(v) + "\n";
      ParseInts(Split(line)) == Some([u, v]) && !IsComment(line)
  {
    var a := IntStr(u);
    var b := IntStr(v);
    IntStrRoundTrip(u);
    IntStrRoundTrip(v);
    SplitTwo(a, b);
    NotComment(u, v, 0);
    ParseIntsCons(b, []);
    ParseIntsCons(a, [b]);
    assert [a, b] == [a] + ([b] + []);
    assert [u] + ([v] + []) == [u, v];
  }

  /** Parsing `%` lines, a header and edge lines gives back the pairs of the edge lines: the
      header's values play no part. */
  lemma ParseLayout(pre: seq<string>, n: int, m: int, ps: seq<(int, int)>)
    requires forall i :: 0 <= i < |pre| ==> IsComment(pre[i])
    ensures Parse(pre + [HeaderLine(n, m)] + EdgeLines(ps)) == Success(ps)
    ensures DropComments(pre + [HeaderLine(n, m)] + EdgeLines(ps)) == [HeaderLine(n, m)] + EdgeLines(ps)
  {
    var header := HeaderLine(n, m);
    var es := EdgeLines(ps);
    DropCommentsJoin(pre, [header] + es);
    assert pre + [header] + es == pre + ([header] + es);
    DropAllComments(pre);
    NotComment(n, 0, m);
    DropCommentsJoin([header], es);
    ParseEdgeLines(ps);
    ParseHeader(n, m);
    assert DropComments(pre + [header] + es) == [header] + es;
    assert ([header] + es)[1..] == es;
  }

  /** The round trip: the file `save_graph_as_mtx` writes, read back as every run reads it,
      yields exactly the pairs it lists (`G.edges()` in verbatim mode, their 1..n images in
      remap mode), whatever the header says. */
  lemma RoundTrip(g: Graph, path: string, comment: string, remap: bool)
    requires WellFormed(g) && NoBreak(comment)
    ensures ParseFile(Concat(Written(g, path, comment, remap))) == Success(WrittenPairs(g, remap))
    ensures var content := DropComments(ReadLines(Concat(Written(g, path, comment, remap))));
      content != [] && content[0] == HeaderLine(Declared(g, remap), |g.edges|)
  {
    WrittenAllLines(g, path, comment, remap);
    ReadWrittenLines(Written(g, path, comment, remap));
    WrittenShape(g, path, comment, remap);
    PreambleComments(g, comment, remap);
    ParseLayout(Preamble(g, comment, remap), Declared(g, remap), |g.edges|, WrittenPairs(g, remap));
  }

  /** Reading a file and building the graph: the start of every run. */
  function Load(text: string): (r: Result<Graph, ParseError>)
    ensures r.Success? ==> WellFormed(r.value) && NoIsolated(r.value)
  {
    match ParseFile(text)
    case Failure(e) => Failure(e)
    case Success(ps) => FromEdgesShape(ps); FromEdgesNoIsolated(ps); Success(FromEdges(ps))
  }

  /** Verbatim mode: the file read back has the edges of g; when no node of g is isolated it
      also has g's nodes and g's degree sequence. */
  lemma RoundTripVerbatim(g: Graph, path: string, comment: string)
    requires WellFormed(g) && NoBreak(comment)
    ensures var r := Load(Concat(Written(g, path, comment, false)));
      && r.Success?
      && r.value.edges == g.edges
      && (NoIsolated(g) ==> NodeSet(r.value.nodes) == NodeSet(g.nodes) && DegreeSequence(r.value) == DegreeSequence(g))
  {
    RoundTrip(g, path, comment, false);
    var ps := EdgeList(g);
    FromEdgesShape(ps);
    EdgeListEdges(g);
    var h := FromEdges(ps);
    FromEdgesNoIsolated(ps);
    if NoIsolated(g) {
      SameEdgesSameDegrees(h, g);
    }
  }

  /** Renaming each pair through m and then forgetting orientation gives the image under m of
      the edges the pairs stand for. */
  lemma MapPairsEdges(ps: seq<(int, int)>, m: map<int, int>)
    requires forall p :: p in ps ==> p.0 in m && p.1 in m
    ensures Over(EdgeSet(ps), m)
    ensures EdgeSet(MapPairs(ps, m)) == Image(EdgeSet(ps), m)
  {
    MapPairsOver(ps, m);
    MapPairsImageIn(ps, m);
    MapPairsImageCovers(ps, m);
  }

  lemma MapPairsOver(ps: seq<(int, int)>, m: map<int, int>)
    requires forall p :: p in ps ==> p.0 in m && p.1 in m
    ensures Over(EdgeSet(ps), m)
  {
    forall e | e in EdgeSet(ps) ensures e.lo <= e.hi && e.lo in m && e.hi in m {
      var p :| p in ps && PairOf(p) == e;
    }
  }

  lemma MapPairsImageIn(ps: seq<(int, int)>, m: map<int, int>)
    requires forall p :: p in ps ==> p.0 in m && p.1 in m
    requires Over(EdgeSet(ps), m)
    ensures EdgeSet(MapPairs(ps, m)) <= Image(EdgeSet(ps), m)
  {
    var qs := MapPairs(ps, m);
    forall e | e in EdgeSet(qs) ensures e in Image(EdgeSet(ps), m) {
      var i :| 0 <= i < |qs| && PairOf(qs[i]) == e;
      assert ps[i] in ps;
      var f := PairOf(ps[i]);
      assert f in EdgeSet(ps);
      assert Pair(m[f.lo], m[f.hi]) == e;
    }
  }

  lemma MapPairsImageCovers(ps: seq<(int, int)>, m: map<int, int>)
    requires forall p :: p in ps ==> p.0 in m && p.1 in m
    requires Over(EdgeSet(ps), m)
    ensures Image(EdgeSet(ps), m) <= EdgeSet(MapPairs(ps, m))
  {
    var qs := MapPairs(ps, m);
    forall e | e in Image(EdgeSet(ps), m) ensures e in EdgeSet(qs) {
      var f :| f in EdgeSet(ps) && Pair(m[f.lo], m[f.hi]) == e;
      var i :| 0 <= i < |ps| && PairOf(ps[i]) == f;
      PairMapped(ps[i].0, ps[i].1, m);
      assert qs[i] in qs;
      assert PairOf(qs[i]) == e;
    }
  }

  /** Renaming the ends of an edge does not depend on which end is stored first. */
  lemma PairMapped(a: int, b: int, m: map<int, int>)
    requires a in m && b in m
    ensures Pair(m[Pair(a, b).lo], m[Pair(a, b).hi]) == Pair(m[a], m[b])
  {
  }

  /** Remap mode: the file read back has the edges of g renamed by the 1..n numbering; when no
      node of g is isolated its nodes are exactly 1..n and it has g's degree sequence. */
  lemma RoundTripRemap(g: Graph, path: string, comment: string)
    requires WellFormed(g) && NoBreak(comment)
    ensures var m := Numbering(g.nodes, 1);
      var r := Load(Concat(Written(g, path, comment, true)));
      && Over(g.edges, m)
      && r.Success?
      && r.value.edges == Image(g.edges, m)
      && (NoIsolated(g) ==>
            && (forall y :: y in r.value.nodes <==> 1 <= y <= |g.nodes|)
            && DegreeSequence(r.value) == DegreeSequence(g))
  {
    RemapLoaded(g, path, comment);
    if NoIsolated(g) {
      RemapReadNodes(g, Load(Concat(Written(g, path, comment, true))).value);
    }
  }

  /** Remap mode reads back as the image of g's edges under the numbering 1..n. */
  lemma RemapLoaded(g: Graph, path: string, comment: string)
    requires WellFormed(g) && NoBreak(comment)
    ensures var m := Numbering(g.nodes, 1);
      var r := Load(Concat(Written(g, path, comment, true)));
      && Over(g.edges, m)
      && r.Success?
      && r.value.edges == Image(g.edges, m)
  {
    var m := Numbering(g.nodes, 1);
    RoundTrip(g, path, comment, true);
    EdgeListCovered(g);
    EdgeListEdges(g);
    var ps := MapPairs(EdgeList(g), m);
    MapPairsEdges(EdgeList(g), m);
    FromEdgesShape(ps);
    assert Load(Concat(Written(g, path, comment, true))) == Success(FromEdges(ps));
  }

  /** A graph without isolated nodes whose edges are the image of g's under the numbering 1..n,
      g having no isolated node either, has the nodes 1..n and g's degree sequence. */
  lemma RemapReadNodes(g: Graph, h: Graph)
    requires WellFormed(g) && NoIsolated(g) && WellFormed(h) && NoIsolated(h)
    requires Over(g.edges, Numbering(g.nodes, 1)) && h.edges == Image(g.edges, Numbering(g.nodes, 1))
    ensures forall y :: y in h.nodes <==> 1 <= y <= |g.nodes|
    ensures DegreeSequence(h) == DegreeSequence(g)
  {
    var m := Numbering(g.nodes, 1);
    var rg := Relabel(g, m);
    NumberedGraph(g);
    SameEdgesSameDegrees(h, rg);
    forall y ensures y in h.nodes <==> 1 <= y <= |g.nodes| {
      assert y in NodeSet(h.nodes) <==> y in NodeSet(rg.nodes);
    }
  }

  /** g relabelled by the numbering 1..n: nodes 1..n, no isolated node when g has none, and
      g's degree sequence. */
  lemma NumberedGraph(g: Graph)
    requires WellFormed(g)
    ensures var rg := Relabel(g, Numbering(g.nodes, 1));
      && WellFormed(rg)
      && (forall y :: y in rg.nodes <==> 1 <= y <= |g.nodes|)
      && (NoIsolated(g) ==> NoIsolated(rg))
      && DegreeSequence(rg) == DegreeSequence(g)
  {
    var m := Numbering(g.nodes, 1);
    RemapBijection(g);
    RelabelIsomorphic(g, m);
    NumberedNodes(g);
    if NoIsolated(g) {
      NumberedNoIsolated(g);
    }
  }

  /** The node list of g relabelled by the numbering is 1, 2, ..., n. */
  lemma NumberedNodes(g: Graph)
    requires WellFormed(g)
    ensures forall i :: 0 <= i < |g.nodes| ==> Relabel(g, Numbering(g.nodes, 1)).nodes[i] == i + 1
    ensures forall y :: y in Relabel(g, Numbering(g.nodes, 1)).nodes <==> 1 <= y <= |g.nodes|
  {
    var m := Numbering(g.nodes, 1);
    Covered(g.nodes, m);
    MapSeqPositions(g.nodes, m, 1);
  }

  /** Relabelling a list whose i-th item goes to base + i gives base, base + 1, .... */
  lemma MapSeqPositions(s: seq<int>, m: map<int, int>, base: int)
    requires forall i :: 0 <= i < |s| ==> s[i] in m && m[s[i]] == base + i
    ensures forall i :: 0 <= i < |s| ==> MapSeq(s, m)[i] == base + i
    ensures forall y :: y in MapSeq(s, m) <==> base <= y < base + |s|
  {
    var ns := MapSeq(s, m);
    forall y ensures y in ns <==> base <= y < base + |s| {
      if base <= y < base + |s| {
        assert ns[y - base] == y;
      }
    }
  }

  lemma NumberedNoIsolated(g: Graph)
    requires WellFormed(g) && NoIsolated(g)
    ensures NoIsolated(Relabel(g, Numbering(g.nodes, 1)))
  {
    var m := Numbering(g.nodes, 1);
    RemapBijection(g);
    RelabelEdges(g, m);
    var rg := Relabel(g, m);
    forall y | y in rg.nodes ensures Degree(rg.edges, y) > 0 {
      var i :| 0 <= i < |rg.nodes| && rg.nodes[i] == y;
      assert g.nodes[i] in g.nodes;
    }
  }
}
