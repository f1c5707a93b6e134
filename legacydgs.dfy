/**
 * The DGS writer of genGraphStream.py: `format_id`, `write_dgs` and the
 * partition selection of `gen_dgs_files`. Unlike file_io.py, this writer
 * names nodes by their formatted string ids and, after each node, scans the
 * whole edge list for edges between nodes already written.
 */
module LegacyDgs {
  import opened Wrappers
  import opened PyStr
  import opened ODicts
  import opened Utils
  import opened Lists
  import opened Readers

  // ------------------------------------------------------------ format_id

  /** The class `[0-9a-zA-Z]`. */
  predicate IsAlnum(c: char) {
    '0' <= c <= '9' || 'a' <= c <= 'z' || 'A' <= c <= 'Z'
  }

  /** The length of the run of characters outside `[0-9a-zA-Z]` that starts `s`. */
  function OtherRun(s: string): (n: nat)
    ensures n <= |s|
    ensures forall k :: 0 <= k < n ==> !IsAlnum(s[k])
    ensures n < |s| ==> IsAlnum(s[n])
  {
    if s == [] || IsAlnum(s[0]) then 0
    else
      assert forall k :: 1 <= k <= |s| - 1 ==> s[k] == s[1..][k - 1];
      1 + OtherRun(s[1..])
  }

  /** `format_id(id)`: `re.sub('[^0-9a-zA-Z]+', '_', id)`. */
  function FormatId(s: string): (r: string)
    ensures s == [] <==> r == []
    ensures s != [] ==> (r[0] == '_' <==> !IsAlnum(s[0]))
    decreases |s|
  {
    if s == [] then []
    else if IsAlnum(s[0]) then [s[0]] + FormatId(s[1..])
    else "_" + FormatId(s[OtherRun(s)..])
  }

  /** Only `[0-9a-zA-Z_]`, and never two `_` in a row. */
  ghost predicate Clean(s: string) {
    (forall i :: 0 <= i < |s| ==> IsAlnum(s[i]) || s[i] == '_') &&
    (forall i :: 0 <= i < |s| - 1 ==> !(s[i] == '_' && s[i + 1] == '_'))
  }

  /** The output holds only ASCII letters, digits and `_`, and never two adjacent `_`. */
  lemma {:induction false} FormatIdClean(s: string)
    ensures Clean(FormatId(s))
    decreases |s|
  {
    if s == [] {
    } else if IsAlnum(s[0]) {
      FormatIdClean(s[1..]);
      var t := FormatId(s[1..]);
      assert FormatId(s) == [s[0]] + t;
      assert forall i :: 1 <= i < |t| + 1 ==> FormatId(s)[i] == t[i - 1];
    } else {
      var n := OtherRun(s);
      FormatIdClean(s[n..]);
      var t := FormatId(s[n..]);
      assert FormatId(s) == "_" + t;
      assert forall i :: 1 <= i < |t| + 1 ==> FormatId(s)[i] == t[i - 1];
    }
  }

  /** A string is left unchanged exactly when it is already clean. */
  lemma {:induction false} FormatIdFixed(s: string)
    ensures FormatId(s) == s <==> Clean(s)
    decreases |s|
  {
    FormatIdClean(s);
    if s != [] && Clean(s) {
      var t := s[1..];
      assert Clean(t) by {
        assert forall i :: 0 <= i < |t| ==> t[i] == s[i + 1];
      }
      FormatIdFixed(t);
      if !IsAlnum(s[0]) {
        assert s[0] == '_';
        assert OtherRun(s) == 1 by {
          if |s| > 1 {
            assert s[1] != '_';
          }
        }
      }
    }
  }

  /** Applying `format_id` twice is applying it once. */
  lemma FormatIdIdempotent(s: string)
    ensures FormatId(FormatId(s)) == FormatId(s)
  {
    FormatIdClean(s);
    FormatIdFixed(FormatId(s));
  }

  /** The letters and digits of `s`, in order. */
  function Alnums(s: string): string {
    if s == [] then [] else (if IsAlnum(s[0]) then [s[0]] else []) + Alnums(s[1..])
  }

  lemma {:induction false} AlnumsOfRun(s: string, n: nat)
    requires n <= |s| && forall k :: 0 <= k < n ==> !IsAlnum(s[k])
    ensures Alnums(s) == Alnums(s[n..])
  {
    if n > 0 {
      AlnumsOfRun(s[1..], n - 1);
      assert s[1..][n - 1..] == s[n..];
    }
  }

  /** Letters and digits are kept, in order; only the other characters change. */
  lemma {:induction false} FormatIdKeepsAlnums(s: string)
    ensures Alnums(FormatId(s)) == Alnums(s)
    decreases |s|
  {
    if s != [] {
      if IsAlnum(s[0]) {
        FormatIdKeepsAlnums(s[1..]);
        assert ([s[0]] + FormatId(s[1..]))[1..] == FormatId(s[1..]);
      } else {
        var n := OtherRun(s);
        FormatIdKeepsAlnums(s[n..]);
        AlnumsOfRun(s, n);
        assert ("_" + FormatId(s[n..]))[1..] == FormatId(s[n..]);
      }
    }
  }

  /**
   * The number of maximal runs of characters outside `[0-9a-zA-Z]`, counted
   * character by character: a run starts at such a character that follows
   * a letter or digit (`afterAlnum`), or the start of the string.
   */
  function RunStarts(s: string, afterAlnum: bool): nat {
    if s == [] then 0
    else (if !IsAlnum(s[0]) && afterAlnum then 1 else 0) + RunStarts(s[1..], IsAlnum(s[0]))
  }

  lemma {:induction false} RunStartsInRun(s: string)
    requires s != [] && !IsAlnum(s[0])
    ensures RunStarts(s[1..], false) == RunStarts(s[OtherRun(s)..], true)
    decreases |s|
  {
    var t := s[1..];
    if t != [] && !IsAlnum(t[0]) {
      RunStartsInRun(t);
      assert OtherRun(s) == 1 + OtherRun(t);
      assert t[OtherRun(t)..] == s[OtherRun(s)..];
    }
  }

  /** Each maximal run of other characters becomes exactly one `_`. */
  lemma {:induction false} FormatIdOneUnderscorePerRun(s: string)
    ensures Count(FormatId(s), '_') == RunStarts(s, true)
    decreases |s|
  {
    if s != [] {
      if IsAlnum(s[0]) {
        FormatIdOneUnderscorePerRun(s[1..]);
        assert ([s[0]] + FormatId(s[1..]))[1..] == FormatId(s[1..]);
      } else {
        var n := OtherRun(s);
        FormatIdOneUnderscorePerRun(s[n..]);
        RunStartsInRun(s);
        assert ("_" + FormatId(s[n..]))[1..] == FormatId(s[n..]);
      }
    }
  }

  // ------------------------------------------------------------ node names

  /** `str(v)`: the text of a node name. */
  function Text(v: Value): string {
    match v
    case IntVal(i) => ShowInt(i)
    case StrVal(s) => s
  }

  /**
   * `format_id(n)` on a node name, as written: `re.sub` accepts only text,
   * so an integer name (every name `read_metis` gives) raises TypeError.
   */
  function FormatIdAsWritten(v: Value): (r: Result<string>)
    ensures r.Err? <==> v.IntVal?
    ensures r.Err? ==> r.error == TypeError
    ensures v.StrVal? ==> r == Ok(FormatId(v.s))
  {
    if v.IntVal? then Err(TypeError) else Ok(FormatId(v.s))
  }

  /** The first node of a METIS graph is named 0, and its id cannot be formatted. */
  lemma MetisNameRejected(g: NxGraph)
    requires g.nodes != [] && g.nodes[0].name == IntVal(0)
    ensures FormatIdAsWritten(g.nodes[0].name) == Err(TypeError)
  {
  }

  /** The id written for a node: `format_id(str(n))`. */
  function NodeId(v: Value): (r: string)
    ensures v.StrVal? ==> r == FormatId(v.s)
  {
    FormatId(Text(v))
  }

  /** A non-negative integer name is written as its decimal digits. */
  lemma NodeIdOfNat(n: nat)
    ensures NodeId(IntVal(n)) == ShowInt(n)
  {
    var s := ShowInt(n);
    assert AllDigits(s);
    assert Clean(s) by {
      forall i | 0 <= i < |s| ensures IsAlnum(s[i]) {
        assert IsDigit(s[i]);
      }
    }
    FormatIdFixed(s);
  }

  /** Distinct METIS node numbers get distinct ids. */
  lemma NodeIdsOfNatsDistinct(m: nat, n: nat)
    requires m != n
    ensures NodeId(IntVal(m)) != NodeId(IntVal(n))
  {
    NodeIdOfNat(m);
    NodeIdOfNat(n);
    ParseShowInt(m);
    ParseShowInt(n);
  }

  // ------------------------------------------------------------ write_dgs

  /** A node as networkx yields it: its name and its attributes. */
  datatype NxNode = NxNode(name: Value, attrs: map<string, string>)

  /** A networkx graph: its nodes and its edges, each in iteration order. */
  datatype NxGraph = NxGraph(nodes: seq<NxNode>, edges: seq<(Value, Value)>)

  /** One line of a legacy DGS file. */
  datatype Line =
    | Magic                                  // DGS004
    | StreamName(partition: int)             // partition_<p> 0 0
    | AddNode(id: string, colour: string)    // an <id> c='<colour>'
    | AddEdge(eid: nat, from: string, to: string)
    | Step(time: nat)

  /** The text of a line: one event, introduced by its DGS keyword, ending in a newline. */
  function Render(l: Line): (r: string)
    ensures |r| > 3 && r[|r| - 1] == '\n'
    ensures l.AddNode? ==> r[..3] == "an "
    ensures l.AddEdge? ==> r[..3] == "ae "
    ensures l.Step? ==> r[..3] == "st "
  {
    match l
    case Magic => "DGS004\n"
    case StreamName(p) => "partition_" + ShowInt(p) + " 0 0\n"
    case AddNode(id, c) => "an " + id + " c='" + c + "'\n"
    case AddEdge(i, u, v) => "ae " + ShowInt(i) + " " + u + " " + v + "\n"
    case Step(k) => "st " + ShowInt(k) + "\n"
  }

  /**
   * A node's colour: with a non-empty `colour_map`, the entry of its
   * formatted id; otherwise its `colour_attr` attribute; `black` when the
   * chosen source has nothing for it.
   */
  function NodeColour(n: NxNode, colourMap: Option<map<string, string>>, colourAttr: string): string
  {
    if colourMap.Some? && |colourMap.value| > 0 then
      var id := NodeId(n.name);
      if id in colourMap.value then colourMap.value[id] else "black"
    else if colourAttr in n.attrs then n.attrs[colourAttr]
    else "black"
  }

  /** The colour rule, case by case. */
  lemma NodeColourCases(n: NxNode, colourMap: Option<map<string, string>>, colourAttr: string)
    ensures colourMap.Some? && |colourMap.value| > 0 ==>
      NodeColour(n, colourMap, colourAttr) ==
        (if NodeId(n.name) in colourMap.value then colourMap.value[NodeId(n.name)] else "black")
    ensures (colourMap.None? || |colourMap.value| == 0) ==>
      NodeColour(n, colourMap, colourAttr) ==
        (if colourAttr in n.attrs then n.attrs[colourAttr] else "black")
  {
  }

  /** The ids of the `an` lines, in order. */
  function NodeIdsOf(ls: seq<Line>): seq<string> {
    if ls == [] then []
    else NodeIdsOf(ls[..|ls| - 1]) + (if ls[|ls| - 1].AddNode? then [ls[|ls| - 1].id] else [])
  }

  /** The endpoints of the `ae` lines, in order. */
  function EdgePairsOf(ls: seq<Line>): seq<(string, string)> {
    if ls == [] then []
    else EdgePairsOf(ls[..|ls| - 1]) + (if ls[|ls| - 1].AddEdge? then [(ls[|ls| - 1].from, ls[|ls| - 1].to)] else [])
  }

  /** The ids of the `ae` lines, in order. */
  function EdgeIdsOf(ls: seq<Line>): seq<nat> {
    if ls == [] then []
    else EdgeIdsOf(ls[..|ls| - 1]) + (if ls[|ls| - 1].AddEdge? then [ls[|ls| - 1].eid] else [])
  }

  /** The times of the `st` lines, in order. */
  function StepsOf(ls: seq<Line>): seq<nat> {
    if ls == [] then []
    else StepsOf(ls[..|ls| - 1]) + (if ls[|ls| - 1].Step? then [ls[|ls| - 1].time] else [])
  }

  lemma ProjectionsSnoc(ls: seq<Line>, l: Line)
    ensures NodeIdsOf(ls + [l]) == NodeIdsOf(ls) + (if l.AddNode? then [l.id] else [])
    ensures EdgePairsOf(ls + [l]) == EdgePairsOf(ls) + (if l.AddEdge? then [(l.from, l.to)] else [])
    ensures EdgeIdsOf(ls + [l]) == EdgeIdsOf(ls) + (if l.AddEdge? then [l.eid] else [])
    ensures StepsOf(ls + [l]) == StepsOf(ls) + (if l.Step? then [l.time] else [])
  {
    assert (ls + [l])[..|ls|] == ls;
  }

  /** `s` is `from, from + 1, ..., from + n - 1`. */
  ghost predicate CountsFrom(s: seq<nat>, from: nat, n: nat) {
    |s| == n && forall k :: 0 <= k < n ==> s[k] == from + k
  }

  /** Every `ae` line comes after the `an` lines of both its endpoints. */
  ghost predicate EdgesAfterEnds(ls: seq<Line>) {
    forall j :: 0 <= j < |ls| && ls[j].AddEdge? ==>
      ls[j].from in NodeIdsOf(ls[..j]) && ls[j].to in NodeIdsOf(ls[..j])
  }

  lemma EdgesAfterEndsSnoc(ls: seq<Line>, l: Line)
    requires EdgesAfterEnds(ls)
    requires l.AddEdge? ==> l.from in NodeIdsOf(ls) && l.to in NodeIdsOf(ls)
    ensures EdgesAfterEnds(ls + [l])
  {
    forall j | 0 <= j < |ls| + 1 && (ls + [l])[j].AddEdge?
      ensures (ls + [l])[j].from in NodeIdsOf((ls + [l])[..j]) && (ls + [l])[j].to in NodeIdsOf((ls + [l])[..j])
    {
      if j < |ls| {
        assert (ls + [l])[..j] == ls[..j];
      } else {
        assert (ls + [l])[..j] == ls;
      }
    }
  }

  /** The variables of `write_dgs`: the lines written so far, `nodes_added`, `edges_added`, `i` and `st`. */
  datatype Writer = Writer(lines: seq<Line>, added: seq<string>, pairs: seq<(string, string)>, i: nat, st: nat)

  /** What the writer's variables record about the lines written. */
  ghost predicate Sound(w: Writer) {
    && w.added == NodeIdsOf(w.lines)
    && w.pairs == EdgePairsOf(w.lines)
    && Distinct(w.pairs)
    && CountsFrom(EdgeIdsOf(w.lines), 0, w.i)
    && w.st >= 1
    && CountsFrom(StepsOf(w.lines), 1, w.st - 1)
    && EdgesAfterEnds(w.lines)
  }

  /** The two header lines, before any node. */
  function Start(partition: int): Writer {
    Writer([Magic, StreamName(partition)], [], [], 0, 1)
  }

  /** The formatted node ids of `g`, in node order. */
  function Ids(g: NxGraph): (r: seq<string>)
    ensures |r| == |g.nodes|
  {
    seq(|g.nodes|, j requires 0 <= j < |g.nodes| => NodeId(g.nodes[j].name))
  }

  /** The colour chosen for each node of `g`, in node order. */
  function Colours(g: NxGraph, colourMap: Option<map<string, string>>, colourAttr: string): (r: seq<string>)
    ensures |r| == |g.nodes|
  {
    seq(|g.nodes|, j requires 0 <= j < |g.nodes| => NodeColour(g.nodes[j], colourMap, colourAttr))
  }

  /** The formatted endpoint ids of each edge of `g`, in edge order. */
  function EdgeEnds(edges: seq<(Value, Value)>): (r: seq<(string, string)>)
    ensures |r| == |edges|
  {
    seq(|edges|, j requires 0 <= j < |edges| => (NodeId(edges[j].0), NodeId(edges[j].1)))
  }

  /** One edge of the inner loop: written when both ends are written and the pair is new. */
  function EdgeStep(w: Writer, e: (string, string)): Writer {
    if e.0 in w.added && e.1 in w.added && e !in w.pairs
    then Writer(w.lines + [AddEdge(w.i, e.0, e.1)], w.added, w.pairs + [e], w.i + 1, w.st)
    else w
  }

  /** The inner loop over the edges `es`, given by their formatted ends. */
  function EdgeScan(w: Writer, es: seq<(string, string)>): Writer {
    if es == [] then w else EdgeStep(EdgeScan(w, es[..|es| - 1]), es[|es| - 1])
  }

  /** The `an` line of a node. */
  function AddNodeLine(w: Writer, id: string, colour: string): Writer {
    Writer(w.lines + [AddNode(id, colour)], w.added + [id], w.pairs, w.i, w.st)
  }

  /** One node of the outer loop: its `an` line, the edge scan, its `st` line. */
  function NodeStep(w: Writer, id: string, colour: string, es: seq<(string, string)>): Writer {
    var w2 := EdgeScan(AddNodeLine(w, id, colour), es);
    Writer(w2.lines + [Step(w2.st)], w2.added, w2.pairs, w2.i, w2.st + 1)
  }

  /** The writer after the first `k` nodes, given their ids and colours and the formatted edges. */
  function NodesUpTo(partition: int, ids: seq<string>, colours: seq<string>, es: seq<(string, string)>, k: nat): Writer
    requires |colours| == |ids| && k <= |ids|
  {
    if k == 0 then Start(partition)
    else NodeStep(NodesUpTo(partition, ids, colours, es, k - 1), ids[k - 1], colours[k - 1], es)
  }

  /** The lines `write_dgs` writes for graph `g`. */
  function DgsLines(partition: int, g: NxGraph, colourMap: Option<map<string, string>>, colourAttr: string): seq<Line> {
    NodesUpTo(partition, Ids(g), Colours(g, colourMap, colourAttr), EdgeEnds(g.edges), |g.nodes|).lines
  }

  /** An edge step keeps the record. */
  lemma EdgeStepSound(w: Writer, e: (string, string))
    requires Sound(w)
    ensures Sound(EdgeStep(w, e))
  {
    if e.0 in w.added && e.1 in w.added && e !in w.pairs {
      var l := AddEdge(w.i, e.0, e.1);
      ProjectionsSnoc(w.lines, l);
      EdgesAfterEndsSnoc(w.lines, l);
      DistinctSnoc(w.pairs, e);
      CountsFromSnoc(EdgeIdsOf(w.lines), 0, w.i);
    }
  }

  lemma DistinctSnoc<T>(s: seq<T>, x: T)
    requires Distinct(s) && x !in s
    ensures Distinct(s + [x])
  {
    var p := s + [x];
    forall i, j | 0 <= i < j < |p| ensures p[i] != p[j] {
      if j == |s| {
        assert p[i] in s;
      }
    }
  }

  lemma CountsFromSnoc(s: seq<nat>, from: nat, n: nat)
    requires CountsFrom(s, from, n)
    ensures CountsFrom(s + [from + n], from, n + 1)
  {
  }

  /** The edge scan only appends: lines and pairs grow, the written nodes and `st` stay. */
  lemma {:induction false} EdgeScanGrows(w: Writer, es: seq<(string, string)>)
    ensures var r := EdgeScan(w, es);
      r.added == w.added && r.st == w.st && w.lines <= r.lines && w.pairs <= r.pairs
  {
    if es != [] {
      EdgeScanGrows(w, es[..|es| - 1]);
    }
  }

  lemma {:induction false} EdgeScanSound(w: Writer, es: seq<(string, string)>)
    requires Sound(w)
    ensures Sound(EdgeScan(w, es))
  {
    if es != [] {
      EdgeScanSound(w, es[..|es| - 1]);
      EdgeStepSound(EdgeScan(w, es[..|es| - 1]), es[|es| - 1]);
    }
  }

  /** After the scan, every edge whose two ends are already written has its pair recorded. */
  lemma {:induction false} EdgeScanComplete(w: Writer, es: seq<(string, string)>)
    ensures forall e :: e in es && e.0 in w.added && e.1 in w.added ==> e in EdgeScan(w, es).pairs
  {
    if es != [] {
      var init := es[..|es| - 1];
      var last := es[|es| - 1];
      EdgeScanComplete(w, init);
      EdgeScanGrows(w, init);
      var v := EdgeScan(w, init);
      assert v.pairs <= EdgeStep(v, last).pairs;
      forall e | e in es && e.0 in w.added && e.1 in w.added
        ensures e in EdgeStep(v, last).pairs
      {
        if e in init {
          assert e in v.pairs;
        } else {
          assert e == last;
        }
      }
    }
  }

  /** A node step keeps the record, adds the node's id and advances `st` by one. */
  lemma NodeStepSound(w: Writer, id: string, colour: string, es: seq<(string, string)>)
    requires Sound(w)
    ensures var r := NodeStep(w, id, colour, es);
      Sound(r) && r.added == w.added + [id] && r.st == w.st + 1 && w.lines <= r.lines
  {
    var l := AddNode(id, colour);
    var w1 := AddNodeLine(w, id, colour);
    ProjectionsSnoc(w.lines, l);
    EdgesAfterEndsSnoc(w.lines, l);
    assert Sound(w1);
    EdgeScanSound(w1, es);
    EdgeScanGrows(w1, es);
    var w2 := EdgeScan(w1, es);
    ProjectionsSnoc(w2.lines, Step(w2.st));
    EdgesAfterEndsSnoc(w2.lines, Step(w2.st));
  }

  lemma StartSound(partition: int)
    ensures Sound(Start(partition))
  {
    ProjectionsSnoc([Magic], StreamName(partition));
    ProjectionsSnoc([], Magic);
    assert [] + [Magic] == [Magic];
  }

  /**
   * After `k` nodes: edges are numbered 0, 1, ... and each written pair is
   * new; each `ae` line follows the `an` lines of both its ends; and there
   * is one `st` line per node, numbered from 1.
   */
  lemma {:induction false} NodesUpToSound(partition: int, ids: seq<string>, colours: seq<string>, es: seq<(string, string)>, k: nat)
    requires |colours| == |ids| && k <= |ids|
    ensures Sound(NodesUpTo(partition, ids, colours, es, k))
    ensures NodesUpTo(partition, ids, colours, es, k).st == k + 1
  {
    if k == 0 {
      StartSound(partition);
    } else {
      NodesUpToSound(partition, ids, colours, es, k - 1);
      NodeStepSound(NodesUpTo(partition, ids, colours, es, k - 1), ids[k - 1], colours[k - 1], es);
    }
  }

  /** After `k` nodes, the written ids are the first `k` ids, and the header lines come first. */
  lemma {:induction false} NodesUpToAdded(partition: int, ids: seq<string>, colours: seq<string>, es: seq<(string, string)>, k: nat)
    requires |colours| == |ids| && k <= |ids|
    ensures NodesUpTo(partition, ids, colours, es, k).added == ids[..k]
    ensures [Magic, StreamName(partition)] <= NodesUpTo(partition, ids, colours, es, k).lines
  {
    if k > 0 {
      NodesUpToAdded(partition, ids, colours, es, k - 1);
      var w := NodesUpTo(partition, ids, colours, es, k - 1);
      EdgeScanGrows(AddNodeLine(w, ids[k - 1], colours[k - 1]), es);
      assert ids[..k] == ids[..k - 1] + [ids[k - 1]];
    }
  }

  /**
   * The file `write_dgs` writes: the two header lines first; one `an` line
   * per node, with the formatted names in node order; `ae` ids numbered
   * 0, 1, ...; no endpoint pair written twice; each `ae` after the `an`
   * lines of both its ends; and `st` lines numbered 1 to the node count.
   */
  lemma DgsLinesStream(partition: int, g: NxGraph, colourMap: Option<map<string, string>>, colourAttr: string)
    ensures var ls := DgsLines(partition, g, colourMap, colourAttr);
      && [Magic, StreamName(partition)] <= ls
      && NodeIdsOf(ls) == Ids(g)
      && CountsFrom(EdgeIdsOf(ls), 0, |EdgeIdsOf(ls)|)
      && Distinct(EdgePairsOf(ls))
      && EdgesAfterEnds(ls)
      && CountsFrom(StepsOf(ls), 1, |g.nodes|)
  {
    var ids := Ids(g);
    NodesUpToSound(partition, ids, Colours(g, colourMap, colourAttr), EdgeEnds(g.edges), |g.nodes|);
    NodesUpToAdded(partition, ids, Colours(g, colourMap, colourAttr), EdgeEnds(g.edges), |g.nodes|);
    assert ids[..|g.nodes|] == ids;
  }

  /** Every edge of the graph between two written nodes is written. */
  lemma DgsLinesComplete(partition: int, g: NxGraph, colourMap: Option<map<string, string>>, colourAttr: string)
    ensures var ls := DgsLines(partition, g, colourMap, colourAttr);
      forall e :: e in g.edges && NodeId(e.0) in NodeIdsOf(ls) && NodeId(e.1) in NodeIdsOf(ls) ==>
        (NodeId(e.0), NodeId(e.1)) in EdgePairsOf(ls)
  {
    var ids, colours, es := Ids(g), Colours(g, colourMap, colourAttr), EdgeEnds(g.edges);
    var k := |g.nodes|;
    NodesUpToSound(partition, ids, colours, es, k);
    NodesUpToAdded(partition, ids, colours, es, k);
    if k > 0 {
      var w1 := AddNodeLine(NodesUpTo(partition, ids, colours, es, k - 1), ids[k - 1], colours[k - 1]);
      EdgeScanComplete(w1, es);
      EdgeScanGrows(w1, es);
      forall e | e in g.edges ensures (NodeId(e.0), NodeId(e.1)) in es {
        var j :| 0 <= j < |g.edges| && g.edges[j] == e;
        assert es[j] == (NodeId(e.0), NodeId(e.1));
      }
    }
  }

  lemma EdgeScanSnoc(w: Writer, es: seq<(string, string)>, k: nat)
    requires k < |es|
    ensures EdgeScan(w, es[..k + 1]) == EdgeStep(EdgeScan(w, es[..k]), es[k])
  {
    assert es[..k + 1][..k] == es[..k];
  }

  /** The inner loop of `write_dgs`: each edge whose ends are written and whose pair is new gets an `ae` line. */
  method ScanEdges(edges: seq<(Value, Value)>, added: seq<string>, lines0: seq<Line>, pairs0: seq<(string, string)>, i0: nat, ghost st: nat)
    returns (lines: seq<Line>, pairs: seq<(string, string)>, i: nat)
    ensures Writer(lines, added, pairs, i, st) == EdgeScan(Writer(lines0, added, pairs0, i0, st), EdgeEnds(edges))
  {
    ghost var es := EdgeEnds(edges);
    lines, pairs, i := lines0, pairs0, i0;
    var k := 0;
    while k < |edges|
      invariant k <= |edges|
      invariant Writer(lines, added, pairs, i, st) == EdgeScan(Writer(lines0, added, pairs0, i0, st), es[..k])
    {
      var edge1Id := NodeId(edges[k].0);
      var edge2Id := NodeId(edges[k].1);
      EdgeScanSnoc(Writer(lines0, added, pairs0, i0, st), es, k);
      if edge1Id in added && edge2Id in added && (edge1Id, edge2Id) !in pairs {
        lines := lines + [AddEdge(i, edge1Id, edge2Id)];
        pairs := pairs + [(edge1Id, edge2Id)];
        i := i + 1;
      }
      k := k + 1;
    }
    assert es[..k] == es;
  }

  /** The colour of one node, chosen as `write_dgs` chooses it. */
  method ChooseColour(n: NxNode, colourMap: Option<map<string, string>>, colourAttr: string) returns (colour: string)
    ensures colour == NodeColour(n, colourMap, colourAttr)
  {
    var nodeId := NodeId(n.name);
    if colourMap.Some? && |colourMap.value| > 0 {
      colour := "black";
      if nodeId in colourMap.value {
        colour := colourMap.value[nodeId];
      }
    } else if colourAttr in n.attrs {
      colour := n.attrs[colourAttr];
    } else {
      colour := "black";
    }
  }

  /** One pass of the outer loop of `write_dgs`, for the node `n`. */
  method WriteNode(w: Writer, n: NxNode, colourMap: Option<map<string, string>>, colourAttr: string, edges: seq<(Value, Value)>)
    returns (r: Writer)
    ensures r == NodeStep(w, NodeId(n.name), NodeColour(n, colourMap, colourAttr), EdgeEnds(edges))
  {
    var nodeId := NodeId(n.name);
    var colour := ChooseColour(n, colourMap, colourAttr);
    var lines := w.lines + [AddNode(nodeId, colour)];
    var nodesAdded := w.added + [nodeId];
    var edgesAdded, i;
    lines, edgesAdded, i := ScanEdges(edges, nodesAdded, lines, w.pairs, w.i, w.st);
    r := Writer(lines + [Step(w.st)], nodesAdded, edgesAdded, i, w.st + 1);
  }

  lemma NodesUpToNext(partition: int, g: NxGraph, colourMap: Option<map<string, string>>, colourAttr: string, k: nat)
    requires k < |g.nodes|
    ensures NodesUpTo(partition, Ids(g), Colours(g, colourMap, colourAttr), EdgeEnds(g.edges), k + 1) ==
      NodeStep(NodesUpTo(partition, Ids(g), Colours(g, colourMap, colourAttr), EdgeEnds(g.edges), k),
               NodeId(g.nodes[k].name), NodeColour(g.nodes[k], colourMap, colourAttr), EdgeEnds(g.edges))
  {
    var ids, colours := Ids(g), Colours(g, colourMap, colourAttr);
    assert ids[k] == NodeId(g.nodes[k].name) && colours[k] == NodeColour(g.nodes[k], colourMap, colourAttr);
  }

  /** `write_dgs`: the lines of `partition_<p>.dgs` for graph `g`. */
  method WriteDgs(partition: int, g: NxGraph, colourMap: Option<map<string, string>>, colourAttr: string)
    returns (lines: seq<Line>)
    ensures lines == DgsLines(partition, g, colourMap, colourAttr)
  {
    var w := Writer([Magic, StreamName(partition)], [], [], 0, 1);
    var k := 0;
    while k < |g.nodes|
      invariant k <= |g.nodes|
      invariant w == NodesUpTo(partition, Ids(g), Colours(g, colourMap, colourAttr), EdgeEnds(g.edges), k)
    {
      NodesUpToNext(partition, g, colourMap, colourAttr, k);
      w := WriteNode(w, g.nodes[k], colourMap, colourAttr, g.edges);
      k := k + 1;
    }
    lines := w.lines;
  }

  // ------------------------------------------------------------ gen_dgs_files

  /** networkx names each node once. */
  ghost predicate DistinctNames(nodes: seq<NxNode>) {
    forall i, j :: 0 <= i < j < |nodes| ==> nodes[i].name != nodes[j].name
  }

  /** The node of `nodes` named `v`, as a sequence of zero or one node. */
  function Named(nodes: seq<NxNode>, v: Value): (r: seq<NxNode>)
    ensures |r| <= 1
    ensures forall n :: n in r ==> n in nodes && n.name == v
    ensures r == [] ==> forall n :: n in nodes ==> n.name != v
  {
    if nodes == [] then []
    else if nodes[0].name == v then [nodes[0]]
    else Named(nodes[1..], v)
  }

  /** The nodes of `nodes` named in `keep`, in the order of `keep`. */
  function Picked(nodes: seq<NxNode>, keep: seq<Value>): seq<NxNode> {
    if keep == [] then [] else Picked(nodes, keep[..|keep| - 1]) + Named(nodes, keep[|keep| - 1])
  }

  /** The edges with both ends in `keep`, in edge order. */
  function Between(edges: seq<(Value, Value)>, keep: seq<Value>): seq<(Value, Value)> {
    if edges == [] then []
    else
      var e := edges[|edges| - 1];
      Between(edges[..|edges| - 1], keep) + (if e.0 in keep && e.1 in keep then [e] else [])
  }

  /** `graph.subgraph(keep)`: the nodes named in `keep` and the edges between them. */
  function Subgraph(g: NxGraph, keep: seq<Value>): NxGraph {
    NxGraph(Picked(g.nodes, keep), Between(g.edges, keep))
  }

  /** The sub-graph holds exactly the nodes named in `keep`. */
  lemma {:induction false} PickedNodes(nodes: seq<NxNode>, keep: seq<Value>, n: NxNode)
    requires DistinctNames(nodes)
    ensures n in Picked(nodes, keep) <==> n in nodes && n.name in keep
  {
    if keep != [] {
      var init := keep[..|keep| - 1];
      var last := keep[|keep| - 1];
      PickedNodes(nodes, init, n);
      assert keep == init + [last];
      var r := Named(nodes, last);
      if n in nodes && n.name == last {
        assert r != [];
        var i :| 0 <= i < |nodes| && nodes[i] == r[0];
        var j :| 0 <= j < |nodes| && nodes[j] == n;
        assert i == j;
        assert n in r;
      }
    }
  }

  /** The sub-graph holds exactly the edges with both ends in `keep`. */
  lemma {:induction false} BetweenEdges(edges: seq<(Value, Value)>, keep: seq<Value>, e: (Value, Value))
    ensures e in Between(edges, keep) <==> e in edges && e.0 in keep && e.1 in keep
  {
    if edges != [] {
      var init := edges[..|edges| - 1];
      BetweenEdges(init, keep, e);
      assert edges == init + [edges[|edges| - 1]];
    }
  }

  /** `[i for i, x in enumerate(assignments) if x == p]`, as node names. */
  function Members(assignments: seq<int>, p: int): (r: seq<Value>)
    ensures |r| == |Positions(assignments, p)|
  {
    var ps := Positions(assignments, p);
    seq(|ps|, k requires 0 <= k < |ps| => IntVal(ps[k]))
  }

  /** Partition `p` holds the 0-based line numbers of the assignment list that say `p`. */
  lemma MembersExactly(assignments: seq<int>, p: int, v: Value)
    ensures v in Members(assignments, p) <==> v.IntVal? && 0 <= v.i < |assignments| && assignments[v.i] == p
  {
    var ps := Positions(assignments, p);
    var r := Members(assignments, p);
    if v.IntVal? && 0 <= v.i < |assignments| && assignments[v.i] == p {
      var k :| 0 <= k < |ps| && ps[k] == v.i;
      assert r[k] == v;
    }
  }

  /** The graphs `gen_dgs_files` writes, each with its partition number. */
  function PartitionGraphs(g: NxGraph, assignments: seq<int>, partitionsNum: int): seq<(int, NxGraph)> {
    if partitionsNum == 1 then [(0, g)]
    else seq(if partitionsNum > 0 then partitionsNum else 0, p => (p, Subgraph(g, Members(assignments, p))))
  }

  /** What `gen_dgs_files` writes once the graph is read: the assignments are parsed, then one file per graph. */
  function DgsFiles(g: NxGraph, assignmentLines: seq<string>, partitionsNum: int,
                    colourMap: Option<map<string, string>>, colourAttr: string): Result<seq<(int, seq<Line>)>>
  {
    var a := ReadOrder(assignmentLines);
    if a.Err? then Err(a.error)
    else
      Ok(FilesFor(PartitionGraphs(g, a.value, partitionsNum), colourMap, colourAttr))
  }

  /** The lines written for each graph, with its partition number. */
  function FilesFor(pg: seq<(int, NxGraph)>, colourMap: Option<map<string, string>>, colourAttr: string): (r: seq<(int, seq<Line>)>)
    ensures |r| == |pg|
  {
    if pg == [] then []
    else
      var last := pg[|pg| - 1];
      FilesFor(pg[..|pg| - 1], colourMap, colourAttr) + [(last.0, DgsLines(last.0, last.1, colourMap, colourAttr))]
  }

  lemma FilesForNext(pg: seq<(int, NxGraph)>, p: nat, colourMap: Option<map<string, string>>, colourAttr: string)
    requires p < |pg|
    ensures FilesFor(pg[..p + 1], colourMap, colourAttr) ==
      FilesFor(pg[..p], colourMap, colourAttr) + [(pg[p].0, DgsLines(pg[p].0, pg[p].1, colourMap, colourAttr))]
  {
    assert pg[..p + 1][..p] == pg[..p];
  }

  lemma FilesForOne(g: NxGraph, colourMap: Option<map<string, string>>, colourAttr: string)
    ensures FilesFor([(0, g)], colourMap, colourAttr) == [(0, DgsLines(0, g, colourMap, colourAttr))]
  {
    var f := FilesFor([(0, g)], colourMap, colourAttr);
    assert f[0] == (0, DgsLines(0, g, colourMap, colourAttr));
  }

  /**
   * With several partitions, partition `p` is written from the sub-graph of
   * the nodes named by the line numbers assigned to `p`, with the edges
   * between them; partitions `0` to `partitions_num - 1` are written, in order.
   */
  lemma PartitionContents(g: NxGraph, assignments: seq<int>, partitionsNum: int, p: nat, n: NxNode, e: (Value, Value))
    requires partitionsNum != 1 && p < partitionsNum
    requires DistinctNames(g.nodes)
    ensures |PartitionGraphs(g, assignments, partitionsNum)| == partitionsNum
    ensures PartitionGraphs(g, assignments, partitionsNum)[p].0 == p
    ensures n in PartitionGraphs(g, assignments, partitionsNum)[p].1.nodes <==>
      n in g.nodes && n.name.IntVal? && 0 <= n.name.i < |assignments| && assignments[n.name.i] == p
    ensures e in PartitionGraphs(g, assignments, partitionsNum)[p].1.edges <==>
      e in g.edges && e.0 in Members(assignments, p) && e.1 in Members(assignments, p)
  {
    PickedNodes(g.nodes, Members(assignments, p), n);
    MembersExactly(assignments, p, n.name);
    BetweenEdges(g.edges, Members(assignments, p), e);
  }

  /** No node is written to two partitions. */
  lemma PartitionsDisjoint(g: NxGraph, assignments: seq<int>, partitionsNum: int, p: nat, q: nat, n: NxNode)
    requires partitionsNum != 1 && p < partitionsNum && q < partitionsNum && p != q
    requires DistinctNames(g.nodes)
    ensures !(n in PartitionGraphs(g, assignments, partitionsNum)[p].1.nodes &&
              n in PartitionGraphs(g, assignments, partitionsNum)[q].1.nodes)
  {
    PartitionContents(g, assignments, partitionsNum, p, n, (n.name, n.name));
    PartitionContents(g, assignments, partitionsNum, q, n, (n.name, n.name));
  }

  /** A graph whose nodes are named by text, not by line numbers, gives empty partitions. */
  lemma TextNamesGiveEmptyPartitions(g: NxGraph, assignments: seq<int>, partitionsNum: int, p: nat)
    requires partitionsNum != 1 && p < partitionsNum
    requires DistinctNames(g.nodes)
    requires forall n :: n in g.nodes ==> n.name.StrVal?
    ensures PartitionGraphs(g, assignments, partitionsNum)[p].1.nodes == []
  {
    var ns := PartitionGraphs(g, assignments, partitionsNum)[p].1.nodes;
    if ns != [] {
      PartitionContents(g, assignments, partitionsNum, p, ns[0], (ns[0].name, ns[0].name));
    }
  }

  /**
   * The assignment file is parsed before the partition count is looked at:
   * whatever the count, the files are written exactly when every line is an
   * integer, and with a single partition the whole graph is written as
   * partition 0 whatever the assignments say.
   */
  lemma DgsFilesParsed(g: NxGraph, assignmentLines: seq<string>, partitionsNum: int,
                       colourMap: Option<map<string, string>>, colourAttr: string)
    ensures var r := DgsFiles(g, assignmentLines, partitionsNum, colourMap, colourAttr);
      && (r.Ok? <==> forall i :: 0 <= i < |assignmentLines| ==> ParseInt(assignmentLines[i]).Some?)
      && (r.Err? ==> r.error == ValueError)
      && (r.Ok? && partitionsNum == 1 ==> r.value == [(0, DgsLines(0, g, colourMap, colourAttr))])
  {
    ReadOrderOk(assignmentLines);
    FilesForOne(g, colourMap, colourAttr);
  }

  /** The loop of `gen_dgs_files` over the partitions. */
  method GenDgsFiles(g: NxGraph, assignmentLines: seq<string>, partitionsNum: int,
                     colourMap: Option<map<string, string>>, colourAttr: string)
    returns (r: Result<seq<(int, seq<Line>)>>)
    ensures r == DgsFiles(g, assignmentLines, partitionsNum, colourMap, colourAttr)
  {
    var assignments := ReadOrder(assignmentLines);
    if assignments.Err? {
      return Err(assignments.error);
    }
    if partitionsNum == 1 {
      var lines := WriteDgs(0, g, colourMap, colourAttr);
      FilesForOne(g, colourMap, colourAttr);
      return Ok([(0, lines)]);
    }
    var files := WritePartitions(g, assignments.value, partitionsNum, colourMap, colourAttr);
    return Ok(files);
  }

  /** The loop over the partitions, when there are several. */
  method WritePartitions(g: NxGraph, assignments: seq<int>, partitionsNum: int,
                         colourMap: Option<map<string, string>>, colourAttr: string)
    returns (files: seq<(int, seq<Line>)>)
    requires partitionsNum != 1
    ensures files == FilesFor(PartitionGraphs(g, assignments, partitionsNum), colourMap, colourAttr)
  {
    ghost var pg := PartitionGraphs(g, assignments, partitionsNum);
    files := [];
    var p := 0;
    while p < partitionsNum
      invariant p <= |pg| == (if partitionsNum > 0 then partitionsNum else 0)
      invariant files == FilesFor(pg[..p], colourMap, colourAttr)
    {
      var lines := WriteDgs(p, Subgraph(g, Members(assignments, p)), colourMap, colourAttr);
      FilesForNext(pg, p, colourMap, colourAttr);
      files := files + [(p, lines)];
      p := p + 1;
    }
    assert pg[..p] == pg;
  }
}
