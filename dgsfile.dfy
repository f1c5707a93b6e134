/**
 * `write_dgs_file` of file_io.py: the GraphStream DGS (version 004) event
 * stream of one partition. After the two header lines, the nodes of the
 * partition's sub-graph are visited in ascending `order`; each one gets an
 * `an` (add node) line, then an `ae` (add edge) line for every edge to a
 * node already written, then an `st` (step) line.
 */
module DgsFile {
  import opened Wrappers
  import opened PyStr
  import opened ODicts
  import opened Graphs
  import opened Timeline

  /** One line of a DGS file. */
  datatype DgsLine =
    | Magic                                  // DGS004
    | StreamName(partition: int)             // partition_<p> 0 0
    | AddNode(id: int, colour: string, labelOf: Option<int>, size: string, start: int, count: int, hidden: bool)
    | AddEdge(eid: nat, from: int, to: int)
    | Step(time: nat)

  /** The text of a line: one event, introduced by its DGS keyword, ending in a newline. */
  function Render(l: DgsLine): (r: string)
    ensures |r| > 3 && r[|r| - 1] == '\n'
    ensures l.AddNode? ==> r[..3] == "an "
    ensures l.AddEdge? ==> r[..3] == "ae "
    ensures l.Step? ==> r[..3] == "st "
  {
    match l
    case Magic => "DGS004\n"
    case StreamName(p) => "partition_" + ShowInt(p) + " 0 0\n"
    case AddNode(id, c, lab, s, fs, fc, h) =>
      "an " + ShowInt(id) + " c='" + c + "' l='" + LabelText(lab) + "' s='" + s + "' fs='" + ShowInt(fs)
        + "' fc='" + ShowInt(fc) + "' hidden='" + (if h then "1" else "0") + "'\n"
    case AddEdge(i, u, v) => "ae " + ShowInt(i) + " " + ShowInt(u) + " " + ShowInt(v) + "\n"
    case Step(k) => "st " + ShowInt(k) + "\n"
  }

  function Header(partition: int): seq<DgsLine> {
    [Magic, StreamName(partition)]
  }

  predicate Hidden(n: Node) {
    "hidden" in n.attrs
  }

  /** The node's colour attribute, `black` when it has none. */
  function Colour(n: Node, colourAttr: string): (r: string)
    ensures colourAttr in n.attrs ==> r == n.attrs[colourAttr]
    ensures colourAttr !in n.attrs ==> r == "black"
  {
    if colourAttr in n.attrs then n.attrs[colourAttr] else "black"
  }

  /** The text of a label: the number, or nothing. */
  function LabelText(lab: Option<int>): string {
    match lab
    case Some(x) => ShowInt(x)
    case None => ""
  }

  /** Hidden nodes have no label; otherwise the id, the order, or nothing, after `label_type`. */
  function Label(n: Node, labelType: string): (r: Option<int>)
    ensures Hidden(n) ==> r == None
    ensures !Hidden(n) && labelType == "id" ==> r == Some(n.id)
    ensures !Hidden(n) && labelType == "order" ==> r == Some(n.order)
    ensures labelType != "id" && labelType != "order" ==> r == None
  {
    if Hidden(n) then None
    else if labelType == "id" then Some(n.id)
    else if labelType == "order" then Some(n.order)
    else None
  }

  // ------------------------------------------------------------ projections

  /** The ids of the `an` lines, in order. */
  function NodeIdsOf(ls: seq<DgsLine>): seq<int> {
    if ls == [] then []
    else NodeIdsOf(ls[..|ls| - 1]) + (if ls[|ls| - 1].AddNode? then [ls[|ls| - 1].id] else [])
  }

  /** The numbers of the `st` lines, in order. */
  function StepsOf(ls: seq<DgsLine>): seq<nat> {
    if ls == [] then []
    else StepsOf(ls[..|ls| - 1]) + (if ls[|ls| - 1].Step? then [ls[|ls| - 1].time] else [])
  }

  /** The ids of the `ae` lines, in order. */
  function EdgeIdsOf(ls: seq<DgsLine>): seq<nat> {
    if ls == [] then []
    else EdgeIdsOf(ls[..|ls| - 1]) + (if ls[|ls| - 1].AddEdge? then [ls[|ls| - 1].eid] else [])
  }

  /** The `(from, to)` endpoints of the `ae` lines, in order. */
  function EdgePairs(ls: seq<DgsLine>): (r: seq<(int, int)>)
    ensures |r| == |EdgeIdsOf(ls)|
  {
    if ls == [] then []
    else EdgePairs(ls[..|ls| - 1]) + (if ls[|ls| - 1].AddEdge? then [(ls[|ls| - 1].from, ls[|ls| - 1].to)] else [])
  }

  lemma {:induction false} NodeIdsAppend(a: seq<DgsLine>, b: seq<DgsLine>)
    ensures NodeIdsOf(a + b) == NodeIdsOf(a) + NodeIdsOf(b)
  {
    if b == [] {
      assert a + b == a;
    } else {
      assert (a + b)[..|a + b| - 1] == a + b[..|b| - 1];
      NodeIdsAppend(a, b[..|b| - 1]);
    }
  }

  lemma {:induction false} StepsAppend(a: seq<DgsLine>, b: seq<DgsLine>)
    ensures StepsOf(a + b) == StepsOf(a) + StepsOf(b)
  {
    if b == [] {
      assert a + b == a;
    } else {
      assert (a + b)[..|a + b| - 1] == a + b[..|b| - 1];
      StepsAppend(a, b[..|b| - 1]);
    }
  }

  lemma {:induction false} EdgeIdsAppend(a: seq<DgsLine>, b: seq<DgsLine>)
    ensures EdgeIdsOf(a + b) == EdgeIdsOf(a) + EdgeIdsOf(b)
  {
    if b == [] {
      assert a + b == a;
    } else {
      assert (a + b)[..|a + b| - 1] == a + b[..|b| - 1];
      EdgeIdsAppend(a, b[..|b| - 1]);
    }
  }

  lemma {:induction false} EdgePairsAppend(a: seq<DgsLine>, b: seq<DgsLine>)
    ensures EdgePairs(a + b) == EdgePairs(a) + EdgePairs(b)
  {
    if b == [] {
      assert a + b == a;
    } else {
      assert (a + b)[..|a + b| - 1] == a + b[..|b| - 1];
      EdgePairsAppend(a, b[..|b| - 1]);
    }
  }

  lemma Assoc<T>(a: seq<T>, b: seq<T>, c: seq<T>)
    ensures a + b + c == a + (b + c)
  {
  }

  lemma Snoc<T>(s: seq<T>, x: T)
    ensures (s + [x])[..|s|] == s
  {
  }

  // ------------------------------------------------------------ the stream

  /**
   * The `ae` lines written for node `v` with neighbours `nbrs`: one for
   * every neighbour already written, numbered on from `first`.
   */
  function EdgeLines(v: int, nbrs: seq<int>, written: seq<int>, first: nat): (r: seq<DgsLine>)
    ensures |r| == Known(nbrs, written)
    ensures forall t :: 0 <= t < |r| ==> r[t].AddEdge? && r[t].eid == first + t && r[t].to == v
  {
    if nbrs == [] then []
    else
      var init := EdgeLines(v, nbrs[..|nbrs| - 1], written, first);
      var u := nbrs[|nbrs| - 1];
      if u in written then init + [AddEdge(first + |init|, u, v)] else init
  }

  /** How many of `nbrs` are in `written`. */
  function Known(nbrs: seq<int>, written: seq<int>): nat {
    if nbrs == [] then 0
    else Known(nbrs[..|nbrs| - 1], written) + if nbrs[|nbrs| - 1] in written then 1 else 0
  }

  /** A run of `ae` lines has no `an` or `st` line. */
  lemma {:induction false} OnlyEdgesNoNodes(ls: seq<DgsLine>)
    requires forall t :: 0 <= t < |ls| ==> ls[t].AddEdge?
    ensures NodeIdsOf(ls) == [] && StepsOf(ls) == []
  {
    if ls != [] {
      OnlyEdgesNoNodes(ls[..|ls| - 1]);
    }
  }

  /** A run of `ae` lines projects onto its own edge ids. */
  lemma {:induction false} OnlyEdgesIds(ls: seq<DgsLine>)
    requires forall t :: 0 <= t < |ls| ==> ls[t].AddEdge?
    ensures |EdgeIdsOf(ls)| == |ls| && forall t :: 0 <= t < |ls| ==> EdgeIdsOf(ls)[t] == ls[t].eid
  {
    if ls != [] {
      OnlyEdgesIds(ls[..|ls| - 1]);
    }
  }

  /** A run of `ae` lines projects onto its own endpoints. */
  lemma {:induction false} OnlyEdgesPairs(ls: seq<DgsLine>)
    requires forall t :: 0 <= t < |ls| ==> ls[t].AddEdge?
    ensures |EdgePairs(ls)| == |ls| && forall t :: 0 <= t < |ls| ==> EdgePairs(ls)[t] == (ls[t].from, ls[t].to)
  {
    if ls != [] {
      OnlyEdgesPairs(ls[..|ls| - 1]);
    }
  }

  /** The endpoints `(u, v)` of the edges from the neighbours `u` of `v` that are in `written`, in order. */
  function PairsFrom(v: int, nbrs: seq<int>, written: seq<int>): seq<(int, int)> {
    if nbrs == [] then []
    else
      var u := nbrs[|nbrs| - 1];
      PairsFrom(v, nbrs[..|nbrs| - 1], written) + if u in written then [(u, v)] else []
  }

  /** The `ae` lines written for `v` have exactly those endpoints. */
  lemma {:induction false} EdgeLinesPairs(v: int, nbrs: seq<int>, written: seq<int>, first: nat)
    ensures EdgePairs(EdgeLines(v, nbrs, written, first)) == PairsFrom(v, nbrs, written)
  {
    if nbrs != [] {
      var init := nbrs[..|nbrs| - 1];
      var u := nbrs[|nbrs| - 1];
      EdgeLinesPairs(v, init, written, first);
      var prev := EdgeLines(v, init, written, first);
      if u in written {
        EdgePairsSnoc(prev, AddEdge(first + |prev|, u, v));
      }
    }
  }

  /** The edges of `v`: one from each of its neighbours in `written`, and no other. */
  lemma {:induction false} PairsFromMembers(v: int, nbrs: seq<int>, written: seq<int>)
    ensures forall u, w :: (u, w) in PairsFrom(v, nbrs, written) <==> w == v && u in nbrs && u in written
  {
    if nbrs != [] {
      var init := nbrs[..|nbrs| - 1];
      PairsFromMembers(v, init, written);
      assert nbrs == init + [nbrs[|nbrs| - 1]];
    }
  }

  /** Distinct neighbours give distinct edges. */
  lemma {:induction false} PairsFromDistinct(v: int, nbrs: seq<int>, written: seq<int>)
    requires Distinct(nbrs)
    ensures Distinct(PairsFrom(v, nbrs, written))
  {
    if nbrs != [] {
      var init := nbrs[..|nbrs| - 1];
      var u := nbrs[|nbrs| - 1];
      assert Distinct(init);
      PairsFromDistinct(v, init, written);
      PairsFromMembers(v, init, written);
      if u in written {
        assert u !in init;
        DistinctConcat(PairsFrom(v, init, written), [(u, v)]);
      }
    }
  }

  /**
   * What one call of `write_dgs_file` works from: the sub-graph's nodes
   * sorted by order, its adjacency, the partition's frame windows, and the
   * two attribute choices.
   */
  datatype Emitter = Emitter(nodes: seq<Node>, adj: map<int, seq<int>>, starts: seq<nat>, counts: seq<int>,
                             labelType: string, colourAttr: string) {

    /** No node is listed twice, and no neighbour is listed twice for one node. */
    ghost predicate Simple() {
      && Distinct(Ids(nodes))
      && (forall v :: v in adj ==> Distinct(adj[v]))
    }

    /** The neighbours of `v`, in iteration order. */
    function Nbrs(v: int): seq<int> {
      if v in adj then adj[v] else []
    }

    /** Writing node `j` raises: it has no `size` (KeyError) or no frame window (IndexError). */
    predicate Fails(j: nat)
      requires j < |nodes|
    {
      "size" !in nodes[j].attrs || j >= |starts|
    }

    function Error(j: nat): Exc
      requires j < |nodes|
    {
      if "size" !in nodes[j].attrs then KeyError else IndexError
    }

    /** The first node from `j` on whose line raises, or `|nodes|`. */
    function Stop(j: nat): (r: nat)
      requires j <= |nodes|
      ensures j <= r <= |nodes|
      ensures forall i :: j <= i < r ==> !Fails(i)
      ensures r < |nodes| ==> Fails(r)
      decreases |nodes| - j
    {
      if j == |nodes| || Fails(j) then j else Stop(j + 1)
    }

    /**
     * The `an` line of node `j`. Only the lines of nodes before the first
     * one that raises are ever written, and for those `size` and the
     * window are present; the fallbacks below are never written.
     */
    function NodeLine(j: nat): DgsLine
      requires j < |nodes|
    {
      var n := nodes[j];
      var size := if "size" in n.attrs then n.attrs["size"] else "";
      var start := if j < |starts| then starts[j] else 0;
      var count := if j < |counts| then counts[j] else 0;
      AddNode(n.id, Colour(n, colourAttr), Label(n, labelType), size, start, count, Hidden(n))
    }

    /** The ids of the nodes up to and including node `j`. */
    function Written(j: nat): seq<int>
      requires j < |nodes|
    {
      Ids(nodes[..j + 1])
    }

    /** The `ae` lines of node `j`: one from each of its neighbours written up to and including itself. */
    function Edges(j: nat, first: nat): seq<DgsLine>
      requires j < |nodes|
    {
      EdgeLines(nodes[j].id, Nbrs(nodes[j].id), Written(j), first)
    }

    /** The number of `ae` lines of the first `k` nodes: the id of the next edge. */
    function Offset(k: nat): nat
      requires k <= |nodes|
    {
      if k == 0 then 0 else Offset(k - 1) + Known(Nbrs(nodes[k - 1].id), Written(k - 1))
    }

    /** The endpoints of node `j`'s `ae` lines. */
    function NewPairs(j: nat): seq<(int, int)>
      requires j < |nodes|
    {
      PairsFrom(nodes[j].id, Nbrs(nodes[j].id), Written(j))
    }

    /** The endpoints of the `ae` lines of the first `k` nodes, in order. */
    function Pairs(k: nat): seq<(int, int)>
      requires k <= |nodes|
    {
      if k == 0 then [] else Pairs(k - 1) + NewPairs(k - 1)
    }

    /** The lines of node `j`: its `an`, its edges back to written nodes, its `st`. */
    function Block(j: nat, first: nat): seq<DgsLine>
      requires j < |nodes|
    {
      [NodeLine(j)] + Edges(j, first) + [Step(j + 1)]
    }

    /** The lines written for the first `k` nodes when none of them raises. */
    function Stream(k: nat): seq<DgsLine>
      requires k <= |nodes|
    {
      if k == 0 then [] else Stream(k - 1) + Block(k - 1, Offset(k - 1))
    }
  }

  /** `[1, 2, ..., k]`. */
  function OneTo(k: nat): (r: seq<nat>)
    ensures |r| == k && forall i :: 0 <= i < k ==> r[i] == i + 1
  {
    if k == 0 then [] else OneTo(k - 1) + [k]
  }

  /** Pairs that never end at `w` and pairs that all end at `w` have none in common. */
  lemma PairsDisjoint(a: seq<(int, int)>, b: seq<(int, int)>, w: int)
    requires forall u :: (u, w) !in a
    requires forall u, x :: (u, x) in b ==> x == w
    ensures forall x :: x in a ==> x !in b
  {
    forall x | x in a ensures x !in b {
      var u, y := x.0, x.1;
      assert x == (u, y);
      assert (u, y) in a;
      assert y != w;
      assert (u, y) !in b;
    }
  }

  lemma DistinctConcat<T>(a: seq<T>, b: seq<T>)
    requires Distinct(a) && Distinct(b)
    requires forall x :: x in a ==> x !in b
    ensures Distinct(a + b)
  {
    forall i, j | 0 <= i < j < |a + b| ensures (a + b)[i] != (a + b)[j] {
      if j >= |a| && i < |a| {
        assert (a + b)[i] in a && (a + b)[j] in b;
      }
    }
  }

  lemma IdsSnoc(ns: seq<Node>, k: nat)
    requires k < |ns|
    ensures Ids(ns[..k + 1]) == Ids(ns[..k]) + [ns[k].id]
  {
  }

  /** A block has one `an` line, for its node, and one `st` line, numbered after it. */
  lemma BlockNodes(e: Emitter, j: nat, first: nat)
    requires j < |e.nodes|
    ensures NodeIdsOf(e.Block(j, first)) == [e.nodes[j].id]
    ensures StepsOf(e.Block(j, first)) == [j + 1]
  {
    var v := e.nodes[j].id;
    var edges := e.Edges(j, first);
    OnlyEdgesNoNodes(edges);
    NodeIdsAppend([e.NodeLine(j)], edges);
    NodeIdsAppend([e.NodeLine(j)] + edges, [Step(j + 1)]);
    StepsAppend([e.NodeLine(j)], edges);
    StepsAppend([e.NodeLine(j)] + edges, [Step(j + 1)]);
    assert [e.NodeLine(j)][..0] == [];
    assert [Step(j + 1)][..0] == [];
  }

  /** The edge ids of a block are those of its `ae` lines. */
  lemma BlockEdgeIds(e: Emitter, j: nat, first: nat)
    requires j < |e.nodes|
    ensures var v := e.nodes[j].id;
      EdgeIdsOf(e.Block(j, first)) == EdgeIdsOf(e.Edges(j, first))
  {
    var v := e.nodes[j].id;
    var edges := e.Edges(j, first);
    EdgeIdsAppend([e.NodeLine(j)], edges);
    EdgeIdsAppend([e.NodeLine(j)] + edges, [Step(j + 1)]);
    assert [e.NodeLine(j)][..0] == [];
    assert [Step(j + 1)][..0] == [];
  }

  /** The edge endpoints of a block are those of its `ae` lines. */
  lemma BlockEdgePairs(e: Emitter, j: nat, first: nat)
    requires j < |e.nodes|
    ensures var v := e.nodes[j].id;
      EdgePairs(e.Block(j, first)) == EdgePairs(e.Edges(j, first))
  {
    var v := e.nodes[j].id;
    var edges := e.Edges(j, first);
    EdgePairsAppend([e.NodeLine(j)], edges);
    EdgePairsAppend([e.NodeLine(j)] + edges, [Step(j + 1)]);
    assert [e.NodeLine(j)][..0] == [];
    assert [Step(j + 1)][..0] == [];
  }

  /** `s` is `[0, 1, ..., |s| - 1]`. */
  ghost predicate Numbered(s: seq<nat>) {
    forall i :: 0 <= i < |s| ==> s[i] == i
  }

  /**
   * The first `k` nodes give exactly `k` `an` lines, for the nodes in
   * ascending order, and `k` `st` lines numbered 1 to `k`; the `ae` lines
   * are numbered 0, 1, 2, ... with no gap.
   */
  lemma {:induction false} StreamLayout(e: Emitter, k: nat)
    requires k <= |e.nodes|
    ensures NodeIdsOf(e.Stream(k)) == Ids(e.nodes[..k])
    ensures StepsOf(e.Stream(k)) == OneTo(k)
    ensures |EdgeIdsOf(e.Stream(k))| == e.Offset(k)
    ensures Numbered(EdgeIdsOf(e.Stream(k)))
  {
    if k > 0 {
      var j := k - 1;
      StreamLayout(e, j);
      NodesStep(e, j);
      StepsStep(e, j);
      EdgeIdsStep(e, j);
    }
  }

  /** Node `j`'s block adds its `an` line after those of the nodes before it. */
  lemma NodesStep(e: Emitter, j: nat)
    requires j < |e.nodes|
    requires NodeIdsOf(e.Stream(j)) == Ids(e.nodes[..j])
    ensures NodeIdsOf(e.Stream(j + 1)) == Ids(e.nodes[..j + 1])
  {
    var prev := e.Stream(j);
    var block := e.Block(j, e.Offset(j));
    assert e.Stream(j + 1) == prev + block;
    NodeIdsAppend(prev, block);
    BlockNodes(e, j, e.Offset(j));
    IdsSnoc(e.nodes, j);
  }

  /** Node `j`'s block adds the `st` line numbered `j + 1`. */
  lemma StepsStep(e: Emitter, j: nat)
    requires j < |e.nodes|
    requires StepsOf(e.Stream(j)) == OneTo(j)
    ensures StepsOf(e.Stream(j + 1)) == OneTo(j + 1)
  {
    var prev := e.Stream(j);
    var block := e.Block(j, e.Offset(j));
    assert e.Stream(j + 1) == prev + block;
    StepsAppend(prev, block);
    BlockNodes(e, j, e.Offset(j));
  }

  /** Node `j`'s `ae` lines carry the next ids in turn. */
  lemma EdgeIdsStep(e: Emitter, j: nat)
    requires j < |e.nodes|
    requires |EdgeIdsOf(e.Stream(j))| == e.Offset(j) && Numbered(EdgeIdsOf(e.Stream(j)))
    ensures |EdgeIdsOf(e.Stream(j + 1))| == e.Offset(j + 1) && Numbered(EdgeIdsOf(e.Stream(j + 1)))
  {
    var prev := e.Stream(j);
    var block := e.Block(j, e.Offset(j));
    var edges := e.Edges(j, e.Offset(j));
    assert e.Stream(j + 1) == prev + block;
    EdgeIdsAppend(prev, block);
    BlockEdgeIds(e, j, e.Offset(j));
    OnlyEdgesIds(edges);
    var ids := EdgeIdsOf(e.Stream(j + 1));
    assert ids == EdgeIdsOf(prev) + EdgeIdsOf(edges);
    forall i | 0 <= i < |ids| ensures ids[i] == i {
      if i >= e.Offset(j) {
        assert ids[i] == EdgeIdsOf(edges)[i - e.Offset(j)];
      }
    }
  }

  /** Node `j`'s block adds its edges' endpoints after those of the nodes before it. */
  lemma StreamPairsStep(e: Emitter, j: nat)
    requires j < |e.nodes|
    requires EdgePairs(e.Stream(j)) == e.Pairs(j)
    ensures EdgePairs(e.Stream(j + 1)) == e.Pairs(j + 1)
  {
    var prev := e.Stream(j);
    var block := e.Block(j, e.Offset(j));
    var v := e.nodes[j].id;
    assert e.Stream(j + 1) == prev + block;
    BlockEdgePairs(e, j, e.Offset(j));
    EdgePairsAppend(prev, block);
    EdgeLinesPairs(v, e.Nbrs(v), e.Written(j), e.Offset(j));
  }

  /** The `ae` lines of the first `k` nodes have the endpoints `Pairs(k)`. */
  lemma {:induction false} StreamPairs(e: Emitter, k: nat)
    requires k <= |e.nodes|
    ensures EdgePairs(e.Stream(k)) == e.Pairs(k)
  {
    if k > 0 {
      var j := k - 1;
      StreamPairs(e, j);
      StreamPairsStep(e, j);
    }
  }

  /** Every edge joins a node to a neighbour written no later than itself. */
  lemma {:induction false} PairsSound(e: Emitter, k: nat, u: int, v: int)
    requires k <= |e.nodes|
    requires (u, v) in e.Pairs(k)
    ensures exists j :: 0 <= j < k && e.nodes[j].id == v && u in e.Nbrs(v) && u in e.Written(j)
  {
    var i := k - 1;
    var w := e.nodes[i].id;
    if (u, v) in e.Pairs(i) {
      PairsSound(e, i, u, v);
    } else {
      PairsFromMembers(w, e.Nbrs(w), e.Written(i));
    }
  }

  /** Node `j` gets an edge from each of its neighbours written so far. */
  lemma PairsLast(e: Emitter, j: nat, u: int)
    requires j < |e.nodes|
    requires u in e.Nbrs(e.nodes[j].id) && u in e.Written(j)
    ensures (u, e.nodes[j].id) in e.Pairs(j + 1)
  {
    var v := e.nodes[j].id;
    PairsFromMembers(v, e.Nbrs(v), e.Written(j));
    assert e.Pairs(j + 1) == e.Pairs(j) + e.NewPairs(j);
  }

  /** An edge written for the first `a` nodes is still there after the first `b`. */
  lemma {:induction false} PairsKept(e: Emitter, a: nat, b: nat, x: (int, int))
    requires a <= b <= |e.nodes|
    requires x in e.Pairs(a)
    ensures x in e.Pairs(b)
    decreases b - a
  {
    if a < b {
      assert e.Pairs(a + 1) == e.Pairs(a) + e.NewPairs(a);
      PairsKept(e, a + 1, b, x);
    }
  }

  /** Every neighbour `u` written no later than node `j` gives an edge from `u` to node `j`. */
  lemma PairsComplete(e: Emitter, k: nat, j: nat, u: int)
    requires k <= |e.nodes|
    requires j < k && u in e.Nbrs(e.nodes[j].id) && u in e.Written(j)
    ensures (u, e.nodes[j].id) in e.Pairs(k)
  {
    PairsLast(e, j, u);
    PairsKept(e, j + 1, k, (u, e.nodes[j].id));
  }

  /** When node `k` is written, no earlier edge ends at it: node ids are distinct. */
  lemma FreshNode(e: Emitter, k: nat)
    requires e.Simple() && k < |e.nodes|
    ensures forall u :: (u, e.nodes[k].id) !in e.Pairs(k)
  {
    var v := e.nodes[k].id;
    forall u | (u, v) in e.Pairs(k) ensures false {
      PairsSound(e, k, u, v);
    }
  }

  /** No edge is written twice. */
  lemma {:induction false} PairsDistinct(e: Emitter, k: nat)
    requires e.Simple() && k <= |e.nodes|
    ensures Distinct(e.Pairs(k))
  {
    if k > 0 {
      var j := k - 1;
      var v := e.nodes[j].id;
      PairsDistinct(e, j);
      PairsFromMembers(v, e.Nbrs(v), e.Written(j));
      PairsFromDistinct(v, e.Nbrs(v), e.Written(j));
      FreshNode(e, j);
      PairsDisjoint(e.Pairs(j), e.NewPairs(j), v);
      DistinctConcat(e.Pairs(j), e.NewPairs(j));
    }
  }

  /**
   * The `ae` lines of the first `k` nodes join exactly each node to those
   * of its neighbours written no later than itself.
   */
  lemma StreamEdges(e: Emitter, k: nat, u: int, v: int)
    requires k <= |e.nodes|
    ensures (u, v) in EdgePairs(e.Stream(k))
        <==> exists j :: 0 <= j < k && e.nodes[j].id == v && u in e.Nbrs(v) && u in e.Written(j)
  {
    StreamPairs(e, k);
    if (u, v) in e.Pairs(k) {
      PairsSound(e, k, u, v);
    }
    if exists j :: 0 <= j < k && e.nodes[j].id == v && u in e.Nbrs(v) && u in e.Written(j) {
      var j :| 0 <= j < k && e.nodes[j].id == v && u in e.Nbrs(v) && u in e.Written(j);
      PairsComplete(e, k, j, u);
    }
  }

  /** No edge is written twice. */
  lemma StreamEdgesDistinct(e: Emitter, k: nat)
    requires e.Simple() && k <= |e.nodes|
    ensures Distinct(EdgePairs(e.Stream(k)))
  {
    StreamPairs(e, k);
    PairsDistinct(e, k);
  }

  /** The first node that raises is where the writing stops. */
  lemma {:induction false} StopAt(e: Emitter, j: nat, k: nat)
    requires j <= k <= |e.nodes|
    requires forall i :: j <= i < k ==> !e.Fails(i)
    requires k < |e.nodes| ==> e.Fails(k)
    ensures e.Stop(j) == k
    decreases k - j
  {
    if j < k {
      StopAt(e, j + 1, k);
    }
  }

  lemma NoFailsSnoc(e: Emitter, k: nat)
    requires k < |e.nodes| && !e.Fails(k)
    requires forall j :: 0 <= j < k ==> !e.Fails(j)
    ensures forall j :: 0 <= j < k + 1 ==> !e.Fails(j)
  {
  }

  lemma EdgeLinesSnoc(v: int, nbrs: seq<int>, t: nat, written: seq<int>, first: nat)
    requires t < |nbrs|
    ensures var init := EdgeLines(v, nbrs[..t], written, first);
      EdgeLines(v, nbrs[..t + 1], written, first)
        == init + if nbrs[t] in written then [AddEdge(first + |init|, nbrs[t], v)] else []
    ensures PairsFrom(v, nbrs[..t + 1], written)
        == PairsFrom(v, nbrs[..t], written) + if nbrs[t] in written then [(nbrs[t], v)] else []
  {
    assert nbrs[..t + 1][..t] == nbrs[..t];
  }

  lemma EdgePairsSnoc(ls: seq<DgsLine>, l: DgsLine)
    requires l.AddEdge?
    ensures EdgePairs(ls + [l]) == EdgePairs(ls) + [(l.from, l.to)]
  {
    Snoc(ls, l);
  }

  /** The lines of the first `k + 1` nodes: those of the first `k`, then node `k`'s. */
  lemma StreamGrows(e: Emitter, k: nat, head: seq<DgsLine>, before: seq<DgsLine>, edges: seq<DgsLine>, lines: seq<DgsLine>)
    requires k < |e.nodes|
    requires before == head + e.Stream(k)
    requires edges == e.Edges(k, e.Offset(k))
    requires lines == before + [e.NodeLine(k)] + edges + [Step(k + 1)]
    ensures lines == head + e.Stream(k + 1)
    ensures e.Offset(k + 1) == e.Offset(k) + |edges|
  {
    var prev := e.Stream(k);
    var a, c := [e.NodeLine(k)], [Step(k + 1)];
    assert e.Stream(k + 1) == prev + (a + edges + c);
    Assoc(head + prev, a, edges);
    Assoc(head + prev, a + edges, c);
    Assoc(head, prev, a + edges + c);
  }

  /** The sub-graph's nodes in ascending order, its adjacency and the partition's windows. */
  function EmitterFor(g: Graph, full: seq<Node>, partition: int, labelType: string, colourAttr: string, trailing: int): (e: Emitter)
    requires g.Valid()
    ensures e.Simple()
  {
    SortIdsDistinct(g.nodes);
    Emitter(SortByOrder(g.nodes), g.adj, FrameStartAndCount(full, partition, trailing).0,
            FrameStartAndCount(full, partition, trailing).1, labelType, colourAttr)
  }

  lemma SortedInAdj(g: Graph)
    requires g.Valid()
    ensures forall n :: n in SortByOrder(g.nodes) ==> n.id in g.adj
  {
    forall n | n in SortByOrder(g.nodes) ensures n.id in g.adj {
      assert n in multiset(g.nodes);
      var i :| 0 <= i < |g.nodes| && g.nodes[i] == n;
      assert Ids(g.nodes)[i] == n.id;
    }
  }

  /**
   * One neighbour `u = nbrs[t]` of `v`: when `u` is written, the edge
   * `(u, v)` is new and is added; otherwise nothing changes.
   */
  lemma EdgeStep(v: int, nbrs: seq<int>, t: nat, written: seq<int>, first: nat, pairs0: seq<(int, int)>)
    requires t < |nbrs| && Distinct(nbrs)
    requires forall u :: (u, v) !in pairs0
    ensures var done := EdgeLines(v, nbrs[..t], written, first);
      var next := EdgeLines(v, nbrs[..t + 1], written, first);
      var pairs := PairsFrom(v, nbrs[..t], written);
      if nbrs[t] in written then
        && (nbrs[t], v) !in pairs0 + pairs
        && next == done + [AddEdge(first + |done|, nbrs[t], v)]
        && PairsFrom(v, nbrs[..t + 1], written) == pairs + [(nbrs[t], v)]
      else
        && next == done
        && PairsFrom(v, nbrs[..t + 1], written) == pairs
  {
    var done := EdgeLines(v, nbrs[..t], written, first);
    var pairs := PairsFrom(v, nbrs[..t], written);
    var u := nbrs[t];
    EdgeLinesSnoc(v, nbrs, t, written, first);
    PairsFromMembers(v, nbrs[..t], written);
    assert u !in nbrs[..t];
    if u !in written {
      assert done + [] == done;
      assert pairs + [] == pairs;
    }
  }

  /** One turn of the edge loop keeps the lines and `edges_added` in step with `EdgeLines`. */
  lemma EdgeLoopStep(v: int, nbrs: seq<int>, t: nat, written: seq<int>, first: nat,
                     lines0: seq<DgsLine>, pairs0: seq<(int, int)>, lines: seq<DgsLine>, pairs: seq<(int, int)>)
    requires t < |nbrs| && Distinct(nbrs) && v in written
    requires forall u :: (u, v) !in pairs0
    requires lines == lines0 + EdgeLines(v, nbrs[..t], written, first)
    requires pairs == pairs0 + PairsFrom(v, nbrs[..t], written)
    ensures var u := nbrs[t];
      var i := first + |EdgeLines(v, nbrs[..t], written, first)|;
      var next := EdgeLines(v, nbrs[..t + 1], written, first);
      if u in written && v in written && (u, v) !in pairs then
        && lines + [AddEdge(i, u, v)] == lines0 + next
        && pairs + [(u, v)] == pairs0 + PairsFrom(v, nbrs[..t + 1], written)
        && i + 1 == first + |next|
      else
        && lines == lines0 + next
        && pairs == pairs0 + PairsFrom(v, nbrs[..t + 1], written)
        && i == first + |next|
  {
    var done := EdgeLines(v, nbrs[..t], written, first);
    var u := nbrs[t];
    EdgeStep(v, nbrs, t, written, first, pairs0);
    if u in written {
      Assoc(lines0, done, [AddEdge(first + |done|, u, v)]);
      Assoc(pairs0, PairsFrom(v, nbrs[..t], written), [(u, v)]);
    }
  }

  /**
   * The edge loop of `write_dgs_file` for node `v`: for each neighbour
   * `u`, in order, an `ae` line numbered `i` when `u` is already written and
   * `(u, v)` is not yet in `edges_added`. No edge into `v` has been written
   * yet and a node's neighbours are distinct, so that last test never fails.
   */
  method WriteEdges(v: int, nbrs: seq<int>, nodesAdded: seq<int>, lines0: seq<DgsLine>, edgesAdded0: seq<(int, int)>, i0: nat)
    returns (lines: seq<DgsLine>, edgesAdded: seq<(int, int)>, i: nat)
    requires v in nodesAdded && Distinct(nbrs)
    requires forall u :: (u, v) !in edgesAdded0
    ensures lines == lines0 + EdgeLines(v, nbrs, nodesAdded, i0)
    ensures edgesAdded == edgesAdded0 + PairsFrom(v, nbrs, nodesAdded)
    ensures i == i0 + |EdgeLines(v, nbrs, nodesAdded, i0)|
  {
    lines, edgesAdded, i := lines0, edgesAdded0, i0;
    for t := 0 to |nbrs|
      invariant lines == lines0 + EdgeLines(v, nbrs[..t], nodesAdded, i0)
      invariant edgesAdded == edgesAdded0 + PairsFrom(v, nbrs[..t], nodesAdded)
      invariant i == i0 + |EdgeLines(v, nbrs[..t], nodesAdded, i0)|
    {
      var edge1 := nbrs[t];
      var edge2 := v;
      EdgeLoopStep(v, nbrs, t, nodesAdded, i0, lines0, edgesAdded0, lines, edgesAdded);
      if edge1 in nodesAdded && edge2 in nodesAdded && (edge1, edge2) !in edgesAdded {
        lines := lines + [AddEdge(i, edge1, edge2)];
        edgesAdded := edgesAdded + [(edge1, edge2)];
        i := i + 1;
      }
    }
    assert nbrs[..|nbrs|] == nbrs;
  }

  /** The first statements of `write_dgs_file`'s node loop: whether the node is hidden, its colour, its label. */
  method NodeAttributes(n: Node, labelType: string, colourAttr: string) returns (hidden: bool, colour: string, lab: Option<int>)
    ensures hidden == Hidden(n) && colour == Colour(n, colourAttr) && lab == Label(n, labelType)
  {
    hidden := "hidden" in n.attrs;
    colour := "black";
    if colourAttr in n.attrs {
      colour := n.attrs[colourAttr];
    }
    lab := None;
    if hidden {
      lab := None;
    } else if labelType == "id" {
      lab := Some(n.id);
    } else if labelType == "order" {
      lab := Some(n.order);
    }
  }

  /**
   * The first half of `write_dgs_file`'s node loop body: the node's `an`
   * line, or the KeyError of a node without `size`, or the IndexError of a
   * node past the last frame window.
   */
  method MakeNodeLine(ghost e: Emitter, index: nat, n: Node, starts: seq<nat>, counts: seq<int>,
                      labelType: string, colourAttr: string) returns (r: Result<DgsLine>)
    requires index < |e.nodes| && n == e.nodes[index]
    requires starts == e.starts && counts == e.counts && |starts| == |counts|
    requires labelType == e.labelType && colourAttr == e.colourAttr
    ensures r == if e.Fails(index) then Err(e.Error(index)) else Ok(e.NodeLine(index))
  {
    var hidden, colour, lab := NodeAttributes(n, labelType, colourAttr);
    if "size" !in n.attrs {
      return Err(KeyError);
    }
    var size := n.attrs["size"];
    if index >= |starts| {
      return Err(IndexError);
    }
    r := Ok(AddNode(n.id, colour, lab, size, starts[index], counts[index], hidden));
  }

  /**
   * The state of `write_dgs_file` after the first `index` nodes, none of
   * which raised: the lines written after `head`, the next edge id, the ids
   * in `nodes_added` and the pairs in `edges_added`.
   */
  ghost predicate Progress(e: Emitter, head: seq<DgsLine>, index: nat, lines: seq<DgsLine>, i: nat,
                           nodesAdded: seq<int>, edgesAdded: seq<(int, int)>) {
    && index <= |e.nodes|
    && (forall j :: 0 <= j < index ==> !e.Fails(j))
    && lines == head + e.Stream(index)
    && i == e.Offset(index)
    && nodesAdded == Ids(e.nodes[..index])
    && edgesAdded == e.Pairs(index)
  }

  /**
   * The body of `write_dgs_file`'s node loop once node `index` is known not
   * to raise: its `an` line, its id added to `nodes_added`, its `ae` lines
   * and its `st` line.
   */
  method WriteBlock(ghost e: Emitter, ghost head: seq<DgsLine>, index: nat, nodeLine: DgsLine, nbrs: seq<int>, st: int,
                    lines0: seq<DgsLine>, nodesAdded0: seq<int>, edgesAdded0: seq<(int, int)>, i0: nat)
    returns (lines: seq<DgsLine>, nodesAdded: seq<int>, edgesAdded: seq<(int, int)>, i: nat)
    requires e.Simple() && index < |e.nodes| && !e.Fails(index)
    requires nodeLine == e.NodeLine(index) && nbrs == e.Nbrs(e.nodes[index].id) && st == index + 1
    requires Progress(e, head, index, lines0, i0, nodesAdded0, edgesAdded0)
    ensures Progress(e, head, index + 1, lines, i, nodesAdded, edgesAdded)
  {
    NoFailsSnoc(e, index);
    var v := nodeLine.id;
    lines := lines0 + [nodeLine];
    nodesAdded := nodesAdded0 + [v];
    IdsSnoc(e.nodes, index);
    assert nodesAdded == e.Written(index);
    FreshNode(e, index);
    lines, edgesAdded, i := WriteEdges(v, nbrs, nodesAdded, lines, edgesAdded0, i0);
    lines := lines + [Step(st)];
    ghost var edges := EdgeLines(v, nbrs, nodesAdded, i0);
    assert edges == e.Edges(index, e.Offset(index));
    StreamGrows(e, index, head, lines0, edges, lines);
    assert e.Pairs(index + 1) == e.Pairs(index) + e.NewPairs(index);
  }

  /**
   * `write_dgs_file`'s loop over the nodes sorted by order, writing after
   * `lines0`; `e` is what the loop reads.
   */
  method WriteNodes(ghost e: Emitter, lines0: seq<DgsLine>, sorted: seq<Node>, adj: map<int, seq<int>>,
                    starts: seq<nat>, counts: seq<int>, labelType: string, colourAttr: string)
    returns (lines: seq<DgsLine>, outcome: Outcome)
    requires e == Emitter(sorted, adj, starts, counts, labelType, colourAttr) && e.Simple()
    requires |starts| == |counts|
    requires forall n :: n in sorted ==> n.id in adj
    ensures lines == lines0 + e.Stream(e.Stop(0))
    ensures outcome == if e.Stop(0) < |e.nodes| then Fail(e.Error(e.Stop(0))) else Pass
  {
    lines := lines0;
    assert lines == lines0 + e.Stream(0);
    assert Ids(sorted[..0]) == [];
    var i := 0;
    var st := 1;
    var nodesAdded: seq<int> := [];
    var edgesAdded: seq<(int, int)> := [];
    for index := 0 to |sorted|
      invariant Progress(e, lines0, index, lines, i, nodesAdded, edgesAdded)
      invariant st == index + 1
    {
      var nodeId := sorted[index].id;
      assert sorted[index] in sorted;
      var made := MakeNodeLine(e, index, sorted[index], starts, counts, labelType, colourAttr);
      if made.Err? {
        StopAt(e, 0, index);
        return lines, Fail(made.error);
      }
      assert adj[nodeId] == e.Nbrs(nodeId);
      lines, nodesAdded, edgesAdded, i := WriteBlock(e, lines0, index, made.value, adj[nodeId], st,
                                                     lines, nodesAdded, edgesAdded, i);
      st := st + 1;
    }
    StopAt(e, 0, |sorted|);
    outcome := Pass;
  }

  /**
   * `write_dgs_file(output, graph, full_graph, label_type, colour_attr,
   * trailing_frame_count)`: the lines written to `partition_<p>.dgs`, and
   * the exception, if any, that cut the writing short.
   */
  method WriteDgsFile(g: Graph, full: seq<Node>, partition: int, labelType: string, colourAttr: string, trailing: int)
    returns (lines: seq<DgsLine>, outcome: Outcome)
    requires g.Valid()
    ensures var e := EmitterFor(g, full, partition, labelType, colourAttr, trailing);
      && lines == Header(partition) + e.Stream(e.Stop(0))
      && outcome == if e.Stop(0) < |e.nodes| then Fail(e.Error(e.Stop(0))) else Pass
  {
    ghost var e := EmitterFor(g, full, partition, labelType, colourAttr, trailing);
    var (starts, counts) := FrameStartAndCount(full, partition, trailing);
    var sorted := SortByOrder(g.nodes);
    assert e == Emitter(sorted, g.adj, starts, counts, labelType, colourAttr);
    SortedInAdj(g);
    lines, outcome := WriteNodes(e, [Magic, StreamName(partition)], sorted, g.adj, starts, counts, labelType, colourAttr);
  }
}
