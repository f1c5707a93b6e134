/**
 * `read_metis` of file_io.py: a graph in the METIS graph-file format (a
 * header `n m [fmt [ncon]]`, then one line per vertex listing its 1-based
 * neighbours, with vertex and edge weights as `fmt` says) read into an
 * undirected networkx graph with 0-based nodes.
 */
module Metis {
  import opened Wrappers
  import opened PyStr

  /** A `weight` attribute: an integer read from the file, or the float `1.0` the reader sets itself. */
  datatype Weight = W(w: int) | One

  /** An edge as `add_edges_from` receives it: `(u, v, {'weight': w})`. */
  datatype Edge = Edge(u: int, v: int, w: Weight)

  /**
   * The undirected networkx graph being built: each node with its `weight`
   * attribute when one is set, each edge `{u, v}` (keyed by its smaller
   * end first) with its weight.
   */
  datatype MGraph = MGraph(nodes: map<int, Option<Weight>>, edges: map<(int, int), Weight>)

  function EdgeKey(u: int, v: int): (k: (int, int))
    ensures k.0 <= k.1 && (k == (u, v) || k == (v, u))
  {
    if u <= v then (u, v) else (v, u)
  }

  /** `G.add_edge(u, v, weight=w)`: missing endpoints are added without attributes, the edge's weight is (re)set. */
  function AddEdge(g: MGraph, e: Edge): (r: MGraph)
    ensures r.edges == g.edges[EdgeKey(e.u, e.v) := e.w]
    ensures r.nodes.Keys == g.nodes.Keys + {e.u, e.v}
    ensures forall x :: x in g.nodes ==> r.nodes[x] == g.nodes[x]
  {
    var ns := if e.u in g.nodes then g.nodes else g.nodes[e.u := None];
    MGraph(if e.v in ns then ns else ns[e.v := None], g.edges[EdgeKey(e.u, e.v) := e.w])
  }

  /** `G.add_edges_from(es)`: the edges added one after the other. */
  function AddEdges(g: MGraph, es: seq<Edge>): (r: MGraph)
    ensures forall x :: x in g.nodes ==> x in r.nodes && r.nodes[x] == g.nodes[x]
    ensures forall i :: 0 <= i < |es| ==> es[i].u in r.nodes && es[i].v in r.nodes
    ensures forall i :: 0 <= i < |es| ==> EdgeKey(es[i].u, es[i].v) in r.edges
    ensures forall k :: k in g.edges ==> k in r.edges
  {
    if es == [] then g
    else AddEdges(g, es[..|es| - 1]).(nodes := AddEdge(AddEdges(g, es[..|es| - 1]), es[|es| - 1]).nodes,
                                      edges := AddEdge(AddEdges(g, es[..|es| - 1]), es[|es| - 1]).edges)
  }

  /** `G.node[n]['weight'] = w`: KeyError when `n` is not a node yet. */
  function SetWeight(g: MGraph, n: int, w: Weight): (r: Result<MGraph>)
    ensures r.Ok? <==> n in g.nodes
    ensures r.Ok? ==> r.value == g.(nodes := g.nodes[n := Some(w)])
    ensures r.Err? ==> r.error == KeyError
  {
    if n in g.nodes then Ok(g.(nodes := g.nodes[n := Some(w)])) else Err(KeyError)
  }

  /** `G.add_nodes_from([n], weight=w)`: `n` added if new, its weight set either way. */
  function AddWeighted(g: MGraph, n: int, w: Weight): MGraph {
    g.(nodes := g.nodes[n := Some(w)])
  }

  /** `[(n, int(v) - 1, {'weight': 1.0}) for v in tokens]`: each token a 1-based neighbour. */
  function UnitEdges(n: int, toks: seq<string>): (r: Result<seq<Edge>>)
    ensures r.Ok? ==> |r.value| == |toks|
    ensures r.Ok? ==> forall i :: 0 <= i < |toks| ==>
      && r.value[i].u == n && ParseInt(toks[i]) == Some(r.value[i].v + 1) && r.value[i].w == One
    ensures r.Err? ==> r.error == ValueError
  {
    if toks == [] then Ok([])
    else
      var init := toks[..|toks| - 1];
      assert forall i :: 0 <= i < |init| ==> init[i] == toks[i];
      match UnitEdges(n, init)
      case Err(x) => Err(x)
      case Ok(es) =>
        match Int(toks[|toks| - 1])
        case Err(x) => Err(x)
        case Ok(v) => Ok(es + [Edge(n, v - 1, One)])
  }

  /** `list(zip(*[iter(tokens)] * 2))`: consecutive tokens paired up, an odd last token dropped. */
  function PairUp(toks: seq<string>): (r: seq<(string, string)>)
    ensures |r| == |toks| / 2
    ensures forall i :: 0 <= i < |r| ==> r[i] == (toks[2 * i], toks[2 * i + 1])
  {
    seq(|toks| / 2, i requires 0 <= i < |toks| / 2 => (toks[2 * i], toks[2 * i + 1]))
  }

  /** `[(n, int(v[0]) - 1, {'weight': int(v[1])}) for v in pairs]`: each pair a 1-based neighbour and a weight. */
  function WeightedEdges(n: int, pairs: seq<(string, string)>): (r: Result<seq<Edge>>)
    ensures r.Ok? ==> |r.value| == |pairs|
    ensures r.Ok? ==> forall i :: 0 <= i < |pairs| ==>
      && r.value[i].u == n && ParseInt(pairs[i].0) == Some(r.value[i].v + 1)
      && r.value[i].w.W? && ParseInt(pairs[i].1) == Some(r.value[i].w.w)
    ensures r.Err? ==> r.error == ValueError
  {
    if pairs == [] then Ok([])
    else
      var init := pairs[..|pairs| - 1];
      var (v, w) := pairs[|pairs| - 1];
      assert forall i :: 0 <= i < |init| ==> init[i] == pairs[i];
      match WeightedEdges(n, init)
      case Err(x) => Err(x)
      case Ok(es) =>
        match Int(v)
        case Err(x) => Err(x)
        case Ok(a) =>
          match Int(w)
          case Err(x) => Err(x)
          case Ok(b) => Ok(es + [Edge(n, a - 1, W(b))])
  }

  /** The unweighted neighbour list is read exactly when every token is an integer. */
  lemma {:induction false} UnitEdgesOk(n: int, toks: seq<string>)
    ensures UnitEdges(n, toks).Ok? <==> forall i :: 0 <= i < |toks| ==> ParseInt(toks[i]).Some?
  {
    if toks != [] {
      var init := toks[..|toks| - 1];
      UnitEdgesOk(n, init);
      if UnitEdges(n, init).Err? {
        var i :| 0 <= i < |init| && ParseInt(init[i]).None?;
        assert toks[i] == init[i];
      } else if ParseInt(toks[|toks| - 1]).Some? {
        forall i | 0 <= i < |toks| ensures ParseInt(toks[i]).Some? {
          if i < |init| {
            assert toks[i] == init[i];
          }
        }
      }
    }
  }

  /** The weighted neighbour list is read exactly when both tokens of every pair are integers. */
  lemma {:induction false} WeightedEdgesOk(n: int, pairs: seq<(string, string)>)
    ensures WeightedEdges(n, pairs).Ok? <==> forall i :: 0 <= i < |pairs| ==> ParseInt(pairs[i].0).Some? && ParseInt(pairs[i].1).Some?
  {
    if pairs != [] {
      var init := pairs[..|pairs| - 1];
      WeightedEdgesOk(n, init);
      if WeightedEdges(n, init).Err? {
        var i :| 0 <= i < |init| && !(ParseInt(init[i].0).Some? && ParseInt(init[i].1).Some?);
        assert pairs[i] == init[i];
      } else if ParseInt(pairs[|pairs| - 1].0).Some? && ParseInt(pairs[|pairs| - 1].1).Some? {
        forall i | 0 <= i < |pairs| ensures ParseInt(pairs[i].0).Some? && ParseInt(pairs[i].1).Some? {
          if i < |init| {
            assert pairs[i] == init[i];
          }
        }
      }
    }
  }

  /** The header line: vertex and edge counts, which weights the file has, and NCON when given. */
  datatype Header = Header(nodes: int, edges: int, edgeWeights: bool, nodeWeights: bool, ncon: Option<int>)

  /**
   * The tokens of the header line read as `read_metis` reads them: a
   * missing count raises IndexError, a non-integer ValueError, and an FMT
   * other than 0, 1, 10 or 11 fails the `assert`.
   */
  function ParseHeader(toks: seq<string>): (r: Result<Header>)
  {
    if |toks| == 0 then Err(IndexError)
    else if ParseInt(toks[0]).None? then Err(ValueError)
    else if |toks| == 1 then Err(IndexError)
    else if ParseInt(toks[1]).None? then Err(ValueError)
    else
      var fmt := if |toks| > 2 then ParseInt(toks[2]) else Some(0);
      if fmt.None? then Err(ValueError)
      else if fmt.value != 0 && fmt.value != 1 && fmt.value != 10 && fmt.value != 11 then Err(AssertionError)
      else if |toks| > 3 && ParseInt(toks[3]).None? then Err(ValueError)
      else
        Ok(Header(ParseInt(toks[0]).value, ParseInt(toks[1]).value, fmt.value == 1 || fmt.value == 11,
                  fmt.value == 10 || fmt.value == 11, if |toks| > 3 then Some(ParseInt(toks[3]).value) else None))
  }

  /**
   * The header's meaning: the counts are its first two integers, FMT's
   * last digit says edge weights and its tens digit node weights, FMT may
   * be left out (no weights), and any other FMT is refused.
   */
  lemma HeaderFormats(toks: seq<string>)
    requires |toks| >= 2 && forall i :: 0 <= i < |toks| ==> ParseInt(toks[i]).Some?
    ensures var fmt := if |toks| > 2 then ParseInt(toks[2]).value else 0;
      && (ParseHeader(toks).Ok? <==> fmt in {0, 1, 10, 11})
      && (ParseHeader(toks).Err? ==> ParseHeader(toks).error == AssertionError)
      && (ParseHeader(toks).Ok? ==>
            var h := ParseHeader(toks).value;
            && h.nodes == ParseInt(toks[0]).value && h.edges == ParseInt(toks[1]).value
            && (h.edgeWeights <==> fmt % 10 == 1) && (h.nodeWeights <==> fmt / 10 == 1)
            && (h.ncon.Some? <==> |toks| > 3))
  {
  }

  /** The reader's variables between lines: `n`, the parsed header, `n_vertex_weights` and the graph. */
  datatype Reader = Reader(n: int, header: Option<Header>, nvw: int, g: MGraph)

  /** `int(node_weights[0])`: the first vertex weight. */
  function FirstWeight(nw: seq<string>): (r: Result<int>)
    ensures r.Ok? <==> nw != [] && ParseInt(nw[0]).Some?
    ensures r.Ok? ==> r.value == ParseInt(nw[0]).value
  {
    if nw == [] then Err(IndexError) else Int(nw[0])
  }

  /**
   * The vertex `st.n` after its edges `es` were added: `G.node[n]['weight'] = w`,
   * which raises KeyError when no edge brought `n` into the graph.
   */
  function AddVertex(st: Reader, es: seq<Edge>, w: Weight, nvw: int): (r: Result<Reader>)
    ensures r.Ok? <==> st.n in AddEdges(st.g, es).nodes
    ensures r.Err? ==> r.error == KeyError
    ensures r.Ok? ==> r.value == Reader(st.n + 1, st.header, nvw, AddWeighted(AddEdges(st.g, es), st.n, w))
  {
    match SetWeight(AddEdges(st.g, es), st.n, w)
    case Err(x) => Err(x)
    case Ok(g) => Ok(Reader(st.n + 1, st.header, nvw, g))
  }

  /**
   * A vertex line that is not blank, split into tokens `e`, for the weights
   * `h` announces: with vertex weights the first `nvw` tokens are weights
   * (the first one is kept), the rest neighbours; with edge weights the
   * neighbours come in (neighbour, weight) pairs.
   */
  function VertexLine(st: Reader, h: Header, e: seq<string>): (r: Result<Reader>)
    requires e != []
    ensures r.Ok? ==> r.value.n == st.n + 1 && r.value.header == st.header
    ensures r.Ok? ==> st.n in r.value.g.nodes
    ensures r.Ok? && h.nodeWeights ==> ParseInt(e[0]).Some? && r.value.g.nodes[st.n] == Some(W(ParseInt(e[0]).value))
    ensures r.Ok? && !h.nodeWeights ==> r.value.g.nodes[st.n] == Some(One)
    ensures r.Ok? ==> forall x :: x in st.g.nodes && x != st.n ==> x in r.value.g.nodes && r.value.g.nodes[x] == st.g.nodes[x]
    ensures r.Ok? ==> st.g.edges.Keys <= r.value.g.edges.Keys
  {
    var n := st.n;
    if h.edgeWeights && h.nodeWeights then
      var nw := PyTake(e, st.nvw);
      if |e| > st.nvw then
        match WeightedEdges(n, PairUp(PyDrop(e, st.nvw)))
        case Err(x) => Err(x)
        case Ok(es) =>
          match FirstWeight(nw)
          case Err(x) => Err(x)
          case Ok(w) => AddVertex(st, es, W(w), st.nvw)
      else
        match FirstWeight(nw)
        case Err(x) => Err(x)
        case Ok(w) => Ok(Reader(n + 1, st.header, st.nvw, AddWeighted(st.g, n, W(w))))
    else if h.edgeWeights then
      match WeightedEdges(n, PairUp(e))
      case Err(x) => Err(x)
      case Ok(es) => AddVertex(st, es, One, 0)
    else if h.nodeWeights then
      var nw := PyTake(e, st.nvw);
      if |e| > st.nvw then
        match UnitEdges(n, PyDrop(e, st.nvw))
        case Err(x) => Err(x)
        case Ok(es) =>
          match FirstWeight(nw)
          case Err(x) => Err(x)
          case Ok(w) => AddVertex(st, es, W(w), st.nvw)
      else
        match FirstWeight(nw)
        case Err(x) => Err(x)
        case Ok(w) => Ok(Reader(n + 1, st.header, st.nvw, AddWeighted(st.g, n, W(w))))
    else
      match UnitEdges(n, e)
      case Err(x) => Err(x)
      case Ok(es) => AddVertex(st, es, One, st.nvw)
  }

  // ------------------------------------------------------- the edges of a line

  /** The keys of the edges in `es`. */
  ghost function EdgeKeys(es: seq<Edge>): set<(int, int)> {
    set i | 0 <= i < |es| :: EdgeKey(es[i].u, es[i].v)
  }

  lemma EdgeKeysSnoc(es: seq<Edge>, e: Edge)
    ensures EdgeKeys(es + [e]) == EdgeKeys(es) + {EdgeKey(e.u, e.v)}
  {
    var s := es + [e];
    forall k | k in EdgeKeys(s) ensures k in EdgeKeys(es) + {EdgeKey(e.u, e.v)} {
      var i :| 0 <= i < |s| && k == EdgeKey(s[i].u, s[i].v);
      if i < |es| {
        assert s[i] == es[i];
      }
    }
    forall k | k in EdgeKeys(es) ensures k in EdgeKeys(s) {
      var i :| 0 <= i < |es| && k == EdgeKey(es[i].u, es[i].v);
      assert s[i] == es[i];
    }
    assert s[|es|] == e;
  }

  /** An edge is the last of `es` with its key. */
  ghost predicate LastWithKey(es: seq<Edge>, i: int)
    requires 0 <= i < |es|
  {
    forall j :: i < j < |es| ==> EdgeKey(es[j].u, es[j].v) != EdgeKey(es[i].u, es[i].v)
  }

  /** The last edge of the list sets its key's weight. */
  lemma AddEdgesSnoc(g: MGraph, es: seq<Edge>, e: Edge)
    ensures AddEdges(g, es + [e]).edges == AddEdges(g, es).edges[EdgeKey(e.u, e.v) := e.w]
  {
    assert (es + [e])[..|es|] == es;
  }

  /** `add_edges_from` adds exactly the keys of the listed edges. */
  lemma {:induction false} AddEdgesKeys(g: MGraph, es: seq<Edge>)
    ensures AddEdges(g, es).edges.Keys == g.edges.Keys + EdgeKeys(es)
  {
    if es != [] {
      var init, last := es[..|es| - 1], es[|es| - 1];
      AddEdgesKeys(g, init);
      assert es == init + [last];
      EdgeKeysSnoc(init, last);
      AddEdgesSnoc(g, init, last);
    }
  }

  /** Edges whose key is not listed keep their weight. */
  lemma {:induction false} AddEdgesKept(g: MGraph, es: seq<Edge>, k: (int, int))
    requires k in g.edges && k !in EdgeKeys(es)
    ensures k in AddEdges(g, es).edges && AddEdges(g, es).edges[k] == g.edges[k]
  {
    if es != [] {
      var init, last := es[..|es| - 1], es[|es| - 1];
      assert es == init + [last];
      EdgeKeysSnoc(init, last);
      AddEdgesKept(g, init, k);
      AddEdgesSnoc(g, init, last);
    }
  }

  /** A key listed more than once takes the weight of its last listing. */
  lemma {:induction false} AddEdgesLast(g: MGraph, es: seq<Edge>, i: nat)
    requires i < |es| && LastWithKey(es, i)
    ensures EdgeKey(es[i].u, es[i].v) in AddEdges(g, es).edges
    ensures AddEdges(g, es).edges[EdgeKey(es[i].u, es[i].v)] == es[i].w
  {
    var init, last := es[..|es| - 1], es[|es| - 1];
    assert es == init + [last];
    AddEdgesSnoc(g, init, last);
    if i < |init| {
      assert EdgeKey(es[|es| - 1].u, es[|es| - 1].v) != EdgeKey(es[i].u, es[i].v);
      assert es[i] == init[i];
      assert LastWithKey(init, i) by {
        forall j | i < j < |init| ensures EdgeKey(init[j].u, init[j].v) != EdgeKey(init[i].u, init[i].v) {
          assert init[j] == es[j];
        }
      }
      AddEdgesLast(g, init, i);
    }
  }

  /** Edges that all carry the same weight leave it on every key they list. */
  lemma {:induction false} AddEdgesUniform(g: MGraph, es: seq<Edge>, w: Weight)
    requires forall i :: 0 <= i < |es| ==> es[i].w == w
    ensures forall i :: 0 <= i < |es| ==> AddEdges(g, es).edges[EdgeKey(es[i].u, es[i].v)] == w
  {
    if es != [] {
      var init, last := es[..|es| - 1], es[|es| - 1];
      AddEdgesUniform(g, init, w);
      assert es == init + [last];
      AddEdgesSnoc(g, init, last);
      forall i | 0 <= i < |es| ensures AddEdges(g, es).edges[EdgeKey(es[i].u, es[i].v)] == w {
        if i < |init| {
          assert es[i] == init[i];
        }
      }
    }
  }

  /** The edge key of vertex `n` and the 1-based neighbour token `t`. */
  function NeighbourKey(n: int, t: string): (int, int)
    requires ParseInt(t).Some?
  {
    EdgeKey(n, ParseInt(t).value - 1)
  }

  /** The edge keys named by the neighbour tokens `ns` of vertex `n`. */
  ghost function NeighbourKeySet(n: int, ns: seq<string>): set<(int, int)> {
    set i | 0 <= i < |ns| && ParseInt(ns[i]).Some? :: NeighbourKey(n, ns[i])
  }

  /**
   * `g` is `g0` with one more edge key per neighbour token (vertex `n` to
   * the token's value minus one) and every other edge as it was.
   */
  ghost predicate NeighbourKeys(g0: MGraph, g: MGraph, n: int, ns: seq<string>) {
    && (forall i :: 0 <= i < |ns| ==> ParseInt(ns[i]).Some?)
    && g.edges.Keys == g0.edges.Keys + NeighbourKeySet(n, ns)
    && (forall k :: k in g0.edges && (forall i :: 0 <= i < |ns| ==> k != NeighbourKey(n, ns[i])) ==> g.edges[k] == g0.edges[k])
  }

  /** Unweighted neighbours: the keys of `NeighbourKeys`, each with weight `1.0`. */
  ghost predicate UnitNeighbours(g0: MGraph, g: MGraph, n: int, ns: seq<string>) {
    && NeighbourKeys(g0, g, n, ns)
    && (forall i :: 0 <= i < |ns| ==> g.edges[NeighbourKey(n, ns[i])] == One)
  }

  /** The first token of each (neighbour, weight) pair. */
  function Firsts(pairs: seq<(string, string)>): (r: seq<string>)
    ensures |r| == |pairs|
    ensures forall i :: 0 <= i < |pairs| ==> r[i] == pairs[i].0
  {
    seq(|pairs|, i requires 0 <= i < |pairs| => pairs[i].0)
  }

  /**
   * Weighted neighbours: the keys of `NeighbourKeys` for the first tokens,
   * each with the weight of the last pair naming that neighbour.
   */
  ghost predicate WeightedNeighbours(g0: MGraph, g: MGraph, n: int, pairs: seq<(string, string)>) {
    && (forall i :: 0 <= i < |pairs| ==> ParseInt(pairs[i].0).Some? && ParseInt(pairs[i].1).Some?)
    && NeighbourKeys(g0, g, n, Firsts(pairs))
    && (forall i :: 0 <= i < |pairs| && (forall j :: i < j < |pairs| ==> ParseInt(pairs[j].0) != ParseInt(pairs[i].0)) ==>
          g.edges[NeighbourKey(n, pairs[i].0)] == W(ParseInt(pairs[i].1).value))
  }

  /** Two different neighbours of one vertex give two different keys. */
  lemma EdgeKeyInjective(n: int, a: int, b: int)
    requires a != b
    ensures EdgeKey(n, a) != EdgeKey(n, b)
  {
  }

  /** An edge list built from neighbour tokens lists the keys those tokens name. */
  lemma TokenKeySet(n: int, ns: seq<string>, es: seq<Edge>)
    requires |es| == |ns|
    requires forall i :: 0 <= i < |ns| ==> es[i].u == n && ParseInt(ns[i]) == Some(es[i].v + 1)
    ensures EdgeKeys(es) == NeighbourKeySet(n, ns)
  {
    var keys := NeighbourKeySet(n, ns);
    forall k | k in EdgeKeys(es) ensures k in keys {
      var i :| 0 <= i < |es| && k == EdgeKey(es[i].u, es[i].v);
      assert k == NeighbourKey(n, ns[i]);
    }
    forall k | k in keys ensures k in EdgeKeys(es) {
      var i :| 0 <= i < |ns| && ParseInt(ns[i]).Some? && k == NeighbourKey(n, ns[i]);
      assert k == EdgeKey(es[i].u, es[i].v);
    }
  }

  /** The keys of a line's edge list are the keys of its neighbour tokens. */
  lemma TokenKeys(g0: MGraph, n: int, ns: seq<string>, es: seq<Edge>)
    requires |es| == |ns|
    requires forall i :: 0 <= i < |ns| ==> es[i].u == n && ParseInt(ns[i]) == Some(es[i].v + 1)
    ensures forall i :: 0 <= i < |ns| ==> ParseInt(ns[i]).Some? && EdgeKey(es[i].u, es[i].v) == NeighbourKey(n, ns[i])
    ensures NeighbourKeys(g0, AddEdges(g0, es), n, ns)
  {
    AddEdgesKeys(g0, es);
    TokenKeySet(n, ns, es);
    forall k | k in g0.edges && (forall i :: 0 <= i < |ns| ==> k != NeighbourKey(n, ns[i]))
      ensures AddEdges(g0, es).edges[k] == g0.edges[k]
    {
      AddEdgesKept(g0, es, k);
    }
  }

  /** An unweighted line adds exactly its neighbours' edges, each with weight `1.0`. */
  lemma UnitLine(g0: MGraph, n: int, toks: seq<string>)
    requires UnitEdges(n, toks).Ok?
    ensures UnitNeighbours(g0, AddEdges(g0, UnitEdges(n, toks).value), n, toks)
  {
    var es := UnitEdges(n, toks).value;
    TokenKeys(g0, n, toks, es);
    AddEdgesUniform(g0, es, One);
  }

  /** A weighted line adds exactly its neighbours' edges, each with the weight of its last pair. */
  lemma WeightedLine(g0: MGraph, n: int, pairs: seq<(string, string)>)
    requires WeightedEdges(n, pairs).Ok?
    ensures WeightedNeighbours(g0, AddEdges(g0, WeightedEdges(n, pairs).value), n, pairs)
  {
    var es := WeightedEdges(n, pairs).value;
    TokenKeys(g0, n, Firsts(pairs), es);
    forall i | 0 <= i < |pairs| && (forall j :: i < j < |pairs| ==> ParseInt(pairs[j].0) != ParseInt(pairs[i].0))
      ensures AddEdges(g0, es).edges[NeighbourKey(n, pairs[i].0)] == W(ParseInt(pairs[i].1).value)
    {
      WeightedLast(g0, n, pairs, i);
    }
  }

  /** The last pair naming a neighbour sets that edge's weight. */
  lemma WeightedLast(g0: MGraph, n: int, pairs: seq<(string, string)>, i: nat)
    requires WeightedEdges(n, pairs).Ok? && i < |pairs|
    requires forall j :: i < j < |pairs| ==> ParseInt(pairs[j].0) != ParseInt(pairs[i].0)
    ensures ParseInt(pairs[i].0).Some? && ParseInt(pairs[i].1).Some?
    ensures AddEdges(g0, WeightedEdges(n, pairs).value).edges[NeighbourKey(n, pairs[i].0)] == W(ParseInt(pairs[i].1).value)
  {
    var es := WeightedEdges(n, pairs).value;
    assert ParseInt(pairs[i].0) == Some(es[i].v + 1) && ParseInt(pairs[i].1) == Some(es[i].w.w);
    forall j | i < j < |es| ensures es[j].v != es[i].v {
      assert ParseInt(pairs[j].0) == Some(es[j].v + 1);
    }
    LastOfDistinct(n, es, i);
    AddEdgesLast(g0, es, i);
    assert NeighbourKey(n, pairs[i].0) == EdgeKey(es[i].u, es[i].v);
  }

  /** Among edges from one vertex, an edge whose neighbour is not listed again is the last with its key. */
  lemma LastOfDistinct(n: int, es: seq<Edge>, i: nat)
    requires i < |es| && forall k :: 0 <= k < |es| ==> es[k].u == n
    requires forall j :: i < j < |es| ==> es[j].v != es[i].v
    ensures LastWithKey(es, i)
  {
    forall j | i < j < |es| ensures EdgeKey(es[j].u, es[j].v) != EdgeKey(es[i].u, es[i].v) {
      EdgeKeyInjective(n, es[j].v, es[i].v);
    }
  }

  /** The tokens of a vertex line left for neighbours once the vertex weights are taken off. */
  function NeighbourPart(h: Header, nvw: int, e: seq<string>): seq<string> {
    if h.nodeWeights then PyDrop(e, nvw) else e
  }

  /**
   * Data line `n` adds exactly the edges its neighbour tokens name: from
   * `n` to each token's value minus one, read after the vertex weights,
   * in (neighbour, weight) pairs when edges are weighted and with weight
   * `1.0` otherwise; no other edge changes.
   */
  lemma VertexEdges(st: Reader, h: Header, e: seq<string>)
    requires e != [] && VertexLine(st, h, e).Ok?
    ensures var g, rest := VertexLine(st, h, e).value.g, NeighbourPart(h, st.nvw, e);
      if h.edgeWeights then WeightedNeighbours(st.g, g, st.n, PairUp(rest))
      else UnitNeighbours(st.g, g, st.n, rest)
  {
    var g, rest, n := VertexLine(st, h, e).value.g, NeighbourPart(h, st.nvw, e), st.n;
    if h.nodeWeights && |e| <= st.nvw {
      assert rest == [] && g.edges == st.g.edges;
      assert PairUp(rest) == [];
    } else if h.edgeWeights {
      var es := WeightedEdges(n, PairUp(rest)).value;
      assert g.edges == AddEdges(st.g, es).edges;
      WeightedLine(st.g, n, PairUp(rest));
    } else {
      var es := UnitEdges(n, rest).value;
      assert g.edges == AddEdges(st.g, es).edges;
      UnitLine(st.g, n, rest);
    }
  }

  /**
   * One line of the file: `line[0]` raises IndexError on an empty line, a
   * `%` line is a comment, the first other line is the header, and every
   * later line is the next vertex (a blank one an isolated vertex of weight 1.0).
   */
  function ReadLine(st: Reader, line: string): (r: Result<Reader>)
    ensures line == [] ==> r == Err(IndexError)
    ensures IsComment(line) ==> r == Ok(st)
    ensures r.Ok? && !IsComment(line) && st.header.None? ==>
      r.value.header.Some? && r.value.n == st.n && r.value.g == st.g
    ensures r.Ok? && !IsComment(line) && st.header.Some? ==>
      && r.value.n == st.n + 1 && r.value.header == st.header
      && st.n in r.value.g.nodes && r.value.g.nodes[st.n].Some?
      && forall x :: x in st.g.nodes && x != st.n ==> x in r.value.g.nodes && r.value.g.nodes[x] == st.g.nodes[x]
    ensures line != [] && !IsComment(line) && st.header.Some? && Blank(line) ==>
      r.Ok? && r.value.g.nodes[st.n] == Some(One) && r.value.g.edges == st.g.edges
  {
    if line == [] then Err(IndexError)
    else if line[0] == '%' then Ok(st)
    else if st.header.None? then
      match ParseHeader(Split(line))
      case Err(x) => Err(x)
      case Ok(h) => Ok(st.(header := Some(h), nvw := if h.ncon.Some? then h.ncon.value else st.nvw))
    else if Blank(line) then Ok(Reader(st.n + 1, st.header, st.nvw, AddWeighted(st.g, st.n, One)))
    else
      SplitEmptyIffBlank(line);
      VertexLine(st, st.header.value, Split(line))
  }

  /** A line starting with `%`. */
  predicate IsComment(line: string) {
    line != [] && line[0] == '%'
  }

  /** The lines that are not comments, in order. */
  function DropComments(lines: seq<string>): (r: seq<string>)
    ensures |r| <= |lines|
    ensures forall k :: 0 <= k < |r| ==> !IsComment(r[k])
  {
    if lines == [] then []
    else DropComments(lines[..|lines| - 1]) + (if IsComment(lines[|lines| - 1]) then [] else [lines[|lines| - 1]])
  }

  const Start := Reader(0, None, 1, MGraph(map[], map[]))

  /** The reader's variables after the given lines, or the exception one of them raised. */
  function ReadLines(lines: seq<string>): Result<Reader> {
    if lines == [] then Ok(Start)
    else
      match ReadLines(lines[..|lines| - 1])
      case Err(x) => Err(x)
      case Ok(st) => ReadLine(st, lines[|lines| - 1])
  }

  /**
   * What `read_metis` returns: the graph, provided a header was read
   * (otherwise `m_nodes` is unbound) and the graph's node and edge counts
   * are the header's.
   */
  function ReadMetisSpec(lines: seq<string>): (r: Result<MGraph>)
    ensures r.Ok? ==> ReadLines(lines).Ok? && ReadLines(lines).value.header.Some?
    ensures r.Ok? ==> var h := ReadLines(lines).value.header.value;
      |r.value.nodes| == h.nodes && |r.value.edges| == h.edges
    ensures ReadLines(lines).Ok? && ReadLines(lines).value.header.Some? ==>
      var st := ReadLines(lines).value;
      var h := st.header.value;
      (r.Ok? <==> |st.g.nodes| == h.nodes && |st.g.edges| == h.edges) &&
      (r.Ok? ==> r.value == st.g) &&
      (r.Err? ==> r.error == AssertionError)
    ensures ReadLines(lines).Ok? && ReadLines(lines).value.header.None? ==> r == Err(UnboundLocalError)
    ensures ReadLines(lines).Err? ==> r == Err(ReadLines(lines).error)
  {
    match ReadLines(lines)
    case Err(x) => Err(x)
    case Ok(st) =>
      if st.header.None? then Err(UnboundLocalError)
      else if st.header.value.nodes != |st.g.nodes| then Err(AssertionError)
      else if st.header.value.edges != |st.g.edges| then Err(AssertionError)
      else Ok(st.g)
  }

  /** `read_metis(file)` over the lines of the file. */
  method ReadMetis(lines: seq<string>) returns (r: Result<MGraph>)
    ensures r == ReadMetisSpec(lines)
  {
    var n := 0;
    var header: Option<Header> := None;
    var nVertexWeights := 1;
    var g := MGraph(map[], map[]);
    for i := 0 to |lines|
      invariant ReadLines(lines[..i]) == Ok(Reader(n, header, nVertexWeights, g))
    {
      assert lines[..i + 1][..i] == lines[..i];
      var next := ReadMetisLine(Reader(n, header, nVertexWeights, g), lines[i]);
      if next.Err? {
        ErrKept(lines, i + 1);
        return Err(next.error);
      }
      n, header, nVertexWeights, g := next.value.n, next.value.header, next.value.nvw, next.value.g;
    }
    assert lines[..|lines|] == lines;
    if header.None? {
      return Err(UnboundLocalError);
    }
    if header.value.nodes != |g.nodes| {
      return Err(AssertionError);
    }
    if header.value.edges != |g.edges| {
      return Err(AssertionError);
    }
    r := Ok(g);
  }

  /** The body of the line loop of `read_metis`, for one line. */
  method ReadMetisLine(st: Reader, line: string) returns (r: Result<Reader>)
    ensures r == ReadLine(st, line)
  {
    if line == [] {
      return Err(IndexError);
    }
    r := Ok(st);
    if line[0] != '%' {
      if st.header.None? {
        var h := ParseHeader(Split(line));
        if h.Err? {
          return Err(h.error);
        }
        r := Ok(st.(header := Some(h.value), nvw := if h.value.ncon.Some? then h.value.ncon.value else st.nvw));
      } else if Blank(line) {
        r := Ok(Reader(st.n + 1, st.header, st.nvw, AddWeighted(st.g, st.n, One)));
      } else {
        SplitEmptyIffBlank(line);
        r := VertexLine(st, st.header.value, Split(line));
      }
    }
  }

  /** Comment lines may be removed anywhere without changing what is read. */
  lemma {:induction false} CommentsIgnored(lines: seq<string>)
    ensures ReadLines(lines) == ReadLines(DropComments(lines))
  {
    if lines != [] {
      var init := lines[..|lines| - 1];
      var last := lines[|lines| - 1];
      CommentsIgnored(init);
      if IsComment(last) {
        assert DropComments(lines) == DropComments(init);
      } else {
        var kept := DropComments(lines);
        assert kept == DropComments(init) + [last];
        assert kept[..|kept| - 1] == DropComments(init);
      }
    }
  }

  /** Every vertex read so far is a node of the graph with its `weight` set. */
  ghost predicate Weighted(st: Reader) {
    forall v :: 0 <= v < st.n ==> v in st.g.nodes && st.g.nodes[v].Some?
  }

  /**
   * After any lines read without an exception: the first line that is not
   * a comment was the header, every later one was a vertex (so `n` counts
   * them), and vertices `0 .. n-1` are nodes with a weight.
   */
  lemma VerticesRead(lines: seq<string>)
    requires ReadLines(lines).Ok?
    ensures var st := ReadLines(lines).value;
      && (st.header.None? <==> DropComments(lines) == [])
      && st.n == (if st.header.None? then 0 else |DropComments(lines)| - 1)
      && Weighted(st)
  {
    HeaderThenVertices(lines);
    VerticesWeighted(lines);
  }

  lemma {:induction false} HeaderThenVertices(lines: seq<string>)
    requires ReadLines(lines).Ok?
    ensures var st := ReadLines(lines).value;
      && (st.header.None? <==> DropComments(lines) == [])
      && st.n == (if st.header.None? then 0 else |DropComments(lines)| - 1)
  {
    if lines != [] {
      var init, last := lines[..|lines| - 1], lines[|lines| - 1];
      HeaderThenVertices(init);
      assert ReadLine(ReadLines(init).value, last) == ReadLines(lines);
      assert DropComments(lines) == DropComments(init) + (if IsComment(last) then [] else [last]);
    }
  }

  lemma {:induction false} VerticesWeighted(lines: seq<string>)
    requires ReadLines(lines).Ok?
    ensures Weighted(ReadLines(lines).value)
  {
    if lines != [] {
      var init, last := lines[..|lines| - 1], lines[|lines| - 1];
      VerticesWeighted(init);
      assert ReadLine(ReadLines(init).value, last) == ReadLines(lines);
      WeightedStep(ReadLines(init).value, last);
    }
  }

  lemma WeightedStep(st: Reader, line: string)
    requires Weighted(st) && ReadLine(st, line).Ok?
    ensures Weighted(ReadLine(st, line).value)
  {
    var next := ReadLine(st, line).value;
    if !IsComment(line) && st.header.Some? {
      forall v | 0 <= v < next.n ensures v in next.g.nodes && next.g.nodes[v].Some? {
        if v < st.n {
          assert v in st.g.nodes;
        }
      }
    }
  }

  /** An exception raised by a line ends the read: no later line is looked at. */
  lemma ErrKept(lines: seq<string>, i: nat)
    requires i <= |lines| && ReadLines(lines[..i]).Err?
    ensures ReadLines(lines).Err? && ReadLines(lines).error == ReadLines(lines[..i]).error
    decreases |lines| - i
  {
    if i < |lines| {
      assert lines[..i + 1][..i] == lines[..i];
      ErrKept(lines, i + 1);
    } else {
      assert lines[..i] == lines;
    }
  }
}
