/**
 * graph.py: the graphs the pipeline passes around, the split of the full
 * graph into one sub-graph per partition, and the reading of one node
 * attribute out of a dot file.
 */
module Graphs {
  import opened Wrappers
  import opened PyStr
  import opened ODicts
  import opened Utils

  /** A node: its id, its place in the global order, its partition, and its other attributes. */
  datatype Node = Node(id: int, order: int, partition: int, attrs: map<string, string>)

  function Ids(ns: seq<Node>): (r: seq<int>)
    ensures |r| == |ns| && forall i :: 0 <= i < |ns| ==> r[i] == ns[i].id
  {
    seq(|ns|, i requires 0 <= i < |ns| => ns[i].id)
  }

  /**
   * An undirected graph: its nodes in iteration order, and for each node
   * its neighbours in iteration order (`graph.edges(v)` yields `(v, u)` for
   * each neighbour `u`).
   */
  datatype Graph = Graph(nodes: seq<Node>, adj: map<int, seq<int>>) {
    ghost predicate Valid() {
      && Distinct(Ids(nodes))
      && (forall v :: v in adj <==> v in Ids(nodes))
      && Symmetric(adj)
      && (forall v :: v in adj ==> Distinct(adj[v]))
    }
  }

  /** Every edge is listed from both of its ends. */
  ghost predicate Symmetric(adj: map<int, seq<int>>) {
    forall v, u :: v in adj && u in adj[v] ==> u in adj && v in adj[u]
  }

  /** The elements of `s` that lie in `keep`, in order. */
  function Within(s: seq<int>, keep: set<int>): (r: seq<int>)
    ensures forall x :: x in r <==> x in s && x in keep
    ensures Distinct(s) ==> Distinct(r)
  {
    if s == [] then []
    else
      var rest := Within(s[1..], keep);
      assert forall x :: x in s[1..] ==> x in s;
      if s[0] in keep then [s[0]] + rest else rest
  }

  function NodesWithin(ns: seq<Node>, keep: set<int>): (r: seq<Node>)
    ensures forall n :: n in r <==> n in ns && n.id in keep
    ensures Ids(r) == Within(Ids(ns), keep)
  {
    if ns == [] then []
    else
      var rest := NodesWithin(ns[1..], keep);
      assert forall n :: n in ns[1..] ==> n in ns;
      IdsCons(ns[0], ns[1..]);
      assert [ns[0]] + ns[1..] == ns;
      if ns[0].id in keep then
        IdsCons(ns[0], rest);
        [ns[0]] + rest
      else rest
  }

  lemma IdsCons(n: Node, ns: seq<Node>)
    ensures Ids([n] + ns) == [n.id] + Ids(ns)
  {
  }

  /**
   * `graph.subgraph(ids)`: the nodes of `g` whose id is in `ids` (ids that
   * are not nodes of `g` are ignored) and the edges between them.
   */
  function Subgraph(g: Graph, ids: set<int>): (r: Graph)
    ensures forall v :: v in Ids(r.nodes) <==> v in Ids(g.nodes) && v in ids
    ensures forall n :: n in r.nodes <==> n in g.nodes && n.id in ids
    ensures forall v, u :: v in r.adj && u in r.adj[v] <==> v in g.adj && u in g.adj[v] && v in ids && u in ids
  {
    Graph(NodesWithin(g.nodes, ids), map v | v in g.adj && v in ids :: Within(g.adj[v], ids))
  }

  /** A sub-graph of a well-formed graph is well-formed. */
  lemma SubgraphValid(g: Graph, ids: set<int>)
    requires g.Valid()
    ensures Subgraph(g, ids).Valid()
  {
    var adj := map v | v in g.adj && v in ids :: Within(g.adj[v], ids);
    assert Subgraph(g, ids).adj == adj;
    forall v | v in adj ensures Distinct(adj[v]) {
      assert adj[v] == Within(g.adj[v], ids);
    }
    WithinSymmetric(g.adj, ids);
  }

  lemma WithinSymmetric(adj: map<int, seq<int>>, ids: set<int>)
    requires Symmetric(adj)
    ensures Symmetric(map v | v in adj && v in ids :: Within(adj[v], ids))
  {
    var r := map v | v in adj && v in ids :: Within(adj[v], ids);
    forall v, u | v in r && u in r[v] ensures u in r && v in r[u] {
      assert u in adj[v] && u in ids;
      assert v in adj[u];
    }
  }

  /** `[i + 1 for i, p in enumerate(assignments) if p == partition]`, as a set of 1-based node ids. */
  function PartitionIds(assignments: seq<int>, partition: int): (r: set<int>)
    ensures forall v :: v in r <==> 1 <= v <= |assignments| && assignments[v - 1] == partition
  {
    set i | 0 <= i < |assignments| && assignments[i] == partition :: i + 1
  }

  /** `create_sub_graphs(graph, partitions, assignments)`: one sub-graph per listed partition, in order. */
  method CreateSubGraphs(g: Graph, partitions: seq<int>, assignments: seq<int>) returns (subs: seq<Graph>)
    requires g.Valid()
    ensures |subs| == |partitions|
    ensures forall k :: 0 <= k < |subs| ==> subs[k] == Subgraph(g, PartitionIds(assignments, partitions[k]))
  {
    subs := [];
    for k := 0 to |partitions|
      invariant |subs| == k
      invariant forall j :: 0 <= j < k ==> subs[j] == Subgraph(g, PartitionIds(assignments, partitions[j]))
    {
      var ids := set i | 0 <= i < |assignments| && assignments[i] == partitions[k] :: i + 1;
      subs := subs + [Subgraph(g, ids)];
    }
  }

  /**
   * Node `v` is in the sub-graph of the k-th listed partition exactly when
   * it is a node of the graph whose 1-based position in `assignments` holds
   * that partition; so nodes assigned a value that is not listed (such as
   * -1) are in no sub-graph.
   */
  lemma SubGraphMembership(g: Graph, partitions: seq<int>, assignments: seq<int>, subs: seq<Graph>, k: nat, v: int)
    requires k < |subs| == |partitions|
    requires subs[k] == Subgraph(g, PartitionIds(assignments, partitions[k]))
    ensures v in Ids(subs[k].nodes) <==> v in Ids(g.nodes) && 1 <= v <= |assignments| && assignments[v - 1] == partitions[k]
  {
    var ids := PartitionIds(assignments, partitions[k]);
    assert v in ids <==> 1 <= v <= |assignments| && assignments[v - 1] == partitions[k];
    assert v in Ids(subs[k].nodes) <==> v in Ids(g.nodes) && v in ids;
  }

  /** Sub-graphs of two different partitions never share a node. */
  lemma SubGraphsDisjoint(g: Graph, assignments: seq<int>, p: int, q: int, v: int)
    requires p != q
    ensures !(v in Ids(Subgraph(g, PartitionIds(assignments, p)).nodes) && v in Ids(Subgraph(g, PartitionIds(assignments, q)).nodes))
  {
  }

  // ------------------------------------------ get_node_attribute_from_dot_file

  /** A node statement of a dot file: its name as written, and the value of the wanted attribute, if set. */
  datatype DotNode = DotNode(name: string, attr: Option<string>)

  /**
   * The dictionary key of a dot node: its name with surrounding quotes
   * stripped and, when asked, passed through `to_int`; `None` for the
   * pseudo-node `graph`, which is skipped.
   */
  function DotKey(n: DotNode, toInt: bool): (r: Option<Value>)
    ensures r != Some(StrVal("graph"))
    ensures r.Some? && !toInt ==> r.value == StrVal(Strip(n.name, '"'))
    ensures r.Some? && toInt ==> r.value == ToInt(StrVal(Strip(n.name, '"')))
    ensures r.None? <==> Strip(n.name, '"') == "graph"
  {
    var name := Strip(n.name, '"');
    var key := if toInt then ToInt(StrVal(name)) else StrVal(name);
    if key == StrVal("graph") then None else Some(key)
  }

  /**
   * What `get_node_attribute_from_dot_file` builds from the node statements,
   * in file order: each kept node's attribute value (stripped of quotes
   * when asked), a later node with the same key overwriting an earlier one;
   * with `strip_quotes` a kept node without the attribute raises
   * AttributeError (`None.strip`).
   */
  function DotAttributes(nodes: seq<DotNode>, toInt: bool, stripQuotes: bool): (r: Result<ODict<Value, Option<string>>>)
    ensures r.Ok? ==> r.value.Valid()
    ensures r.Err? ==> r.error == AttributeError
  {
    if nodes == [] then Ok(Empty())
    else
      match DotAttributes(nodes[..|nodes| - 1], toInt, stripQuotes)
      case Err(x) => Err(x)
      case Ok(d) =>
        var n := nodes[|nodes| - 1];
        match DotKey(n, toInt)
        case None => Ok(d)
        case Some(k) =>
          if !stripQuotes then Ok(d.Put(k, n.attr))
          else if n.attr.None? then Err(AttributeError)
          else Ok(d.Put(k, Some(Strip(n.attr.value, '"'))))
  }

  /** `get_node_attribute_from_dot_file(filepath, attribute_name, to_int, strip_quotes)` over the parsed node statements. */
  method NodeAttributeFromDot(nodes: seq<DotNode>, toInt: bool, stripQuotes: bool)
    returns (r: Result<ODict<Value, Option<string>>>)
    ensures r == DotAttributes(nodes, toInt, stripQuotes)
  {
    var dictionary: ODict<Value, Option<string>> := Empty();
    for i := 0 to |nodes|
      invariant DotAttributes(nodes[..i], toInt, stripQuotes) == Ok(dictionary)
    {
      assert nodes[..i + 1][..i] == nodes[..i];
      var node := nodes[i];
      ghost var prev := dictionary;
      var name: Value := StrVal(Strip(node.name, '"'));
      if toInt {
        name := ToInt(name);
      }
      if name != StrVal("graph") {
        dictionary := dictionary.Put(name, node.attr);
        if stripQuotes {
          if node.attr.None? {
            DotAttributesErrKept(nodes, toInt, stripQuotes, i + 1);
            return Err(AttributeError);
          }
          dictionary := dictionary.Put(name, Some(Strip(node.attr.value, '"')));
          PutTwice(prev, name, node.attr, Some(Strip(node.attr.value, '"')));
        }
      }
    }
    assert nodes[..|nodes|] == nodes;
    r := Ok(dictionary);
  }

  /** The dictionary holds a key exactly when some node statement normalises to it. */
  lemma {:induction false} DotAttributesKeys(nodes: seq<DotNode>, toInt: bool, stripQuotes: bool, k: Value)
    requires DotAttributes(nodes, toInt, stripQuotes).Ok?
    ensures k in DotAttributes(nodes, toInt, stripQuotes).value.m <==>
            exists i :: 0 <= i < |nodes| && DotKey(nodes[i], toInt) == Some(k)
  {
    if nodes != [] {
      var init := nodes[..|nodes| - 1];
      var last := |nodes| - 1;
      DotKeysStep(nodes, toInt, stripQuotes, k);
      DotAttributesKeys(init, toInt, stripQuotes, k);
      if k in DotAttributes(nodes, toInt, stripQuotes).value.m {
        if DotKey(nodes[last], toInt) != Some(k) {
          var i :| 0 <= i < |init| && DotKey(init[i], toInt) == Some(k);
          assert nodes[i] == init[i];
        }
      } else {
        NoKeySnoc(nodes, init, toInt, k);
      }
    }
  }

  lemma NoKeySnoc(nodes: seq<DotNode>, init: seq<DotNode>, toInt: bool, k: Value)
    requires nodes != [] && init == nodes[..|nodes| - 1]
    requires forall i :: 0 <= i < |init| ==> DotKey(init[i], toInt) != Some(k)
    requires DotKey(nodes[|nodes| - 1], toInt) != Some(k)
    ensures forall i :: 0 <= i < |nodes| ==> DotKey(nodes[i], toInt) != Some(k)
  {
    forall i | 0 <= i < |nodes| ensures DotKey(nodes[i], toInt) != Some(k) {
      if i < |init| {
        assert nodes[i] == init[i];
      }
    }
  }

  lemma DotKeysStep(nodes: seq<DotNode>, toInt: bool, stripQuotes: bool, k: Value)
    requires nodes != [] && DotAttributes(nodes, toInt, stripQuotes).Ok?
    ensures DotAttributes(nodes[..|nodes| - 1], toInt, stripQuotes).Ok?
    ensures k in DotAttributes(nodes, toInt, stripQuotes).value.m <==>
            k in DotAttributes(nodes[..|nodes| - 1], toInt, stripQuotes).value.m || DotKey(nodes[|nodes| - 1], toInt) == Some(k)
  {
  }

  /** A failure stays a failure as more node statements follow. */
  lemma DotAttributesErrKept(nodes: seq<DotNode>, toInt: bool, stripQuotes: bool, i: nat)
    requires i <= |nodes| && DotAttributes(nodes[..i], toInt, stripQuotes).Err?
    ensures DotAttributes(nodes, toInt, stripQuotes).Err?
    decreases |nodes| - i
  {
    if i < |nodes| {
      assert nodes[..i + 1][..i] == nodes[..i];
      DotAttributesErrKept(nodes, toInt, stripQuotes, i + 1);
    } else {
      assert nodes[..i] == nodes;
    }
  }

  /** `dictionary['graph']` is never set: the pseudo-node is skipped. */
  lemma DotAttributesNoGraph(nodes: seq<DotNode>, toInt: bool, stripQuotes: bool)
    requires DotAttributes(nodes, toInt, stripQuotes).Ok?
    ensures StrVal("graph") !in DotAttributes(nodes, toInt, stripQuotes).value.m
  {
    DotAttributesKeys(nodes, toInt, stripQuotes, StrVal("graph"));
  }

  /** A key's value comes from the last node statement that normalises to it. */
  lemma {:induction false} DotAttributesLastWins(nodes: seq<DotNode>, toInt: bool, stripQuotes: bool, i: nat)
    requires DotAttributes(nodes, toInt, stripQuotes).Ok?
    requires i < |nodes| && DotKey(nodes[i], toInt).Some?
    requires forall j :: i < j < |nodes| ==> DotKey(nodes[j], toInt) != DotKey(nodes[i], toInt)
    ensures var d := DotAttributes(nodes, toInt, stripQuotes).value;
      var k := DotKey(nodes[i], toInt).value;
      k in d.m && d.m[k] == (if stripQuotes && nodes[i].attr.Some? then Some(Strip(nodes[i].attr.value, '"')) else nodes[i].attr)
  {
    var init := nodes[..|nodes| - 1];
    if i < |nodes| - 1 {
      forall j | i < j < |init| ensures DotKey(init[j], toInt) != DotKey(init[i], toInt) {
        assert init[j] == nodes[j];
      }
      DotAttributesLastWins(init, toInt, stripQuotes, i);
    }
  }

  /** With `strip_quotes`, the call fails exactly when a kept node lacks the attribute. */
  lemma {:induction false} DotAttributesFails(nodes: seq<DotNode>, toInt: bool, stripQuotes: bool)
    ensures DotAttributes(nodes, toInt, stripQuotes).Err? <==>
            stripQuotes && exists i :: 0 <= i < |nodes| && DotKey(nodes[i], toInt).Some? && nodes[i].attr.None?
  {
    if nodes != [] {
      var init := nodes[..|nodes| - 1];
      var last := |nodes| - 1;
      DotAttributesFails(init, toInt, stripQuotes);
      if DotAttributes(nodes, toInt, stripQuotes).Err? {
        if DotAttributes(init, toInt, stripQuotes).Err? {
          var i :| 0 <= i < |init| && DotKey(init[i], toInt).Some? && init[i].attr.None?;
          assert nodes[i] == init[i];
        }
      } else if stripQuotes {
        NoLackSnoc(nodes, init, toInt);
      }
    }
  }

  lemma NoLackSnoc(nodes: seq<DotNode>, init: seq<DotNode>, toInt: bool)
    requires nodes != [] && init == nodes[..|nodes| - 1]
    requires forall i :: 0 <= i < |init| && DotKey(init[i], toInt).Some? ==> init[i].attr.Some?
    requires DotKey(nodes[|nodes| - 1], toInt).Some? ==> nodes[|nodes| - 1].attr.Some?
    ensures forall i :: 0 <= i < |nodes| && DotKey(nodes[i], toInt).Some? ==> nodes[i].attr.Some?
  {
    forall i | 0 <= i < |nodes| && DotKey(nodes[i], toInt).Some? ensures nodes[i].attr.Some? {
      if i < |init| {
        assert nodes[i] == init[i];
      }
    }
  }

  /** A value that is present and neither starts nor ends with a quote. */
  ghost predicate Unquoted(v: Option<string>) {
    v.Some? && (v.value == [] || (v.value[0] != '"' && v.value[|v.value| - 1] != '"'))
  }

  /** With `strip_quotes`, every value is present and neither starts nor ends with a quote. */
  lemma {:induction false} DotAttributesStripped(nodes: seq<DotNode>, toInt: bool)
    requires DotAttributes(nodes, toInt, true).Ok?
    ensures var d := DotAttributes(nodes, toInt, true).value;
      forall k :: k in d.m ==> Unquoted(d.m[k])
  {
    if nodes != [] {
      var init := nodes[..|nodes| - 1];
      DotAttributesStripped(init, toInt);
      var n := nodes[|nodes| - 1];
      if DotKey(n, toInt).Some? {
        StripShape(n.attr.value, '"');
        UnquotedPut(DotAttributes(init, toInt, true).value, DotKey(n, toInt).value, Some(Strip(n.attr.value, '"')));
      }
    }
  }

  lemma UnquotedPut(d: ODict<Value, Option<string>>, k: Value, v: Option<string>)
    requires d.Valid() && Unquoted(v)
    requires forall k' :: k' in d.m ==> Unquoted(d.m[k'])
    ensures forall k' :: k' in d.Put(k, v).m ==> Unquoted(d.Put(k, v).m[k'])
  {
  }
}
