/**
 * cluster.py: per-partition `node -> [cluster ids]` maps. It finds the
 * largest id, gives the nodes without a cluster one shared new cluster,
 * moves the ids of each partition into a range of their own, and copies
 * each node's first cluster onto its sub-graph. The maps are dictionaries
 * that these functions change in place.
 */
module Cluster {
  import opened Wrappers
  import opened PyStr
  import opened ODicts
  import opened Lists
  import opened Utils
  import opened Graphs

  /** `clusters_per_node`: node -> its cluster ids, the primary one first. */
  type Clusters = ODict<Value, seq<int>>

  // ------------------------------------------------------ get_max_cluster_value

  /** `itertools.chain(*clusters_per_node.values())`: the lists of `keys`, one after the other. */
  function Chain(keys: seq<Value>, m: map<Value, seq<int>>): (r: seq<int>)
    requires forall k :: k in keys ==> k in m
    ensures forall x :: x in r <==> exists i :: 0 <= i < |keys| && x in m[keys[i]]
  {
    if keys == [] then []
    else
      var init := keys[..|keys| - 1];
      var r := Chain(init, m) + m[keys[|keys| - 1]];
      assert forall x :: x in r <==> x in Chain(init, m) || x in m[keys[|keys| - 1]];
      r
  }

  /** `max(s)`: ValueError when `s` is empty. */
  function MaxOf(s: seq<int>): (r: Result<int>)
    ensures r.Ok? <==> s != []
    ensures r.Err? ==> r.error == ValueError
    ensures r.Ok? ==> r.value in s && forall x :: x in s ==> x <= r.value
  {
    if s == [] then Err(ValueError)
    else
      var init := s[..|s| - 1];
      var last := s[|s| - 1];
      assert s == init + [last];
      match MaxOf(init)
      case Err(_) => Ok(last)
      case Ok(m) => if last > m then Ok(last) else Ok(m)
  }

  /**
   * `get_max_cluster_value(clusters_per_node)`: the largest id of any list;
   * ValueError when there is no id at all (no key, or only empty lists).
   */
  function MaxCluster(d: Clusters): (r: Result<int>)
    requires d.Valid()
    ensures r.Ok? <==> exists k :: k in d.m && d.m[k] != []
    ensures r.Err? ==> r.error == ValueError
    ensures r.Ok? ==> exists k :: k in d.m && r.value in d.m[k]
    ensures r.Ok? ==> forall k, x :: k in d.m && x in d.m[k] ==> x <= r.value
  {
    ChainHasIds(d);
    MaxOf(Chain(d.keys, d.m))
  }

  /** The chain holds exactly the ids of the lists, so its maximum is theirs. */
  lemma ChainHasIds(d: Clusters)
    requires d.Valid()
    ensures var r := MaxOf(Chain(d.keys, d.m));
      && (r.Ok? <==> exists k :: k in d.m && d.m[k] != [])
      && (r.Ok? ==> exists k :: k in d.m && r.value in d.m[k])
      && (r.Ok? ==> forall k, x :: k in d.m && x in d.m[k] ==> x <= r.value)
  {
    var chain := Chain(d.keys, d.m);
    var r := MaxOf(chain);
    forall k, x | k in d.m && x in d.m[k] ensures x in chain {
      var i :| 0 <= i < |d.keys| && d.keys[i] == k;
    }
    if r.Ok? {
      var i :| 0 <= i < |d.keys| && r.value in d.m[d.keys[i]];
      assert d.keys[i] in d.m;
      forall k, x | k in d.m && x in d.m[k] ensures x <= r.value {
        assert x in chain;
      }
    }
    if k :| k in d.m && d.m[k] != [] {
      assert d.m[k][0] in chain;
    }
  }

  // ------------------------------------------ create_cluster_for_homeless_nodes

  /** The ids of a graph's nodes, as dictionary keys. */
  function NodeValues(ns: seq<Node>): (r: seq<Value>)
    ensures |r| == |ns| && forall i :: 0 <= i < |ns| ==> r[i] == IntVal(ns[i].id)
  {
    seq(|ns|, i requires 0 <= i < |ns| => IntVal(ns[i].id))
  }

  /** `for k in ks: d[k] = v`, one assignment at a time. */
  function PutEach(d: Clusters, ks: seq<Value>, v: seq<int>): (r: Clusters)
    requires d.Valid()
    ensures r.Valid()
  {
    if ks == [] then d
    else PutEach(d, ks[..|ks| - 1], v).Put(ks[|ks| - 1], v)
  }

  lemma PutEachNext(d: Clusters, ks: seq<Value>, v: seq<int>, j: nat)
    requires d.Valid() && j < |ks|
    ensures PutEach(d, ks[..j + 1], v) == PutEach(d, ks[..j], v).Put(ks[j], v)
  {
    assert ks[..j + 1][..j] == ks[..j];
  }

  /**
   * After the assignments every listed key maps to `v`, the other keys keep
   * their values, and keys that were new are appended in the listed order.
   */
  lemma {:induction false} PutEachSpec(d: Clusters, ks: seq<Value>, v: seq<int>)
    requires d.Valid()
    ensures var r := PutEach(d, ks, v);
      && (forall k :: k in r.m <==> k in d.m || k in ks)
      && (forall k :: k in ks ==> r.m[k] == v)
      && (forall k :: k in d.m && k !in ks ==> r.m[k] == d.m[k])
      && (Distinct(ks) && (forall k :: k in ks ==> k !in d.m) ==> r.keys == d.keys + ks)
  {
    if ks != [] {
      var init := ks[..|ks| - 1];
      var k := ks[|ks| - 1];
      assert ks == init + [k];
      PutEachSpec(d, init, v);
    }
  }

  /**
   * What `create_cluster_for_homeless_nodes(graph, clusters_per_node)` leaves
   * in the dictionary: each graph node without an entry, in graph order,
   * gets the list `[max + 1]`; ValueError when the dictionary holds no id.
   */
  function Homed(d: Clusters, nodes: seq<Value>): (r: Result<Clusters>)
    requires d.Valid()
  {
    if MaxCluster(d).Err? then Err(ValueError)
    else Ok(PutEach(d, Drop(nodes, d.m.Keys), [MaxCluster(d).value + 1]))
  }

  /**
   * The fix-up fails exactly when there is no cluster id at all; otherwise
   * every graph node is a key, the keys that were there (graph nodes or
   * not) stay with their lists unchanged, the new keys follow them in graph
   * order, and every homeless node gets the same one-element list, one past
   * the largest existing id (so larger than every existing id).
   */
  lemma HomedFails(d: Clusters, nodes: seq<Value>)
    requires d.Valid()
    ensures Homed(d, nodes).Err? <==> forall k :: k in d.m ==> d.m[k] == []
    ensures Homed(d, nodes).Err? ==> Homed(d, nodes).error == ValueError
  {
    if Homed(d, nodes).Err? {
      assert MaxCluster(d).Err?;
    }
  }

  lemma HomedSpec(d: Clusters, nodes: seq<Value>)
    requires d.Valid()
    ensures Homed(d, nodes).Ok? ==> HomedShape(d, nodes, Homed(d, nodes).value, MaxCluster(d).value + 1)
  {
    if MaxCluster(d).Ok? {
      var h := MaxCluster(d).value + 1;
      var r := PutEach(d, Drop(nodes, d.m.Keys), [h]);
      assert Homed(d, nodes) == Ok(r);
      HomelessPut(d, nodes, h);
    }
  }

  /**
   * `r` is `d` with the homeless nodes given `[h]`: every graph node is a
   * key, the keys that were there keep their lists and their places, and
   * the new keys follow them in graph order.
   */
  ghost predicate HomedShape(d: Clusters, nodes: seq<Value>, r: Clusters, h: int) {
    && r.Valid()
    && (forall k :: k in r.m <==> k in d.m || k in nodes)
    && (forall k :: k in d.m ==> r.m[k] == d.m[k])
    && (Distinct(nodes) ==> r.keys == d.keys + Drop(nodes, d.m.Keys))
    && (forall k :: k in nodes && k !in d.m ==> r.m[k] == [h])
  }

  /** Giving every homeless node the list `[h]`. */
  lemma HomelessPut(d: Clusters, nodes: seq<Value>, h: int)
    requires d.Valid()
    ensures HomedShape(d, nodes, PutEach(d, Drop(nodes, d.m.Keys), [h]), h)
  {
    var homeless := Drop(nodes, d.m.Keys);
    PutEachSpec(d, homeless, [h]);
    assert forall k :: k in nodes && k !in d.m ==> k in homeless;
  }

  /** `create_cluster_for_homeless_nodes(graph, clusters_per_node)`, in place. */
  method CreateClusterForHomelessNodes(g: Graph, clusters: Dict<Value, seq<int>>) returns (r: Outcome)
    requires clusters.data.Valid()
    modifies clusters
    ensures r.Pass? <==> Homed(old(clusters.data), NodeValues(g.nodes)).Ok?
    ensures r.Pass? ==> clusters.data == Homed(old(clusters.data), NodeValues(g.nodes)).value
    ensures r.Fail? ==> r.error == ValueError && clusters.data == old(clusters.data)
  {
    var mx := MaxCluster(clusters.data);
    if mx.Err? {
      return Fail(mx.error);
    }
    var homelessId := mx.value + 1;
    ghost var start := clusters.data;
    var nodes := NodeValues(g.nodes);
    var homeless := KeysNotIn(nodes, clusters.data.keys);
    for j := 0 to |homeless|
      invariant clusters.data == PutEach(start, homeless[..j], [homelessId])
    {
      PutEachNext(start, homeless, [homelessId], j);
      clusters.data := clusters.data.Put(homeless[j], [homelessId]);
    }
    assert homeless[..|homeless|] == homeless;
    assert Elems(start.keys) == start.m.Keys;
    r := Pass;
  }

  // --------------------------------------- do_local_to_global_cluster_conversion

  /** `[cluster + c for cluster in clusters]`. */
  function ShiftIds(l: seq<int>, c: int): (r: seq<int>)
    ensures |r| == |l| && forall i :: 0 <= i < |l| ==> r[i] == l[i] + c
  {
    seq(|l|, i requires 0 <= i < |l| => l[i] + c)
  }

  /** Every list of `d` shifted by `c`; the keys and their order stay. */
  function ShiftAll(d: Clusters, c: int): (r: Clusters)
    requires d.Valid()
    ensures r.Valid() && r.keys == d.keys
    ensures forall k :: k in r.m <==> k in d.m
    ensures forall k :: k in d.m ==> r.m[k] == ShiftIds(d.m[k], c)
  {
    ODict(d.keys, map k | k in d.m :: ShiftIds(d.m[k], c))
  }

  /** The dictionary after the first `j` keys of the shifting loop. */
  function ShiftedUpTo(d: Clusters, c: int, j: nat): (r: Clusters)
    requires d.Valid() && j <= |d.keys|
  {
    ODict(d.keys, map k | k in d.m :: if k in d.keys[..j] then ShiftIds(d.m[k], c) else d.m[k])
  }

  lemma ShiftStep(d: Clusters, c: int, j: nat)
    requires d.Valid() && j < |d.keys|
    ensures ShiftedUpTo(d, c, j).m[d.keys[j]] == d.m[d.keys[j]]
    ensures ShiftedUpTo(d, c, j).Put(d.keys[j], ShiftIds(d.m[d.keys[j]], c)) == ShiftedUpTo(d, c, j + 1)
  {
    var k := d.keys[j];
    assert d.keys[..j + 1] == d.keys[..j] + [k];
    assert k !in d.keys[..j];
    var a := ShiftedUpTo(d, c, j).Put(k, ShiftIds(d.m[k], c));
    assert a.m == ShiftedUpTo(d, c, j + 1).m;
  }

  /** The number of maps, from the first, that hold at least one id: where the conversion stops. */
  function Handled(ds: seq<Clusters>): (n: nat)
    requires forall i :: 0 <= i < |ds| ==> ds[i].Valid()
    ensures n <= |ds|
    ensures forall k :: 0 <= k < n ==> MaxCluster(ds[k]).Ok?
    ensures n < |ds| ==> MaxCluster(ds[n]).Err?
  {
    if ds == [] || MaxCluster(ds[0]).Err? then 0 else 1 + Handled(ds[1..])
  }

  /** The maximum of each handled map. */
  function Maxima(ds: seq<Clusters>): (r: seq<int>)
    requires forall i :: 0 <= i < |ds| ==> ds[i].Valid()
    ensures |r| == Handled(ds)
    ensures forall k :: 0 <= k < |r| ==> MaxCluster(ds[k]) == Ok(r[k])
  {
    seq(Handled(ds), k requires 0 <= k < Handled(ds) => MaxCluster(ds[k]).value)
  }

  /** The running `cluster_increment` before each map. */
  function Offsets(maxima: seq<int>): (r: seq<int>)
    ensures |r| == |maxima| && forall k :: 0 <= k < |r| ==> r[k] == Sum(maxima[..k])
  {
    seq(|maxima|, k requires 0 <= k < |maxima| => Sum(maxima[..k]))
  }

  /**
   * What `do_local_to_global_cluster_conversion(clusters_per_node_per_graph)`
   * returns: for each map, the sum of the maxima of the maps before it;
   * ValueError when some map holds no id.
   */
  function Mapping(ds: seq<Clusters>): (r: Result<map<int, int>>)
    requires forall i :: 0 <= i < |ds| ==> ds[i].Valid()
  {
    if Handled(ds) < |ds| then Err(ValueError)
    else Ok(map k | 0 <= k < |ds| :: Offsets(Maxima(ds))[k])
  }

  /** The maps after `i` rounds of the conversion loop: the first `i` shifted by their offsets. */
  function Partial(olds: seq<Clusters>, offsets: seq<int>, i: nat): (r: seq<Clusters>)
    requires forall k :: 0 <= k < |olds| ==> olds[k].Valid()
    requires i <= |offsets|
    ensures |r| == |olds|
    ensures forall k :: 0 <= k < |olds| ==> r[k] == if k < i then ShiftAll(olds[k], offsets[k]) else olds[k]
  {
    seq(|olds|, k requires 0 <= k < |olds| => if k < i then ShiftAll(olds[k], offsets[k]) else olds[k])
  }

  /**
   * The maps the conversion leaves: every map before the first one without
   * ids is shifted by its offset; that map and the later ones are left as
   * they were.
   */
  function Converted(ds: seq<Clusters>): (r: seq<Clusters>)
    requires forall i :: 0 <= i < |ds| ==> ds[i].Valid()
  {
    Partial(ds, Offsets(Maxima(ds)), Handled(ds))
  }

  /** `clusters_per_node_per_graph`: the list of per-partition maps, which the conversion rewrites in place. */
  class ClustersPerGraph {
    var maps: seq<Clusters>

    constructor (maps0: seq<Clusters>)
      ensures maps == maps0
    {
      maps := maps0;
    }

    ghost predicate Valid()
      reads this
    {
      forall i :: 0 <= i < |maps| ==> maps[i].Valid()
    }
  }

  /** `for node, clusters in clusters_per_node.items(): clusters_per_node[node] = [... + c ...]`. */
  method ShiftEach(d: Clusters, c: int) returns (r: Clusters)
    requires d.Valid()
    ensures r == ShiftAll(d, c)
  {
    r := d;
    assert ShiftedUpTo(d, c, 0).m == d.m;
    for j := 0 to |d.keys|
      invariant r == ShiftedUpTo(d, c, j)
    {
      ShiftStep(d, c, j);
      var node := d.keys[j];
      r := r.Put(node, ShiftIds(r.m[node], c));
    }
    assert d.keys[..|d.keys|] == d.keys;
    assert ShiftedUpTo(d, c, |d.keys|).m == ShiftAll(d, c).m;
  }

  /** The i-th map of the list rewritten in place, every id shifted by `c`. */
  method ShiftMap(pg: ClustersPerGraph, i: nat, c: int)
    requires i < |pg.maps| && pg.maps[i].Valid()
    modifies pg
    ensures pg.maps == old(pg.maps)[i := ShiftAll(old(pg.maps)[i], c)]
  {
    var shifted := ShiftEach(pg.maps[i], c);
    pg.maps := pg.maps[i := shifted];
  }

  /** A map with ids extends the handled run. */
  lemma HandledNext(olds: seq<Clusters>, i: nat)
    requires forall k :: 0 <= k < |olds| ==> olds[k].Valid()
    requires i < |olds| && i <= Handled(olds) && MaxCluster(olds[i]).Ok?
    ensures i < Handled(olds)
  {
  }

  lemma SumSnoc(s: seq<int>, i: nat)
    requires i < |s|
    ensures Sum(s[..i + 1]) == Sum(s[..i]) + s[i]
  {
    assert s[..i + 1][..i] == s[..i];
  }

  lemma MapSnoc(offsets: seq<int>, i: nat, mapping: map<int, int>)
    requires i < |offsets|
    requires mapping == map k | 0 <= k < i :: offsets[k]
    ensures mapping[i := offsets[i]] == map k | 0 <= k < i + 1 :: offsets[k]
  {
  }

  lemma PartialStep(olds: seq<Clusters>, offsets: seq<int>, i: nat)
    requires forall k :: 0 <= k < |olds| ==> olds[k].Valid()
    requires i < |offsets| && i < |olds|
    ensures Partial(olds, offsets, i)[i := ShiftAll(olds[i], offsets[i])] == Partial(olds, offsets, i + 1)
  {
  }

  /** `do_local_to_global_cluster_conversion(clusters_per_node_per_graph)`: shifts each map in place. */
  method DoLocalToGlobalClusterConversion(pg: ClustersPerGraph) returns (r: Result<map<int, int>>)
    requires pg.Valid()
    modifies pg
    ensures r == Mapping(old(pg.maps))
    ensures pg.maps == Converted(old(pg.maps))
  {
    ghost var olds := pg.maps;
    ghost var maxima := Maxima(olds);
    ghost var offsets := Offsets(maxima);
    var mapping: map<int, int> := map[];
    var increment := 0;
    assert Partial(olds, offsets, 0) == olds;
    for i := 0 to |pg.maps|
      invariant i <= |maxima|
      invariant increment == Sum(maxima[..i])
      invariant mapping == map k | 0 <= k < i :: offsets[k]
      invariant pg.maps == Partial(olds, offsets, i)
    {
      var mx := MaxCluster(pg.maps[i]);
      if mx.Err? {
        return Err(mx.error);
      }
      HandledNext(olds, i);
      SumSnoc(maxima, i);
      MapSnoc(offsets, i, mapping);
      PartialStep(olds, offsets, i);
      mapping := mapping[i := increment];
      ShiftMap(pg, i, increment);
      increment := increment + mx.value;
    }
    r := Ok(mapping);
  }

  /** A map without a single cluster id: `get_max_cluster_value` raises on it. */
  ghost predicate NoIds(d: Clusters) {
    forall k :: k in d.m ==> d.m[k] == []
  }

  /**
   * The conversion fails exactly when some map holds no id. Otherwise the
   * mapping numbers the maps from 0, the first offset is 0, and each next
   * offset adds the maximum id of the map before it: the offset of map k
   * is the sum of the maxima of maps 0..k-1.
   */
  lemma MappingSpec(ds: seq<Clusters>)
    requires forall i :: 0 <= i < |ds| ==> ds[i].Valid()
    ensures Mapping(ds).Err? <==> exists k :: 0 <= k < |ds| && NoIds(ds[k])
    ensures Mapping(ds).Err? ==> Mapping(ds).error == ValueError
    ensures Mapping(ds).Ok? ==> forall k :: k in Mapping(ds).value <==> 0 <= k < |ds|
    ensures Mapping(ds).Ok? && |ds| > 0 ==> Mapping(ds).value[0] == 0
    ensures Mapping(ds).Ok? ==>
              forall k :: 0 <= k < |ds| - 1 ==>
                Mapping(ds).value[k + 1] == Mapping(ds).value[k] + MaxCluster(ds[k]).value
  {
    var n := Handled(ds);
    if n < |ds| {
      assert NoIds(ds[n]);
    } else {
      var maxima := Maxima(ds);
      forall k | 0 <= k < |ds| - 1
        ensures Mapping(ds).value[k + 1] == Mapping(ds).value[k] + MaxCluster(ds[k]).value
      {
        SumSnoc(maxima, k);
      }
    }
  }

  /**
   * Every map keeps its keys, their order and its list lengths. When the
   * conversion succeeds every id of map k is raised by exactly its offset;
   * when it fails, the first map without ids and all later maps are left
   * as they were.
   */
  lemma ConvertedSpec(ds: seq<Clusters>)
    requires forall i :: 0 <= i < |ds| ==> ds[i].Valid()
    ensures |Converted(ds)| == |ds|
    ensures forall k :: 0 <= k < |ds| ==> Converted(ds)[k].keys == ds[k].keys
    ensures forall k, key :: 0 <= k < |ds| && key in ds[k].m ==>
              key in Converted(ds)[k].m && |Converted(ds)[k].m[key]| == |ds[k].m[key]|
    ensures Mapping(ds).Ok? ==>
              forall k, key, i :: 0 <= k < |ds| && key in ds[k].m && 0 <= i < |ds[k].m[key]| ==>
                Converted(ds)[k].m[key][i] == ds[k].m[key][i] + Mapping(ds).value[k]
    ensures Mapping(ds).Err? ==>
              exists f :: 0 <= f < |ds| && NoIds(ds[f]) && forall k :: f <= k < |ds| ==> Converted(ds)[k] == ds[k]
  {
    var n := Handled(ds);
    if n < |ds| {
      assert NoIds(ds[n]);
    }
  }

  /** No map has a cluster id below 1 (the clustering tools number their clusters from 1). */
  ghost predicate PositiveIds(ds: seq<Clusters>) {
    forall k, key, x :: 0 <= k < |ds| && key in ds[k].m && x in ds[k].m[key] ==> x >= 1
  }

  /** With positive ids every prefix sum up to k, plus entry k, is at most every later prefix sum. */
  lemma {:induction false} SumGrows(m: seq<int>, k: nat, l: nat)
    requires forall i :: 0 <= i < |m| ==> m[i] >= 1
    requires k < l <= |m|
    ensures Sum(m[..k]) + m[k] <= Sum(m[..l])
  {
    SumSnoc(m, l - 1);
    if k < l - 1 {
      SumGrows(m, k, l - 1);
    }
  }

  /** With positive ids every map's maximum is positive. */
  lemma MaximaPositive(ds: seq<Clusters>)
    requires forall i :: 0 <= i < |ds| ==> ds[i].Valid()
    requires PositiveIds(ds)
    ensures forall i :: 0 <= i < |Maxima(ds)| ==> Maxima(ds)[i] >= 1
  {
    forall i | 0 <= i < |Maxima(ds)| ensures Maxima(ds)[i] >= 1 {
      var mx := MaxCluster(ds[i]);
      assert mx.Ok? && mx.value == Maxima(ds)[i];
      var key :| key in ds[i].m && mx.value in ds[i].m[key];
    }
  }

  /**
   * When every local id is at least 1, the ids of map k after the
   * conversion lie in (offset k, offset k + max k].
   */
  lemma ConvertedRange(ds: seq<Clusters>)
    requires forall i :: 0 <= i < |ds| ==> ds[i].Valid()
    requires PositiveIds(ds) && Mapping(ds).Ok?
    ensures forall k, key, x :: 0 <= k < |ds| && key in Converted(ds)[k].m && x in Converted(ds)[k].m[key] ==>
              Mapping(ds).value[k] < x <= Mapping(ds).value[k] + MaxCluster(ds[k]).value
  {
    var mapping := Mapping(ds).value;
    var conv := Converted(ds);
    forall k, key, x | 0 <= k < |ds| && key in conv[k].m && x in conv[k].m[key]
      ensures mapping[k] < x <= mapping[k] + MaxCluster(ds[k]).value
    {
      ConvertedSpec(ds);
      var i :| 0 <= i < |conv[k].m[key]| && conv[k].m[key][i] == x;
      assert ds[k].m[key][i] in ds[k].m[key];
    }
  }

  /**
   * When every local id is at least 1, offset k plus the maximum of map k
   * is at most every later offset, so the offsets never decrease.
   */
  lemma MappingIncreasing(ds: seq<Clusters>)
    requires forall i :: 0 <= i < |ds| ==> ds[i].Valid()
    requires PositiveIds(ds) && Mapping(ds).Ok?
    ensures forall k, l :: 0 <= k < l < |ds| ==> Mapping(ds).value[k] + MaxCluster(ds[k]).value <= Mapping(ds).value[l]
  {
    var maxima := Maxima(ds);
    MaximaPositive(ds);
    forall k, l | 0 <= k < l < |ds| ensures Mapping(ds).value[k] + MaxCluster(ds[k]).value <= Mapping(ds).value[l] {
      SumGrows(maxima, k, l);
    }
  }

  /**
   * When every local id is at least 1, an id of an earlier map is smaller
   * than every id of a later map after the conversion: no two maps share a
   * global id.
   */
  lemma ConvertedDisjoint(ds: seq<Clusters>)
    requires forall i :: 0 <= i < |ds| ==> ds[i].Valid()
    requires PositiveIds(ds) && Mapping(ds).Ok?
    ensures forall k, l, a, b, x, y ::
              && 0 <= k < l < |ds|
              && a in Converted(ds)[k].m && x in Converted(ds)[k].m[a]
              && b in Converted(ds)[l].m && y in Converted(ds)[l].m[b]
              ==> x < y
  {
    ConvertedRange(ds);
    MappingIncreasing(ds);
  }

  // ----------------------------------------------------- add_clusters_to_graph

  /** `{k: v[0] for k, v in clusters_per_node.items()}`: IndexError on an empty list. */
  function Firsts(d: Clusters): (r: Result<map<Value, int>>)
    requires d.Valid()
    ensures r.Err? <==> exists k :: k in d.m && d.m[k] == []
    ensures r.Err? ==> r.error == IndexError
    ensures r.Ok? ==> forall k :: k in r.value <==> k in d.m
    ensures r.Ok? ==> forall k :: k in r.value ==> r.value[k] == d.m[k][0]
  {
    if exists k :: k in d.m && d.m[k] == [] then Err(IndexError)
    else Ok(map k | k in d.m :: d.m[k][0])
  }

  /**
   * `add_node_attribute_to_graph(graph, 'cluster', first_cluster_per_node)`:
   * each node named in the dictionary gets its `cluster` attribute (kept
   * as its decimal text); the other nodes and the edges are untouched.
   */
  function SetClusters(g: Graph, firsts: map<Value, int>): (r: Graph)
    ensures r.adj == g.adj && |r.nodes| == |g.nodes|
    ensures forall i :: 0 <= i < |g.nodes| ==>
              r.nodes[i] == if IntVal(g.nodes[i].id) in firsts
                            then g.nodes[i].(attrs := g.nodes[i].attrs["cluster" := ShowInt(firsts[IntVal(g.nodes[i].id)])])
                            else g.nodes[i]
  {
    var nodes := seq(|g.nodes|, i requires 0 <= i < |g.nodes| =>
      var n := g.nodes[i];
      if IntVal(n.id) in firsts then n.(attrs := n.attrs["cluster" := ShowInt(firsts[IntVal(n.id)])]) else n);
    Graph(nodes, g.adj)
  }

  /** One round of `add_clusters_to_graph`: prune the map to the sub-graph's nodes, then label them. */
  function Labelled(g: Graph, d: Clusters): (r: Result<Graph>)
    requires d.Valid()
  {
    var firsts := Firsts(Pruned(d, NodeValues(g.nodes)));
    if firsts.Err? then Err(IndexError) else Ok(SetClusters(g, firsts.value))
  }

  /** Labelling fails, with IndexError, exactly when a node of the sub-graph has an empty cluster list. */
  lemma LabelledFails(g: Graph, d: Clusters)
    requires d.Valid()
    ensures Labelled(g, d).Err? <==>
              exists i :: 0 <= i < |g.nodes| && IntVal(g.nodes[i].id) in d.m && d.m[IntVal(g.nodes[i].id)] == []
    ensures Labelled(g, d).Err? ==> Labelled(g, d).error == IndexError
  {
    var ids := NodeValues(g.nodes);
    var kept := Pruned(d, ids);
    assert Labelled(g, d).Err? <==> Firsts(kept).Err?;
    if Firsts(kept).Err? {
      var k :| k in kept.m && kept.m[k] == [];
      var i :| 0 <= i < |ids| && ids[i] == k;
      assert IntVal(g.nodes[i].id) == k;
    }
    if i :| 0 <= i < |g.nodes| && IntVal(g.nodes[i].id) in d.m && d.m[IntVal(g.nodes[i].id)] == [] {
      assert ids[i] in kept.m && kept.m[ids[i]] == [];
    }
  }

  /**
   * A labelled sub-graph has the same nodes in the same order and the same
   * edges; each node with an entry gets the first element of its list as
   * its `cluster` attribute, and the other nodes are unchanged.
   */
  lemma LabelledNodes(g: Graph, d: Clusters)
    requires d.Valid() && Labelled(g, d).Ok?
    ensures Labelled(g, d).value.adj == g.adj
    ensures |Labelled(g, d).value.nodes| == |g.nodes|
    ensures forall i :: 0 <= i < |g.nodes| ==>
              Labelled(g, d).value.nodes[i] ==
                if IntVal(g.nodes[i].id) in d.m
                then g.nodes[i].(attrs := g.nodes[i].attrs["cluster" := ShowInt(d.m[IntVal(g.nodes[i].id)][0])])
                else g.nodes[i]
  {
    var ids := NodeValues(g.nodes);
    forall i | 0 <= i < |g.nodes| ensures IntVal(g.nodes[i].id) in Pruned(d, ids).m <==> IntVal(g.nodes[i].id) in d.m {
      assert ids[i] == IntVal(g.nodes[i].id);
    }
  }

  /** The number of rounds of `add_clusters_to_graph` that complete. */
  function Labelling(subs: seq<Graph>, olds: seq<Clusters>): (n: nat)
    requires forall i :: 0 <= i < |olds| ==> olds[i].Valid()
    ensures n <= |olds| && n <= |subs|
    ensures forall k :: 0 <= k < n ==> Labelled(subs[k], olds[k]).Ok?
    ensures n < |olds| && n < |subs| ==> Labelled(subs[n], olds[n]).Err?
  {
    if olds == [] || subs == [] || Labelled(subs[0], olds[0]).Err? then 0
    else
      var rest := Labelling(subs[1..], olds[1..]);
      assert forall k :: 0 < k <= rest ==> subs[1..][k - 1] == subs[k] && olds[1..][k - 1] == olds[k];
      1 + rest
  }

  /** The sub-graphs after `i` complete rounds. */
  function LabelledUpTo(subs: seq<Graph>, olds: seq<Clusters>, i: nat): (r: seq<Graph>)
    requires forall k :: 0 <= k < |olds| ==> olds[k].Valid()
    requires i <= Labelling(subs, olds)
    ensures |r| == |subs|
    ensures forall k :: 0 <= k < |subs| ==> r[k] == if k < i then Labelled(subs[k], olds[k]).value else subs[k]
  {
    seq(|subs|, k requires 0 <= k < |subs| => if k < i then Labelled(subs[k], olds[k]).value else subs[k])
  }

  /** The maps after the first `i` have been pruned to their sub-graphs. */
  function PrunedUpTo(subs: seq<Graph>, olds: seq<Clusters>, i: nat): (r: seq<Clusters>)
    requires forall k :: 0 <= k < |olds| ==> olds[k].Valid()
    requires i <= |olds| && i <= |subs|
    ensures |r| == |olds|
    ensures forall k :: 0 <= k < |olds| ==> r[k] == if k < i then Pruned(olds[k], NodeValues(subs[k].nodes)) else olds[k]
  {
    seq(|olds|, k requires 0 <= k < |olds| => if k < i then Pruned(olds[k], NodeValues(subs[k].nodes)) else olds[k])
  }

  /**
   * How `add_clusters_to_graph(sub_graphs, clusters_per_node_per_graph)`
   * ends: IndexError when there are more maps than sub-graphs or a
   * sub-graph node has an empty list.
   */
  function AddedOutcome(subs: seq<Graph>, olds: seq<Clusters>): Outcome
    requires forall k :: 0 <= k < |olds| ==> olds[k].Valid()
  {
    if Labelling(subs, olds) == |olds| then Pass else Fail(IndexError)
  }

  /** The sub-graphs afterwards: those of the completed rounds labelled. */
  function AddedGraphs(subs: seq<Graph>, olds: seq<Clusters>): seq<Graph>
    requires forall k :: 0 <= k < |olds| ==> olds[k].Valid()
  {
    LabelledUpTo(subs, olds, Labelling(subs, olds))
  }

  /** The maps afterwards: pruned by every round that got as far as the pruning. */
  function AddedMaps(subs: seq<Graph>, olds: seq<Clusters>): seq<Clusters>
    requires forall k :: 0 <= k < |olds| ==> olds[k].Valid()
  {
    var n := Labelling(subs, olds);
    PrunedUpTo(subs, olds, if n < |olds| && n < |subs| then n + 1 else n)
  }

  /**
   * The whole list is labelled exactly when there are enough sub-graphs
   * and no sub-graph node has an empty list. Then every map keeps exactly
   * its keys that are nodes of its sub-graph, with their lists, and each
   * sub-graph is labelled from its map; the sub-graphs beyond the maps are
   * untouched.
   */
  lemma AddedSpec(subs: seq<Graph>, olds: seq<Clusters>)
    requires forall k :: 0 <= k < |olds| ==> olds[k].Valid()
    ensures AddedOutcome(subs, olds).Pass? <==>
              |olds| <= |subs| && forall k :: 0 <= k < |olds| ==> Labelled(subs[k], olds[k]).Ok?
    ensures AddedOutcome(subs, olds).Fail? ==> AddedOutcome(subs, olds).error == IndexError
    ensures AddedOutcome(subs, olds).Pass? ==>
              && |AddedMaps(subs, olds)| == |olds|
              && forall k, key :: 0 <= k < |olds| ==>
                   && (key in AddedMaps(subs, olds)[k].m <==> key in olds[k].m && key in NodeValues(subs[k].nodes))
                   && (key in AddedMaps(subs, olds)[k].m ==> AddedMaps(subs, olds)[k].m[key] == olds[k].m[key])
    ensures AddedOutcome(subs, olds).Pass? ==>
              && |AddedGraphs(subs, olds)| == |subs|
              && (forall k :: 0 <= k < |olds| ==> AddedGraphs(subs, olds)[k] == Labelled(subs[k], olds[k]).value)
              && (forall k :: |olds| <= k < |subs| ==> AddedGraphs(subs, olds)[k] == subs[k])
  {
  }

  /** One round: the map pruned to the sub-graph's nodes, then the sub-graph labelled from it. */
  method LabelRound(g: Graph, d: Clusters) returns (pruned: Clusters, r: Result<Graph>)
    requires d.Valid()
    ensures pruned == Pruned(d, NodeValues(g.nodes))
    ensures r == Labelled(g, d)
  {
    var nodeIds := NodeValues(g.nodes);
    var dict := new Dict(d);
    PruneInvalidKeys(nodeIds, dict);
    pruned := dict.data;
    var firsts := Firsts(pruned);
    if firsts.Err? {
      return pruned, Err(IndexError);
    }
    r := Ok(SetClusters(g, firsts.value));
  }

  lemma LabellingNext(subs: seq<Graph>, olds: seq<Clusters>, i: nat)
    requires forall k :: 0 <= k < |olds| ==> olds[k].Valid()
    requires i <= Labelling(subs, olds) && i < |olds| && i < |subs| && Labelled(subs[i], olds[i]).Ok?
    ensures i < Labelling(subs, olds)
    ensures LabelledUpTo(subs, olds, i)[i := Labelled(subs[i], olds[i]).value] == LabelledUpTo(subs, olds, i + 1)
  {
  }

  lemma PrunedStep(subs: seq<Graph>, olds: seq<Clusters>, i: nat)
    requires forall k :: 0 <= k < |olds| ==> olds[k].Valid()
    requires i < |olds| && i < |subs|
    ensures PrunedUpTo(subs, olds, i)[i := Pruned(olds[i], NodeValues(subs[i].nodes))] == PrunedUpTo(subs, olds, i + 1)
  {
  }

  /** `add_clusters_to_graph(sub_graphs, clusters_per_node_per_graph)`: the maps are pruned in place. */
  method AddClustersToGraph(subs: seq<Graph>, pg: ClustersPerGraph) returns (r: Outcome, gs: seq<Graph>)
    requires pg.Valid()
    modifies pg
    ensures r == AddedOutcome(subs, old(pg.maps))
    ensures gs == AddedGraphs(subs, old(pg.maps))
    ensures pg.maps == AddedMaps(subs, old(pg.maps))
  {
    ghost var olds := pg.maps;
    gs := subs;
    assert PrunedUpTo(subs, olds, 0) == olds;
    for i := 0 to |pg.maps|
      invariant i <= Labelling(subs, olds)
      invariant gs == LabelledUpTo(subs, olds, i)
      invariant pg.maps == PrunedUpTo(subs, olds, i)
    {
      if i >= |gs| {
        return Fail(IndexError), gs;
      }
      var pruned, labelled := LabelRound(gs[i], pg.maps[i]);
      PrunedStep(subs, olds, i);
      pg.maps := pg.maps[i := pruned];
      if labelled.Err? {
        return Fail(IndexError), gs;
      }
      LabellingNext(subs, olds, i);
      gs := gs[i := labelled.value];
    }
    r := Pass;
  }
}
