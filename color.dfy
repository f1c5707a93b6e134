/**
 * color.py: `get_colors_per_node` and `get_colors_per_node_global`, which
 * combine one colour per node (the colour gvmap gave the node's primary
 * cluster) with every cluster each node belongs to, giving each node the
 * comma-joined colours of all its clusters.
 */
module Color {
  import opened Wrappers
  import opened PyStr
  import opened ODicts
  import opened Utils

  /** `clusters_per_node`: each node's cluster ids, its primary cluster first. */
  type Memberships = ODict<Value, seq<int>>

  /** `color_per_node` as read from a dot file: `None` for a node without the attribute. */
  type Colours = map<Value, Option<string>>

  /** `cluster_to_color`. */
  type ClusterColours = map<int, Option<string>>

  // ------------------------------------------------------- cluster_to_color

  /** Node `d.keys[i]` has a colour and its primary cluster is `c`. */
  ghost predicate Primary(colours: Colours, d: Memberships, i: int, c: int)
    requires d.Valid() && 0 <= i < |d.keys|
  {
    var l := d.m[d.keys[i]];
    d.keys[i] in colours && l != [] && l[0] == c
  }

  /**
   * `cluster_to_color` after the first `n` nodes of `d` have been visited:
   * `clusters[0]` fails on a node without clusters; a cluster not yet
   * coloured takes the colour of a visited node whose primary cluster it is.
   */
  function ClusterColoursUpTo(colours: Colours, d: Memberships, n: nat): (r: Result<ClusterColours>)
    requires d.Valid() && n <= |d.keys|
  {
    if n == 0 then Ok(map[])
    else
      var prev := ClusterColoursUpTo(colours, d, n - 1);
      var node := d.keys[n - 1];
      if prev.Err? then prev
      else if d.m[node] == [] then Err(IndexError)
      else if d.m[node][0] !in prev.value && node in colours then Ok(prev.value[d.m[node][0] := colours[node]])
      else prev
  }

  /** Building `cluster_to_color` fails, with IndexError, exactly when a visited node has no cluster. */
  lemma {:induction false} ClusterColoursFails(colours: Colours, d: Memberships, n: nat)
    requires d.Valid() && n <= |d.keys|
    ensures ClusterColoursUpTo(colours, d, n).Err? <==> exists i :: 0 <= i < n && d.m[d.keys[i]] == []
    ensures ClusterColoursUpTo(colours, d, n).Err? ==> ClusterColoursUpTo(colours, d, n).error == IndexError
  {
    if n > 0 {
      ClusterColoursFails(colours, d, n - 1);
      if d.m[d.keys[n - 1]] == [] {
        assert 0 <= n - 1 < n && d.m[d.keys[n - 1]] == [];
      }
    }
  }

  /** A cluster is coloured exactly when some visited node with a colour has it as primary cluster. */
  lemma {:induction false} ClusterColoursDomain(colours: Colours, d: Memberships, n: nat, c: int)
    requires d.Valid() && n <= |d.keys| && ClusterColoursUpTo(colours, d, n).Ok?
    ensures c in ClusterColoursUpTo(colours, d, n).value <==> exists i :: 0 <= i < n && Primary(colours, d, i, c)
  {
    if n > 0 {
      ClusterColoursDomain(colours, d, n - 1, c);
      if Primary(colours, d, n - 1, c) {
        assert 0 <= n - 1 < n;
      }
    }
  }

  /**
   * First wins: a cluster's colour is the colour of the first node, in
   * iteration order, that has a colour and has the cluster as primary; later
   * such nodes never overwrite it.
   */
  lemma {:induction false} FirstColourWins(colours: Colours, d: Memberships, n: nat, i: nat)
    requires d.Valid() && i < n <= |d.keys| && ClusterColoursUpTo(colours, d, n).Ok?
    requires d.keys[i] in colours && d.m[d.keys[i]] != []
    requires forall j :: 0 <= j < i ==> !Primary(colours, d, j, d.m[d.keys[i]][0])
    ensures var c := d.m[d.keys[i]][0];
      c in ClusterColoursUpTo(colours, d, n).value &&
      ClusterColoursUpTo(colours, d, n).value[c] == colours[d.keys[i]]
  {
    var c := d.m[d.keys[i]][0];
    if n - 1 == i {
      ClusterColoursDomain(colours, d, i, c);
    } else {
      FirstColourWins(colours, d, n - 1, i);
    }
  }

  /** Once `clusters[0]` has failed, the loop's outcome is that failure. */
  lemma {:induction false} ClusterColoursErrKept(colours: Colours, d: Memberships, i: nat, n: nat)
    requires d.Valid() && i <= n <= |d.keys| && ClusterColoursUpTo(colours, d, i).Err?
    ensures ClusterColoursUpTo(colours, d, n) == ClusterColoursUpTo(colours, d, i)
    decreases n
  {
    if n > i {
      ClusterColoursErrKept(colours, d, i, n - 1);
    }
  }

  /** `cluster_to_color` as the first loop of `get_colors_per_node` builds it. */
  method ClusterToColor(colours: ODict<Value, Option<string>>, d: Memberships) returns (r: Result<ClusterColours>)
    requires d.Valid()
    ensures r == ClusterColoursUpTo(colours.m, d, |d.keys|)
  {
    var cc: ClusterColours := map[];
    for i := 0 to |d.keys|
      invariant ClusterColoursUpTo(colours.m, d, i) == Ok(cc)
    {
      var node := d.keys[i];
      var clusters := d.m[node];
      if clusters == [] {
        ClusterColoursErrKept(colours.m, d, i + 1, |d.keys|);
        return Err(IndexError);
      }
      var first := clusters[0];
      if first !in cc {
        if node in colours.m {
          cc := cc[first := colours.m[node]];
        }
      }
    }
    return Ok(cc);
  }

  // ------------------------------------------------------- one node's colours

  /** `[cluster_to_color[cluster] for cluster in clusters]`: KeyError on the first uncoloured cluster. */
  function Lookup(cc: ClusterColours, clusters: seq<int>): (r: Result<seq<Option<string>>>)
    ensures r.Ok? <==> forall i :: 0 <= i < |clusters| ==> clusters[i] in cc
    ensures r.Err? ==> r.error == KeyError
    ensures r.Ok? ==> |r.value| == |clusters| && forall i :: 0 <= i < |clusters| ==> r.value[i] == cc[clusters[i]]
  {
    if clusters == [] then Ok([])
    else if clusters[0] !in cc then Err(KeyError)
    else
      var rest := Lookup(cc, clusters[1..]);
      if rest.Err? then rest
      else
        assert forall i :: 1 <= i < |clusters| ==> clusters[i] == clusters[1..][i - 1];
        Ok([cc[clusters[0]]] + rest.value)
  }

  /** `[c.strip('"') for c in colors]`: AttributeError on the first missing (`None`) colour. */
  function StripQuotes(colors: seq<Option<string>>): (r: Result<seq<string>>)
    ensures r.Ok? <==> forall i :: 0 <= i < |colors| ==> colors[i].Some?
    ensures r.Err? ==> r.error == AttributeError
    ensures r.Ok? ==> |r.value| == |colors| && forall i :: 0 <= i < |colors| ==> r.value[i] == Strip(colors[i].value, '"')
  {
    if colors == [] then Ok([])
    else if colors[0].None? then Err(AttributeError)
    else
      var rest := StripQuotes(colors[1..]);
      if rest.Err? then rest
      else
        assert forall i :: 1 <= i < |colors| ==> colors[i] == colors[1..][i - 1];
        Ok([Strip(colors[0].value, '"')] + rest.value)
  }

  /** `','.join(...)` of the stripped colours of a node's clusters, in membership order. */
  function NodeColours(cc: ClusterColours, clusters: seq<int>): (r: Result<string>)
  {
    var colors := Lookup(cc, clusters);
    if colors.Err? then Err(colors.error)
    else
      var stripped := StripQuotes(colors.value);
      if stripped.Err? then Err(stripped.error) else Ok(Join(",", stripped.value))
  }

  /**
   * A node's colour list has one entry per membership: splitting it on `,`
   * gives back the stripped colour of each of its clusters in order, and it
   * holds one comma fewer than the node has clusters (colours being free of
   * commas).
   */
  lemma NodeColoursSplit(cc: ClusterColours, clusters: seq<int>)
    requires NodeColours(cc, clusters).Ok? && clusters != []
    requires forall i :: 0 <= i < |clusters| ==> ',' !in Strip(cc[clusters[i]].value, '"')
    ensures var s := NodeColours(cc, clusters).value;
      |SplitOn(s, ',')| == |clusters| &&
      (forall i :: 0 <= i < |clusters| ==> SplitOn(s, ',')[i] == Strip(cc[clusters[i]].value, '"')) &&
      Count(s, ',') == |clusters| - 1
  {
    var parts := StripQuotes(Lookup(cc, clusters).value).value;
    SplitOnJoin(parts, ',');
    CountJoin(parts, ',');
  }

  /** A node fails exactly when one of its clusters is uncoloured (KeyError) or coloured `None` (AttributeError). */
  lemma NodeColoursFails(cc: ClusterColours, clusters: seq<int>)
    ensures NodeColours(cc, clusters).Err? <==>
              exists i :: 0 <= i < |clusters| && (clusters[i] !in cc || cc[clusters[i]].None?)
    ensures NodeColours(cc, clusters).Err? ==>
              NodeColours(cc, clusters).error == KeyError || NodeColours(cc, clusters).error == AttributeError
  {
    var colors := Lookup(cc, clusters);
    if colors.Ok? && StripQuotes(colors.value).Err? {
      var i :| 0 <= i < |colors.value| && colors.value[i].None?;
      assert clusters[i] in cc && cc[clusters[i]].None?;
    }
  }

  // ------------------------------------------------------- colors_per_node

  /** The dict built by `d[ks[i]] = vs[i]` for each `i` in turn, starting empty. */
  function Written<K(==,!new), V>(ks: seq<K>, vs: seq<V>): (r: ODict<K, V>)
    requires |ks| == |vs|
    ensures r.Valid()
  {
    if ks == [] then Empty()
    else Written(ks[..|ks| - 1], vs[..|vs| - 1]).Put(ks[|ks| - 1], vs[|vs| - 1])
  }

  /** Exactly the keys written are present. */
  lemma {:induction false} WrittenKeys<K(!new), V>(ks: seq<K>, vs: seq<V>, k: K)
    requires |ks| == |vs|
    ensures k in Written(ks, vs).m <==> k in ks
  {
    if ks != [] {
      WrittenKeys(ks[..|ks| - 1], vs[..|vs| - 1], k);
      assert ks == ks[..|ks| - 1] + [ks[|ks| - 1]];
    }
  }

  /** Keys written once each keep the order they were written in. */
  lemma {:induction false} WrittenOrder<K(!new), V>(ks: seq<K>, vs: seq<V>)
    requires |ks| == |vs| && Distinct(ks)
    ensures Written(ks, vs).keys == ks
  {
    if ks != [] {
      var init := ks[..|ks| - 1];
      WrittenOrder(init, vs[..|vs| - 1]);
      WrittenKeys(init, vs[..|vs| - 1], ks[|ks| - 1]);
      assert ks == init + [ks[|ks| - 1]];
    }
  }

  /** A key holds the value written last under it. */
  lemma {:induction false} WrittenValue<K(!new), V>(ks: seq<K>, vs: seq<V>, i: nat)
    requires |ks| == |vs| && i < |ks|
    requires forall j :: i < j < |ks| ==> ks[j] != ks[i]
    ensures ks[i] in Written(ks, vs).m && Written(ks, vs).m[ks[i]] == vs[i]
  {
    if i < |ks| - 1 {
      WrittenValue(ks[..|ks| - 1], vs[..|vs| - 1], i);
    }
  }

  lemma WrittenSnoc<K(!new), V>(ks: seq<K>, vs: seq<V>, k: K, v: V)
    requires |ks| == |vs|
    ensures Written(ks + [k], vs + [v]) == Written(ks, vs).Put(k, v)
  {
    assert (ks + [k])[..|ks|] == ks;
    assert (vs + [v])[..|vs|] == vs;
  }

  /** One more successful result written. */
  lemma WrittenStep<K(!new)>(ks: seq<K>, rs: seq<Result<string>>, i: nat)
    requires |ks| == |rs| && i < |ks|
    requires forall j :: 0 <= j <= i ==> rs[j].Ok?
    ensures Written(ks[..i + 1], Colourings(rs[..i + 1])) ==
              Written(ks[..i], Colourings(rs[..i])).Put(ks[i], Some(rs[i].value))
  {
    assert ks[..i + 1] == ks[..i] + [ks[i]];
    assert Colourings(rs[..i + 1]) == Colourings(rs[..i]) + [Some(rs[i].value)];
    WrittenSnoc(ks[..i], Colourings(rs[..i]), ks[i], Some(rs[i].value));
  }

  /** The index of the first failed result, or `|rs|` when none failed. */
  function FirstFailure<T>(rs: seq<Result<T>>): (f: nat)
    ensures f <= |rs|
    ensures forall j :: 0 <= j < f ==> rs[j].Ok?
    ensures f < |rs| ==> rs[f].Err?
  {
    if rs == [] then 0
    else if rs[0].Err? then 0
    else
      assert forall j :: 1 <= j < |rs| ==> rs[j] == rs[1..][j - 1];
      1 + FirstFailure(rs[1..])
  }

  /** The results, all successful, each as the `Some` a dict value is read back as. */
  function Colourings(rs: seq<Result<string>>): (vs: seq<Option<string>>)
    requires forall j :: 0 <= j < |rs| ==> rs[j].Ok?
  {
    seq(|rs|, j requires 0 <= j < |rs| => Some(rs[j].value))
  }

  /** The key a node is written under: the node itself, or `to_int(node)`. */
  function KeyOf(node: Value, toInt: bool): Value
  {
    if toInt then ToInt(node) else node
  }

  function KeysOf(nodes: seq<Value>, toInt: bool): (ks: seq<Value>)
  {
    seq(|nodes|, j requires 0 <= j < |nodes| => KeyOf(nodes[j], toInt))
  }

  /** Each node's colour list, in the order the second loop visits the nodes. */
  function NodeResults(cc: ClusterColours, d: Memberships): (rs: seq<Result<string>>)
    requires d.Valid()
  {
    seq(|d.keys|, j requires 0 <= j < |d.keys| => NodeColours(cc, d.m[d.keys[j]]))
  }

  /**
   * `colors_per_node` as the second loop builds it: the first node whose
   * colours fail ends the loop with that failure; otherwise every node's
   * colour list is written under its key.
   */
  function Fused(cc: ClusterColours, d: Memberships, toInt: bool): (r: Result<ODict<Value, Option<string>>>)
    requires d.Valid()
  {
    var rs := NodeResults(cc, d);
    var f := FirstFailure(rs);
    if f < |rs| then Err(rs[f].error) else Ok(Written(KeysOf(d.keys, toInt), Colourings(rs)))
  }

  /** The second loop stops at the first node whose colours fail. */
  lemma FusedStopsAt(cc: ClusterColours, d: Memberships, toInt: bool, i: nat)
    requires d.Valid() && i < |d.keys|
    requires forall j :: 0 <= j < i ==> NodeResults(cc, d)[j].Ok?
    requires NodeResults(cc, d)[i].Err?
    ensures Fused(cc, d, toInt) == Err(NodeResults(cc, d)[i].error)
  {
    var rs := NodeResults(cc, d);
    assert FirstFailure(rs) == i;
  }

  /** Without a failure the second loop writes every node. */
  lemma FusedDone(cc: ClusterColours, d: Memberships, toInt: bool)
    requires d.Valid()
    requires forall j :: 0 <= j < |d.keys| ==> NodeResults(cc, d)[j].Ok?
    ensures Fused(cc, d, toInt) == Ok(Written(KeysOf(d.keys, toInt), Colourings(NodeResults(cc, d))))
  {
  }

  /** The second loop fails exactly when some node's colours fail, with KeyError or AttributeError. */
  lemma FusedFails(cc: ClusterColours, d: Memberships, toInt: bool)
    requires d.Valid()
    ensures Fused(cc, d, toInt).Err? <==> exists i :: 0 <= i < |d.keys| && NodeColours(cc, d.m[d.keys[i]]).Err?
    ensures Fused(cc, d, toInt).Err? ==>
              Fused(cc, d, toInt).error == KeyError || Fused(cc, d, toInt).error == AttributeError
  {
    var rs := NodeResults(cc, d);
    var f := FirstFailure(rs);
    if f < |rs| {
      NodeColoursFails(cc, d.m[d.keys[f]]);
    } else {
      forall i | 0 <= i < |d.keys| ensures NodeColours(cc, d.m[d.keys[i]]).Ok? {
        assert rs[i] == NodeColours(cc, d.m[d.keys[i]]);
      }
    }
  }

  /** Every node is written under its key, and nothing else is. */
  lemma FusedKeys(cc: ClusterColours, d: Memberships, toInt: bool, k: Value)
    requires d.Valid() && Fused(cc, d, toInt).Ok?
    ensures k in Fused(cc, d, toInt).value.m <==> exists j :: 0 <= j < |d.keys| && KeyOf(d.keys[j], toInt) == k
  {
    var rs := NodeResults(cc, d);
    var ks := KeysOf(d.keys, toInt);
    assert FirstFailure(rs) == |rs|;
    FusedDone(cc, d, toInt);
    assert Fused(cc, d, toInt).value == Written(ks, Colourings(rs));
    WrittenKeys(ks, Colourings(rs), k);
    if k in ks {
      var j :| 0 <= j < |ks| && ks[j] == k;
      assert KeyOf(d.keys[j], toInt) == k;
    }
    if j :| 0 <= j < |d.keys| && KeyOf(d.keys[j], toInt) == k {
      assert ks[j] == k;
    }
  }

  // --------------------------------------------------------- the two entries

  /** `get_colors_per_node` (and, with `to_int` on the keys, the fusion step of the global variant). */
  function ColorsPerNode(colours: Colours, d: Memberships, toInt: bool): (r: Result<ODict<Value, Option<string>>>)
    requires d.Valid()
  {
    var cc := ClusterColoursUpTo(colours, d, |d.keys|);
    if cc.Err? then Err(cc.error) else Fused(cc.value, d, toInt)
  }

  /** `get_colors_per_node_global`: nothing to do when no partition has a cluster mapping. */
  function ColorsPerNodeGlobal(colours: ODict<Value, Option<string>>, ds: seq<Memberships>): (r: Result<ODict<Value, Option<string>>>)
    requires forall i :: 0 <= i < |ds| ==> ds[i].Valid()
  {
    var merged := Merged(ds);
    if |merged.keys| == 0 then Ok(colours) else ColorsPerNode(colours.m, merged, true)
  }

  /** The second loop of `get_colors_per_node`, the keys optionally passed through `to_int`. */
  method NodesToColors(cc: ClusterColours, d: Memberships, toInt: bool) returns (r: Result<ODict<Value, Option<string>>>)
    requires d.Valid()
    ensures r == Fused(cc, d, toInt)
  {
    ghost var rs := NodeResults(cc, d);
    ghost var ks := KeysOf(d.keys, toInt);
    var out: ODict<Value, Option<string>> := Empty();
    for i := 0 to |d.keys|
      invariant forall j :: 0 <= j < i ==> rs[j].Ok?
      invariant out == Written(ks[..i], Colourings(rs[..i]))
    {
      var node := d.keys[i];
      var s := NodeColours(cc, d.m[node]);
      assert s == rs[i];
      if s.Err? {
        FusedStopsAt(cc, d, toInt, i);
        return Err(s.error);
      }
      WrittenStep(ks, rs, i);
      out := out.Put(KeyOf(node, toInt), Some(s.value));
    }
    assert ks[..|d.keys|] == ks && rs[..|d.keys|] == rs;
    FusedDone(cc, d, toInt);
    return Ok(out);
  }

  /** Both loops of `get_colors_per_node`, the keys optionally passed through `to_int`. */
  method Fuse(colours: ODict<Value, Option<string>>, d: Memberships, toInt: bool) returns (r: Result<ODict<Value, Option<string>>>)
    requires d.Valid()
    ensures r == ColorsPerNode(colours.m, d, toInt)
  {
    var cc := ClusterToColor(colours, d);
    if cc.Err? {
      return Err(cc.error);
    }
    r := NodesToColors(cc.value, d, toInt);
  }

  /** `get_colors_per_node(color_per_node, clusters_per_node)`. */
  method GetColorsPerNode(colours: ODict<Value, Option<string>>, d: Memberships) returns (r: Result<ODict<Value, Option<string>>>)
    requires d.Valid()
    ensures r == ColorsPerNode(colours.m, d, false)
  {
    r := Fuse(colours, d, false);
  }

  /** `get_colors_per_node_global(color_per_node, clusters_per_node_per_graph)`. */
  method GetColorsPerNodeGlobal(colours: ODict<Value, Option<string>>, ds: seq<Memberships>)
    returns (r: Result<ODict<Value, Option<string>>>)
    requires forall i :: 0 <= i < |ds| ==> ds[i].Valid()
    ensures r == ColorsPerNodeGlobal(colours, ds)
  {
    var merged := MergeDictionaries(ds);
    if |merged.keys| == 0 {
      return Ok(colours);
    }
    r := Fuse(colours, merged, true);
  }

  // ------------------------------------------------------------ properties

  /**
   * `get_colors_per_node` returns exactly the keys of `clusters_per_node`, in
   * the same order, and each node's value is the comma-joined stripped
   * colours of all its clusters, looked up in `cluster_to_color`.
   */
  lemma ColorsPerNodeShape(colours: Colours, d: Memberships)
    requires d.Valid() && ColorsPerNode(colours, d, false).Ok?
    ensures ColorsPerNode(colours, d, false).value.keys == d.keys
    ensures var r := ColorsPerNode(colours, d, false).value;
      var cc := ClusterColoursUpTo(colours, d, |d.keys|).value;
      forall i :: 0 <= i < |d.keys| ==>
        d.keys[i] in r.m && NodeColours(cc, d.m[d.keys[i]]).Ok? &&
        r.m[d.keys[i]] == Some(NodeColours(cc, d.m[d.keys[i]]).value)
  {
    var cc := ClusterColoursUpTo(colours, d, |d.keys|).value;
    var rs := NodeResults(cc, d);
    var ks := KeysOf(d.keys, false);
    assert ks == d.keys;
    WrittenOrder(ks, Colourings(rs));
    forall i | 0 <= i < |d.keys|
      ensures d.keys[i] in Written(ks, Colourings(rs)).m && Written(ks, Colourings(rs)).m[d.keys[i]] == Some(rs[i].value)
    {
      WrittenValue(ks, Colourings(rs), i);
    }
  }

  /**
   * No default colour: a membership naming a cluster that no coloured node
   * has as primary cluster makes the whole fusion fail.
   */
  lemma UncolouredClusterFails(colours: Colours, d: Memberships, toInt: bool, i: nat, j: nat)
    requires d.Valid() && i < |d.keys| && j < |d.m[d.keys[i]]|
    requires forall l :: 0 <= l < |d.keys| ==> !Primary(colours, d, l, d.m[d.keys[i]][j])
    ensures ColorsPerNode(colours, d, toInt).Err?
  {
    var cc := ClusterColoursUpTo(colours, d, |d.keys|);
    if cc.Ok? {
      ClusterColoursDomain(colours, d, |d.keys|, d.m[d.keys[i]][j]);
      NodeColoursFails(cc.value, d.m[d.keys[i]]);
      FusedFails(cc.value, d, toInt);
    }
  }

  /** When every partition's map is empty, `color_per_node` is returned unchanged. */
  lemma GlobalWithoutClusters(colours: ODict<Value, Option<string>>, ds: seq<Memberships>)
    requires forall i :: 0 <= i < |ds| ==> ds[i].Valid()
    requires forall i :: 0 <= i < |ds| ==> ds[i].m == map[]
    ensures ColorsPerNodeGlobal(colours, ds) == Ok(colours)
  {
    var merged := Merged(ds);
    if |merged.keys| != 0 {
      MergedKeys(ds, merged.keys[0]);
    }
  }

  /**
   * Otherwise the result's keys are the `to_int` images of the nodes of all
   * partitions.
   */
  lemma GlobalKeys(colours: ODict<Value, Option<string>>, ds: seq<Memberships>, k: Value)
    requires forall i :: 0 <= i < |ds| ==> ds[i].Valid()
    requires exists i :: 0 <= i < |ds| && ds[i].m != map[]
    requires ColorsPerNodeGlobal(colours, ds).Ok?
    ensures k in ColorsPerNodeGlobal(colours, ds).value.m <==>
              exists i, node :: 0 <= i < |ds| && node in ds[i].m && ToInt(node) == k
  {
    var merged := Merged(ds);
    var i0 :| 0 <= i0 < |ds| && ds[i0].m != map[];
    var n0 :| n0 in ds[i0].m;
    MergedKeys(ds, n0);
    assert |merged.keys| != 0;
    var cc := ClusterColoursUpTo(colours.m, merged, |merged.keys|).value;
    FusedKeys(cc, merged, true, k);
    MergedImage(ds, k);
  }

  /** A `to_int` image of a merged key is one of a key of some partition's map. */
  lemma MergedImage(ds: seq<Memberships>, k: Value)
    requires forall i :: 0 <= i < |ds| ==> ds[i].Valid()
    ensures (exists j :: 0 <= j < |Merged(ds).keys| && KeyOf(Merged(ds).keys[j], true) == k) <==>
            (exists i, node :: 0 <= i < |ds| && node in ds[i].m && ToInt(node) == k)
  {
    var merged := Merged(ds);
    if j :| 0 <= j < |merged.keys| && KeyOf(merged.keys[j], true) == k {
      MergedKeys(ds, merged.keys[j]);
    }
    if exists i, node :: 0 <= i < |ds| && node in ds[i].m && ToInt(node) == k {
      var i, node :| 0 <= i < |ds| && node in ds[i].m && ToInt(node) == k;
      MergedKeys(ds, node);
      var j :| 0 <= j < |merged.keys| && merged.keys[j] == node;
      assert KeyOf(merged.keys[j], true) == k;
    }
  }
}
