/**
 * The frame timeline of file_io.py (`get_frame_start_and_count`): the
 * nodes of the full graph are shown one per frame in their global order,
 * and every node of a partition is given the window of frames from its
 * own frame up to the next node of the same partition (the last node's
 * window runs on for `trailing` extra frames).
 */
module Timeline {
  import opened Lists
  import opened ODicts
  import opened Graphs

  predicate SortedByOrder(s: seq<Node>) {
    forall i, j :: 0 <= i < j < |s| ==> s[i].order <= s[j].order
  }

  /** `x` placed after every node of `s` whose order is not larger than its own. */
  function InsertByOrder(x: Node, s: seq<Node>): (r: seq<Node>)
    requires SortedByOrder(s)
    ensures SortedByOrder(r)
    ensures multiset(r) == multiset(s) + multiset{x}
    ensures |r| == |s| + 1
  {
    if s == [] || s[|s| - 1].order <= x.order then s + [x]
    else
      var init := s[..|s| - 1];
      assert s == init + [s[|s| - 1]];
      var rest := InsertByOrder(x, init);
      forall n | n in rest ensures n.order <= s[|s| - 1].order {
        assert n in multiset(rest);
        if n != x {
          assert n in multiset(init);
        }
      }
      rest + [s[|s| - 1]]
  }

  /** `sorted(nodes, key=lambda node: node['order'])`. */
  function SortByOrder(s: seq<Node>): (r: seq<Node>)
    ensures SortedByOrder(r)
    ensures multiset(r) == multiset(s)
    ensures |r| == |s|
  {
    if s == [] then []
    else
      var init := s[..|s| - 1];
      assert s == init + [s[|s| - 1]];
      InsertByOrder(s[|s| - 1], SortByOrder(init))
  }

  /** A node can be added to a list of nodes with distinct ids when no node there has its id. */
  lemma IdsDistinctSnoc(ns: seq<Node>, n: Node)
    requires Distinct(Ids(ns)) && forall m :: m in ns ==> m.id != n.id
    ensures Distinct(Ids(ns + [n]))
  {
    var r := Ids(ns + [n]);
    forall i, j | 0 <= i < j < |r| ensures r[i] != r[j] {
      if j == |ns| {
        assert (ns + [n])[i] in ns;
      }
    }
  }

  lemma {:induction false} InsertIdsDistinct(x: Node, s: seq<Node>)
    requires SortedByOrder(s) && Distinct(Ids(s)) && forall m :: m in s ==> m.id != x.id
    ensures Distinct(Ids(InsertByOrder(x, s)))
  {
    if s == [] || s[|s| - 1].order <= x.order {
      IdsDistinctSnoc(s, x);
    } else {
      var init := s[..|s| - 1];
      var last := s[|s| - 1];
      var rest := InsertByOrder(x, init);
      assert s == init + [last];
      assert Distinct(Ids(init)) by {
        forall i, j | 0 <= i < j < |init| ensures Ids(init)[i] != Ids(init)[j] {
          assert Ids(s)[i] != Ids(s)[j];
        }
      }
      InsertIdsDistinct(x, init);
      forall m | m in rest ensures m.id != last.id {
        assert m in multiset(rest);
        if m != x {
          assert m in multiset(init);
          var i :| 0 <= i < |init| && init[i] == m;
          assert Ids(s)[i] != Ids(s)[|s| - 1];
        }
      }
      IdsDistinctSnoc(rest, last);
    }
  }

  /** Sorting keeps the node ids distinct. */
  lemma {:induction false} SortIdsDistinct(s: seq<Node>)
    requires Distinct(Ids(s))
    ensures Distinct(Ids(SortByOrder(s)))
  {
    if s != [] {
      var init := s[..|s| - 1];
      var last := s[|s| - 1];
      assert Distinct(Ids(init)) by {
        forall i, j | 0 <= i < j < |init| ensures Ids(init)[i] != Ids(init)[j] {
          assert Ids(s)[i] != Ids(s)[j];
        }
      }
      SortIdsDistinct(init);
      forall m | m in SortByOrder(init) ensures m.id != last.id {
        assert m in multiset(init);
        var i :| 0 <= i < |init| && init[i] == m;
        assert Ids(s)[i] != Ids(s)[|s| - 1];
      }
      InsertIdsDistinct(last, SortByOrder(init));
    }
  }

  /** The nodes of `s` whose order is `o`, in order. */
  function WithOrder(s: seq<Node>, o: int): seq<Node> {
    if s == [] then []
    else WithOrder(s[..|s| - 1], o) + (if s[|s| - 1].order == o then [s[|s| - 1]] else [])
  }

  lemma {:induction false} WithOrderAppend(a: seq<Node>, b: seq<Node>, o: int)
    ensures WithOrder(a + b, o) == WithOrder(a, o) + WithOrder(b, o)
  {
    if b != [] {
      assert (a + b)[..|a + b| - 1] == a + b[..|b| - 1];
      WithOrderAppend(a, b[..|b| - 1], o);
    } else {
      assert a + b == a;
    }
  }

  lemma WithOrderSnoc(s: seq<Node>, x: Node, o: int)
    ensures WithOrder(s + [x], o) == WithOrder(s, o) + (if x.order == o then [x] else [])
  {
    assert (s + [x])[..|s|] == s;
  }

  lemma {:induction false} WithOrderInsert(x: Node, s: seq<Node>, o: int)
    requires SortedByOrder(s)
    ensures WithOrder(InsertByOrder(x, s), o) == WithOrder(s, o) + (if x.order == o then [x] else [])
  {
    if s == [] || s[|s| - 1].order <= x.order {
      WithOrderSnoc(s, x, o);
    } else {
      var init := s[..|s| - 1];
      var last := s[|s| - 1];
      var rest := InsertByOrder(x, init);
      assert s == init + [last];
      assert InsertByOrder(x, s) == rest + [last];
      WithOrderInsert(x, init, o);
      WithOrderSnoc(rest, last, o);
      WithOrderSnoc(init, last, o);
      assert x.order < last.order;
    }
  }

  /** The sort is stable: nodes of equal order keep their relative order. */
  lemma {:induction false} SortByOrderStable(s: seq<Node>, o: int)
    ensures WithOrder(SortByOrder(s), o) == WithOrder(s, o)
  {
    if s != [] {
      var init := s[..|s| - 1];
      SortByOrderStable(init, o);
      WithOrderInsert(s[|s| - 1], SortByOrder(init), o);
    }
  }

  /** `[node['partition'] for node in sorted_nodes]`. */
  function Partitions(s: seq<Node>): (r: seq<int>)
    ensures |r| == |s| && forall i :: 0 <= i < |s| ==> r[i] == s[i].partition
  {
    seq(|s|, i requires 0 <= i < |s| => s[i].partition)
  }

  /** `[node['partition'] for node in sorted_nodes]`: the partition of each node, in global order. */
  function OrderedAssignments(full: seq<Node>): (r: seq<int>)
    ensures |r| == |full|
  {
    Partitions(SortByOrder(full))
  }

  /**
   * `get_frame_start_and_count(full_graph, partition, trailing_frame_count)`:
   * the positions, in the order-sorted full graph, of the nodes of
   * `partition`, and the gaps between consecutive positions, the last one
   * measured to `len(sorted_nodes) + trailing`.
   */
  function FrameStartAndCount(full: seq<Node>, partition: int, trailing: int): (r: (seq<nat>, seq<int>))
    ensures |r.0| == |r.1|
    ensures forall k, l :: 0 <= k < l < |r.0| ==> r.0[k] < r.0[l]
  {
    var assignments := OrderedAssignments(full);
    Windows(Positions(assignments, partition), |assignments| + trailing)
  }

  /** The starts are exactly the positions, in the order-sorted full graph, of the partition's nodes. */
  lemma FrameStarts(full: seq<Node>, partition: int, trailing: int)
    ensures var starts := FrameStartAndCount(full, partition, trailing).0;
      && (forall k :: 0 <= k < |starts| ==> starts[k] < |full| && OrderedAssignments(full)[starts[k]] == partition)
      && (forall i :: 0 <= i < |full| && OrderedAssignments(full)[i] == partition ==> i in starts)
  {
  }

  /** The starts, each paired with the gap to the next start, the last one to `end`. */
  function Windows(starts: seq<nat>, end: int): (r: (seq<nat>, seq<int>))
    ensures |r.0| == |r.1|
  {
    (starts, Gaps(starts + [end]))
  }

  /**
   * Windows `[starts[k], starts[k] + counts[k])` that follow one another
   * without gap or overlap, the last one ending at `end`; so the counts add
   * up to the frames from the first start to `end`.
   */
  ghost predicate Abutting(starts: seq<nat>, counts: seq<int>, end: int) {
    && |counts| == |starts|
    && (forall k {:trigger counts[k]} :: 0 <= k < |starts| - 1 ==> starts[k] + counts[k] == starts[k + 1])
    && (|starts| > 0 ==> starts[|starts| - 1] + counts[|starts| - 1] == end)
    && Sum(counts) == if starts == [] then 0 else end - starts[0]
  }

  /** Every window lasts at least one frame, and the last one at least `1 + trailing`. */
  ghost predicate Lasting(counts: seq<int>, trailing: int) {
    && (forall k :: 0 <= k < |counts| ==> counts[k] >= 1)
    && (|counts| > 0 ==> counts[|counts| - 1] >= 1 + trailing)
  }

  /** The windows of the partition's positions in the full graph. */
  lemma FrameShape(full: seq<Node>, partition: int, trailing: int) returns (starts: seq<nat>)
    ensures FrameStartAndCount(full, partition, trailing) == Windows(starts, |full| + trailing)
    ensures forall k, l :: 0 <= k < l < |starts| ==> starts[k] < starts[l]
    ensures forall k :: 0 <= k < |starts| ==> starts[k] < |full|
  {
    starts := Positions(OrderedAssignments(full), partition);
  }

  /** The windows cut out of a strictly increasing list of starts and an end point. */
  lemma {:induction false} WindowsOf(starts: seq<nat>, end: int)
    requires forall k, l :: 0 <= k < l < |starts| ==> starts[k] < starts[l]
    ensures Abutting(Windows(starts, end).0, Windows(starts, end).1, end)
    ensures forall k :: 0 <= k < |starts| - 1 ==> Windows(starts, end).1[k] >= 1
  {
    var extended := starts + [end];
    var counts := Gaps(extended);
    assert forall k :: 0 <= k < |starts| ==> extended[k] == starts[k];
    assert extended[|starts|] == end;
    SumGaps(extended);
    if starts == [] {
      assert counts == [];
    }
    forall k | 0 <= k < |starts| - 1 ensures counts[k] >= 1 {
      assert extended[k] + counts[k] == extended[k + 1];
      assert starts[k] < starts[k + 1];
    }
  }

  /** Starts below `n` and an end `trailing >= 0` frames after `n` cut windows of at least one frame. */
  lemma PositiveWindowsOf(starts: seq<nat>, n: int, trailing: int)
    requires forall k, l :: 0 <= k < l < |starts| ==> starts[k] < starts[l]
    requires forall k :: 0 <= k < |starts| ==> starts[k] < n
    requires trailing >= 0
    ensures Lasting(Windows(starts, n + trailing).1, trailing)
  {
    WindowsOf(starts, n + trailing);
  }

  /**
   * Each window ends where the next one starts, and the last one ends
   * `trailing` frames after the last node of the full graph; so the counts
   * add up to the frames from the first window's start to the last one's end.
   */
  lemma WindowsAbut(full: seq<Node>, partition: int, trailing: int)
    ensures var r := FrameStartAndCount(full, partition, trailing);
      Abutting(r.0, r.1, |full| + trailing)
  {
    var starts := FrameShape(full, partition, trailing);
    AbuttingWindows(FrameStartAndCount(full, partition, trailing), starts, |full| + trailing);
  }

  lemma AbuttingWindows(r: (seq<nat>, seq<int>), starts: seq<nat>, end: int)
    requires forall k, l :: 0 <= k < l < |starts| ==> starts[k] < starts[l]
    requires r == Windows(starts, end)
    ensures Abutting(r.0, r.1, end)
  {
    WindowsOf(starts, end);
  }

  /**
   * With a non-negative trailing count every window is at least one frame
   * long and the last one at least `1 + trailing`.
   */
  lemma WindowsPositive(full: seq<Node>, partition: int, trailing: int)
    requires trailing >= 0
    ensures Lasting(FrameStartAndCount(full, partition, trailing).1, trailing)
  {
    var starts := FrameShape(full, partition, trailing);
    PositiveWindowsOf(starts, |full|, trailing);
  }

  /** A partition gets no window exactly when none of the full graph's nodes belongs to it. */
  lemma NoWindowsIffEmpty(full: seq<Node>, partition: int, trailing: int)
    ensures FrameStartAndCount(full, partition, trailing).0 == [] <==> forall n :: n in full ==> n.partition != partition
  {
    FrameStarts(full, partition, trailing);
    var sorted := SortByOrder(full);
    var starts := FrameStartAndCount(full, partition, trailing).0;
    forall n | n in full && n.partition == partition ensures starts != [] {
      assert n in multiset(sorted);
      var i :| 0 <= i < |sorted| && sorted[i] == n;
      assert OrderedAssignments(full)[i] == partition;
    }
    if starts != [] {
      assert sorted[starts[0]] in multiset(full);
    }
  }
}
