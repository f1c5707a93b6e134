/**
 * The frame tiling of `join_images` in genGraphStream.py. Each partition
 * has its sorted list of frame images; the assignment list says, entry by
 * entry, which partition moves to its next frame. `pframe` holds each
 * partition's frame pointer and `tiles` the image shown for each partition;
 * every successful lookup produces one joined output frame (a montage of
 * the current tiles).
 */
module JoinImages {
  import opened Wrappers
  import opened PyStr
  import opened Lists
  import opened Readers

  /** The tile shown for a partition before its first frame. */
  const Blank: string := "frame_blank.png"

  /**
   * The state of the loop: the pointers `pframe`, the `tiles`, the tile
   * lists handed to each montage call (output frame `f` is `montages[f]`,
   * so `f == |montages|`) and the `Missing frame` reports.
   */
  datatype Tiling = Tiling(pframe: seq<int>, tiles: seq<string>, montages: seq<seq<string>>, missing: seq<(int, int)>)

  /** One pointer and one tile per partition; a pointer never drops below -1. */
  ghost predicate Fits(t: Tiling, frames: seq<seq<string>>) {
    |t.pframe| == |frames| && |t.tiles| == |frames| &&
    forall p :: 0 <= p < |frames| ==> t.pframe[p] >= -1
  }

  /** `pframe = [-1] * partitions_num`, `tiles = ['frame_blank.png'] * partitions_num`. */
  function Start(frames: seq<seq<string>>): (t: Tiling)
    ensures Fits(t, frames)
  {
    Tiling(seq(|frames|, _ => -1), seq(|frames|, _ => Blank), [], [])
  }

  /**
   * One entry `a` of the assignment list. -1 is skipped. An index outside
   * `pframe` raises IndexError in the `try` and again in the `except`
   * clause's message. A negative index inside `pframe` reaches `frames[a]`,
   * a dictionary without negative keys: KeyError, which nothing catches.
   * Otherwise the pointer advances; a frame at the pointer becomes the tile
   * and a montage is made, and no frame there is reported entries missing.
   */
  function Place(t: Tiling, frames: seq<seq<string>>, a: int): (r: Result<Tiling>)
    requires Fits(t, frames)
    ensures r.Ok? ==> Fits(r.value, frames)
  {
    var parts := |frames|;
    if a == -1 then Ok(t)
    else if a < -parts || parts <= a then Err(IndexError)
    else if a < 0 then Err(KeyError)
    else
      var n := t.pframe[a] + 1;
      if n < |frames[a]| then
        var tiles := t.tiles[a := frames[a][n]];
        Ok(Tiling(t.pframe[a := n], tiles, t.montages + [tiles], t.missing))
      else
        Ok(Tiling(t.pframe[a := n], t.tiles, t.montages, t.missing + [(a, n)]))
  }

  /** The loop over the assignment list `entries`. */
  function PlaceAll(frames: seq<seq<string>>, entries: seq<int>): (r: Result<Tiling>)
    ensures r.Ok? ==> Fits(r.value, frames)
  {
    if entries == [] then Ok(Start(frames))
    else
      var prev := PlaceAll(frames, entries[..|entries| - 1]);
      if prev.Err? then prev else Place(prev.value, frames, entries[|entries| - 1])
  }

  /** `frames_max`: the length of the longest frame list. */
  function FramesMax(frames: seq<seq<string>>): (m: nat)
    ensures forall p :: 0 <= p < |frames| ==> |frames[p]| <= m
    ensures frames != [] ==> exists p :: 0 <= p < |frames| && |frames[p]| == m
    ensures frames == [] ==> m == 0
  {
    if frames == [] then 0
    else
      var m := FramesMax(frames[..|frames| - 1]);
      if m < |frames[|frames| - 1]| then |frames[|frames| - 1]| else m
  }

  /** The assignment list: `[0] * frames_max` for a single partition, otherwise the file's integers. */
  function Assignments(frames: seq<seq<string>>, assignmentLines: seq<string>): Result<seq<int>> {
    if |frames| == 1 then Ok(seq(FramesMax(frames), _ => 0)) else ReadOrder(assignmentLines)
  }

  /** `join_images` for the frame lists of partitions `0 .. |frames| - 1`. */
  function Joined(frames: seq<seq<string>>, assignmentLines: seq<string>): Result<Tiling> {
    var entries := Assignments(frames, assignmentLines);
    if entries.Err? then Err(entries.error) else PlaceAll(frames, entries.value)
  }

  // ------------------------------------------------------------ one entry

  /** -1 entries are skipped. */
  lemma PlaceSkips(t: Tiling, frames: seq<seq<string>>)
    requires Fits(t, frames)
    ensures Place(t, frames, -1) == Ok(t)
  {
  }

  /** An entry fails exactly when it is neither -1 nor a partition number. */
  lemma PlaceFails(t: Tiling, frames: seq<seq<string>>, a: int)
    requires Fits(t, frames)
    ensures Place(t, frames, a).Err? <==> a != -1 && !(0 <= a < |frames|)
    ensures Place(t, frames, a).Err? ==>
      Place(t, frames, a).error == (if -|frames| <= a < 0 then KeyError else IndexError)
  {
  }

  /**
   * An entry `a` for a partition advances only `pframe[a]`, and changes
   * only `tiles[a]`. It is a hit exactly when partition `a` still has a
   * frame at the new pointer: then that frame becomes tile `a` and the new
   * tiles make one more montage; on a miss no tile changes, no montage is
   * made and the pair (a, pointer) is reported.
   */
  lemma PlaceChangesOnlyItsPartition(t: Tiling, frames: seq<seq<string>>, a: int)
    requires Fits(t, frames) && 0 <= a < |frames|
    ensures var r := Place(t, frames, a);
      && r.Ok?
      && (forall q :: 0 <= q < |frames| && q != a ==>
            r.value.pframe[q] == t.pframe[q] && r.value.tiles[q] == t.tiles[q])
      && r.value.pframe[a] == t.pframe[a] + 1
      && (r.value.pframe[a] < |frames[a]| ==>
            && r.value.tiles[a] == frames[a][r.value.pframe[a]]
            && r.value.montages == t.montages + [r.value.tiles]
            && r.value.missing == t.missing)
      && (r.value.pframe[a] >= |frames[a]| ==>
            && r.value.tiles == t.tiles
            && r.value.montages == t.montages
            && r.value.missing == t.missing + [(a, r.value.pframe[a])])
  {
  }

  // ------------------------------------------------------------ the whole list

  lemma PlaceAllSnoc(frames: seq<seq<string>>, entries: seq<int>, k: nat)
    requires k < |entries|
    ensures PlaceAll(frames, entries[..k + 1]) ==
      (if PlaceAll(frames, entries[..k]).Err? then PlaceAll(frames, entries[..k])
       else Place(PlaceAll(frames, entries[..k]).value, frames, entries[k]))
  {
    assert entries[..k + 1][..k] == entries[..k];
  }

  /** Once an entry has failed, the loop has failed with its error. */
  lemma {:induction false} PlaceAllStops(frames: seq<seq<string>>, entries: seq<int>, k: nat)
    requires k <= |entries| && PlaceAll(frames, entries[..k]).Err?
    ensures PlaceAll(frames, entries) == PlaceAll(frames, entries[..k])
    decreases |entries| - k
  {
    if k < |entries| {
      PlaceAllSnoc(frames, entries, k);
      PlaceAllStops(frames, entries, k + 1);
    } else {
      assert entries[..k] == entries;
    }
  }

  /** An entry that is neither -1 nor a partition number. */
  predicate Bad(frames: seq<seq<string>>, a: int) {
    a != -1 && !(0 <= a < |frames|)
  }

  /** The loop completes exactly when every entry is -1 or a partition number. */
  lemma {:induction false} PlaceAllOk(frames: seq<seq<string>>, entries: seq<int>)
    ensures PlaceAll(frames, entries).Ok? <==> forall i :: 0 <= i < |entries| ==> !Bad(frames, entries[i])
  {
    if entries != [] {
      var init := entries[..|entries| - 1];
      PlaceAllOk(frames, init);
      if PlaceAll(frames, init).Ok? {
        PlaceFails(PlaceAll(frames, init).value, frames, entries[|entries| - 1]);
      }
      if forall i :: 0 <= i < |entries| ==> !Bad(frames, entries[i]) {
        forall i | 0 <= i < |init| ensures !Bad(frames, init[i]) {
          assert init[i] == entries[i];
        }
      } else if PlaceAll(frames, init).Ok? {
        forall i | 0 <= i < |entries| - 1 ensures !Bad(frames, entries[i]) {
          assert init[i] == entries[i];
        }
      }
    }
  }

  /** How often `p` occurs in `entries`. */
  function Uses(entries: seq<int>, p: int): nat {
    if entries == [] then 0 else Uses(entries[..|entries| - 1], p) + (if entries[|entries| - 1] == p then 1 else 0)
  }

  /** The frames partition `p` has shown after `u` of its entries: never more than it has. */
  function Shown(frames: seq<string>, u: nat): nat {
    if u < |frames| then u else |frames|
  }

  /** The tile of a partition that has had `u` entries. */
  function TileAfter(frames: seq<string>, u: nat): string {
    if Shown(frames, u) == 0 then Blank else frames[Shown(frames, u) - 1]
  }

  /** The output frames made so far, counted over partitions `0 .. n - 1`. */
  function ShownUpTo(frames: seq<seq<string>>, entries: seq<int>, n: nat): nat
    requires n <= |frames|
  {
    if n == 0 then 0 else ShownUpTo(frames, entries, n - 1) + Shown(frames[n - 1], Uses(entries, n - 1))
  }

  lemma {:induction false} ShownNone(frames: seq<seq<string>>, n: nat)
    requires n <= |frames|
    ensures ShownUpTo(frames, [], n) == 0
  {
    if n > 0 {
      ShownNone(frames, n - 1);
    }
  }

  /** One more entry for partition `a` shows one more frame exactly when `a` had one left. */
  lemma {:induction false} ShownStep(frames: seq<seq<string>>, init: seq<int>, entries: seq<int>, a: int, n: nat)
    requires -1 <= a < |frames| && n <= |frames|
    requires forall p :: Uses(entries, p) == Uses(init, p) + (if a == p then 1 else 0)
    ensures ShownUpTo(frames, entries, n) ==
      ShownUpTo(frames, init, n) + (if 0 <= a < n && Uses(init, a) < |frames[a]| then 1 else 0)
  {
    if n > 0 {
      ShownStep(frames, init, entries, a, n - 1);
    }
  }

  lemma UsesLast(entries: seq<int>)
    requires entries != []
    ensures forall p ::
              Uses(entries, p) == Uses(entries[..|entries| - 1], p) + (if entries[|entries| - 1] == p then 1 else 0)
  {
  }

  /** After the entries, the pointer of each partition is its number of entries minus one. */
  lemma {:induction false} PlaceAllPointers(frames: seq<seq<string>>, entries: seq<int>)
    requires PlaceAll(frames, entries).Ok?
    ensures forall p :: 0 <= p < |frames| ==> PlaceAll(frames, entries).value.pframe[p] == Uses(entries, p) - 1
  {
    if entries != [] {
      var init := entries[..|entries| - 1];
      var a := entries[|entries| - 1];
      PlaceAllPointers(frames, init);
      UsesLast(entries);
      if a != -1 {
        PlaceChangesOnlyItsPartition(PlaceAll(frames, init).value, frames, a);
      }
    }
  }

  /** After the entries, each tile is the last frame its partition reached, blank before the first. */
  lemma {:induction false} PlaceAllTiles(frames: seq<seq<string>>, entries: seq<int>)
    requires PlaceAll(frames, entries).Ok?
    ensures forall p :: 0 <= p < |frames| ==>
      PlaceAll(frames, entries).value.tiles[p] == TileAfter(frames[p], Uses(entries, p))
  {
    if entries != [] {
      var init := entries[..|entries| - 1];
      var a := entries[|entries| - 1];
      PlaceAllTiles(frames, init);
      PlaceAllPointers(frames, init);
      UsesLast(entries);
      if a != -1 {
        PlaceChangesOnlyItsPartition(PlaceAll(frames, init).value, frames, a);
      }
    }
  }

  /** After the entries, the number of output frames is the number of frames shown, partition by partition. */
  lemma {:induction false} PlaceAllCount(frames: seq<seq<string>>, entries: seq<int>)
    requires PlaceAll(frames, entries).Ok?
    ensures |PlaceAll(frames, entries).value.montages| == ShownUpTo(frames, entries, |frames|)
  {
    if entries == [] {
      ShownNone(frames, |frames|);
    } else {
      var init := entries[..|entries| - 1];
      var a := entries[|entries| - 1];
      PlaceAllCount(frames, init);
      PlaceAllPointers(frames, init);
      UsesLast(entries);
      ShownStep(frames, init, entries, a, |frames|);
      if a != -1 {
        PlaceChangesOnlyItsPartition(PlaceAll(frames, init).value, frames, a);
      }
    }
  }

  /**
   * Once partition `p` has run out of frames, every later entry for it is
   * reported missing: an entry misses exactly when its partition's earlier
   * entries have already shown all of its frames.
   */
  lemma EntryMisses(frames: seq<seq<string>>, entries: seq<int>, k: nat)
    requires k < |entries| && 0 <= entries[k] < |frames|
    requires PlaceAll(frames, entries[..k + 1]).Ok?
    ensures PlaceAll(frames, entries[..k]).Ok?
    ensures var before := PlaceAll(frames, entries[..k]).value;
      var after := PlaceAll(frames, entries[..k + 1]).value;
      (|after.missing| == |before.missing| + 1 <==> Uses(entries[..k], entries[k]) >= |frames[entries[k]]|) &&
      (|after.montages| == |before.montages| + 1 <==> Uses(entries[..k], entries[k]) < |frames[entries[k]]|)
  {
    PlaceAllSnoc(frames, entries, k);
    PlaceAllPointers(frames, entries[..k]);
    PlaceChangesOnlyItsPartition(PlaceAll(frames, entries[..k]).value, frames, entries[k]);
  }

  /** The counts only grow along the list. */
  lemma {:induction false} UsesGrow(entries: seq<int>, i: nat, j: nat, p: int)
    requires i <= j <= |entries|
    ensures Uses(entries[..i], p) <= Uses(entries[..j], p)
    decreases j - i
  {
    if i < j {
      UsesGrow(entries, i, j - 1, p);
      assert entries[..j][..j - 1] == entries[..j - 1];
    }
  }

  lemma UsesSnoc(entries: seq<int>, i: nat, p: int)
    requires i < |entries|
    ensures Uses(entries[..i + 1], p) == Uses(entries[..i], p) + (if entries[i] == p then 1 else 0)
  {
    assert entries[..i + 1][..i] == entries[..i];
  }

  /** Entry `k` was reported missing. */
  ghost predicate Missed(frames: seq<seq<string>>, entries: seq<int>, k: nat)
    requires k < |entries|
  {
    PlaceAll(frames, entries[..k]).Ok? && PlaceAll(frames, entries[..k + 1]).Ok? &&
    |PlaceAll(frames, entries[..k + 1]).value.missing| == |PlaceAll(frames, entries[..k]).value.missing| + 1
  }

  /** A partition that missed once misses at each of its later entries. */
  lemma MissesPersist(frames: seq<seq<string>>, entries: seq<int>, i: nat, j: nat)
    requires i < j < |entries| && entries[i] == entries[j] && 0 <= entries[i] < |frames|
    requires Missed(frames, entries, i)
    requires PlaceAll(frames, entries[..j + 1]).Ok?
    ensures Missed(frames, entries, j)
  {
    EntryMisses(frames, entries, i);
    UsesSnoc(entries, i, entries[i]);
    UsesGrow(entries, i + 1, j, entries[i]);
    EntryMisses(frames, entries, j);
  }

  /** `[0] * k`. */
  function Zeros(k: nat): seq<int> {
    seq(k, _ => 0)
  }

  /**
   * With a single partition the assignments are `[0] * frames_max`: each
   * frame of the partition is shown once, in order, each in an output
   * frame of its own, and none is missing.
   */
  lemma {:induction false} SinglePartitionShowsAll(frames: seq<seq<string>>, k: nat)
    requires |frames| == 1 && k <= |frames[0]|
    ensures var r := PlaceAll(frames, Zeros(k));
      && r.Ok?
      && r.value.pframe == [k - 1]
      && r.value.montages == seq(k, j requires 0 <= j < k => [frames[0][j]])
      && r.value.missing == []
  {
    if k > 0 {
      SinglePartitionShowsAll(frames, k - 1);
      assert Zeros(k)[..k - 1] == Zeros(k - 1);
      var t := PlaceAll(frames, Zeros(k - 1)).value;
      var ms := seq(k, j requires 0 <= j < k => [frames[0][j]]);
      assert t.tiles[0 := frames[0][k - 1]] == [frames[0][k - 1]];
      assert ms == t.montages + [[frames[0][k - 1]]];
    }
  }

  /** `join_images` with a single partition: all of its frames, in order, and no assignment file read. */
  lemma SinglePartition(frames: seq<seq<string>>, assignmentLines: seq<string>)
    requires |frames| == 1
    ensures var r := Joined(frames, assignmentLines);
      && r.Ok?
      && r.value.montages == seq(|frames[0]|, j requires 0 <= j < |frames[0]| => [frames[0][j]])
      && r.value.missing == []
  {
    assert FramesMax(frames) == |frames[0]|;
    SinglePartitionShowsAll(frames, |frames[0]|);
  }

  // ------------------------------------------------------------ the loops

  /** `frames_max`, as the loop over the partitions finds it. */
  method LongestFrameList(frames: seq<seq<string>>) returns (framesMax: nat)
    ensures framesMax == FramesMax(frames)
  {
    framesMax := 0;
    var p := 0;
    while p < |frames|
      invariant p <= |frames|
      invariant framesMax == FramesMax(frames[..p])
    {
      assert frames[..p + 1][..p] == frames[..p];
      var total := |frames[p]|;
      if framesMax < total {
        framesMax := total;
      }
      p := p + 1;
    }
    assert frames[..p] == frames;
  }

  /** One pass of the loop of `join_images`, on the arrays `pframe` and `tiles`. */
  method PlaceEntry(pframe: array<int>, tiles: array<string>, frames: seq<seq<string>>, a: int,
                    montages0: seq<seq<string>>, missing0: seq<(int, int)>)
    returns (failed: Option<Exc>, montages: seq<seq<string>>, missing: seq<(int, int)>)
    requires Fits(Tiling(pframe[..], tiles[..], montages0, missing0), frames)
    modifies pframe, tiles
    ensures var r := Place(Tiling(old(pframe[..]), old(tiles[..]), montages0, missing0), frames, a);
      && (r.Err? ==> failed == Some(r.error))
      && (r.Ok? ==> failed.None? && r.value == Tiling(pframe[..], tiles[..], montages, missing))
  {
    var parts := pframe.Length;
    montages, missing := montages0, missing0;
    if a == -1 {
      return None, montages, missing;
    }
    if a < -parts || parts <= a {
      return Some(IndexError), montages, missing;
    }
    if a < 0 {
      pframe[a + parts] := pframe[a + parts] + 1;
      return Some(KeyError), montages, missing;
    }
    pframe[a] := pframe[a] + 1;
    if pframe[a] < |frames[a]| {
      tiles[a] := frames[a][pframe[a]];
      montages := montages + [tiles[..]];
    } else {
      missing := missing + [(a, pframe[a])];
    }
    failed := None;
  }

  /** `join_images`: the pointers and tiles are arrays updated in place, entry by entry. */
  method JoinImages(frames: seq<seq<string>>, assignmentLines: seq<string>) returns (r: Result<Tiling>)
    ensures r == Joined(frames, assignmentLines)
  {
    var framesMax := LongestFrameList(frames);
    var parts := |frames|;
    var pframe := new int[parts](_ => -1);
    var tiles := new string[parts](_ => Blank);
    var assignments: seq<int>;
    if parts == 1 {
      assignments := seq(framesMax, _ => 0);
    } else {
      var read := ReadOrder(assignmentLines);
      if read.Err? {
        return Err(read.error);
      }
      assignments := read.value;
    }
    var montages: seq<seq<string>> := [];
    var missing: seq<(int, int)> := [];
    assert pframe[..] == Start(frames).pframe && tiles[..] == Start(frames).tiles;
    var k := 0;
    while k < |assignments|
      invariant k <= |assignments|
      invariant PlaceAll(frames, assignments[..k]) == Ok(Tiling(pframe[..], tiles[..], montages, missing))
    {
      PlaceAllSnoc(frames, assignments, k);
      var failed;
      failed, montages, missing := PlaceEntry(pframe, tiles, frames, assignments[k], montages, missing);
      if failed.Some? {
        PlaceAllStops(frames, assignments, k + 1);
        return Err(failed.value);
      }
      k := k + 1;
    }
    assert assignments[..k] == assignments;
    return Ok(Tiling(pframe[..], tiles[..], montages, missing));
  }
}
