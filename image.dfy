/**
 * The arithmetic of image.py: padding each partition's frame list with
 * blank frames so that all lists end together (`combine_images_into_tiles`),
 * placing the tiles of one output frame on an SVG grid (`create_svg_tiles`)
 * and choosing the frames exported as PDF (`create_pdfs_from_tiles`).
 */
module Image {
  import opened Wrappers
  import opened PyStr

  // ------------------------------------------------------------ frame padding

  /** `math.ceil(0.5 * fps)` for an integer `fps`. */
  function CeilHalf(fps: int): (r: int)
    ensures 2 * r - 1 <= fps <= 2 * r
  {
    (fps + 1) / 2
  }

  /** `[x] * n`: empty when `n` is not positive. */
  function Repeat<T>(x: T, n: int): (r: seq<T>)
    ensures |r| == (if n > 0 then n else 0)
    ensures forall k :: 0 <= k < |r| ==> r[k] == x
  {
    seq(if n > 0 then n else 0, _ => x)
  }

  /** `max([len(frames[p]) for p in frames])`, which raises ValueError when there is no partition. */
  function MaxFrameCount(frames: seq<seq<string>>): (r: Result<nat>)
    ensures r.Err? <==> frames == []
    ensures r.Err? ==> r.error == ValueError
    ensures r.Ok? ==> forall p :: 0 <= p < |frames| ==> |frames[p]| <= r.value
    ensures r.Ok? ==> exists p :: 0 <= p < |frames| && |frames[p]| == r.value
  {
    if frames == [] then Err(ValueError)
    else
      var last := |frames[|frames| - 1]|;
      var init := MaxFrameCount(frames[..|frames| - 1]);
      if init.Err? || init.value < last then Ok(last) else init
  }

  /** `frames[p] = [blank] * (frame_count - len(frames[p])) + frames[p]` for every partition. */
  function Padded(frames: seq<seq<string>>, blank: string, frameCount: int): (r: seq<seq<string>>)
    ensures |r| == |frames|
    ensures forall p :: 0 <= p < |r| ==> |r[p]| >= frameCount && |r[p]| >= |frames[p]|
  {
    seq(|frames|, p requires 0 <= p < |frames| => Repeat(blank, frameCount - |frames[p]|) + frames[p])
  }

  /** The loop over the partitions that pads each frame list in place. */
  method PadFrames(frames: seq<seq<string>>, blank: string, frameCount: int) returns (padded: seq<seq<string>>)
    ensures padded == Padded(frames, blank, frameCount)
  {
    padded := frames;
    var p := 0;
    while p < |padded|
      invariant p <= |padded| == |frames|
      invariant forall q :: 0 <= q < p ==> padded[q] == Padded(frames, blank, frameCount)[q]
      invariant forall q :: p <= q < |padded| ==> padded[q] == frames[q]
    {
      padded := padded[p := Repeat(blank, frameCount - |padded[p]|) + padded[p]];
      p := p + 1;
    }
  }

  /**
   * After padding with `frame_count = max_len + ceil(0.5 * fps)` and a
   * non-negative `fps`: every list has `frame_count` entries; it ends with
   * the partition's own frames, in order, after blanks only; every
   * partition gets at least `ceil(0.5 * fps)` leading blanks, and a longest
   * partition exactly that many.
   */
  lemma PaddingShape(frames: seq<seq<string>>, blank: string, fps: int, p: nat)
    requires MaxFrameCount(frames).Ok? && fps >= 0 && p < |frames|
    ensures var frameCount := MaxFrameCount(frames).value + CeilHalf(fps);
      var padded := Padded(frames, blank, frameCount);
      var lead := frameCount - |frames[p]|;
      && |padded[p]| == frameCount
      && lead >= CeilHalf(fps)
      && padded[p][lead..] == frames[p]
      && (forall k :: 0 <= k < lead ==> padded[p][k] == blank)
      && (|frames[p]| == MaxFrameCount(frames).value ==> lead == CeilHalf(fps))
  {
    var m, c := MaxFrameCount(frames).value, CeilHalf(fps);
    assert 0 <= c && |frames[p]| <= m;
    var lead := m + c - |frames[p]|;
    PaddedRow(frames, blank, m + c, p);
  }

  lemma PaddedRow(frames: seq<seq<string>>, blank: string, frameCount: int, p: nat)
    requires p < |frames| && |frames[p]| <= frameCount
    ensures var row := Padded(frames, blank, frameCount)[p];
      var lead := frameCount - |frames[p]|;
      && |row| == frameCount
      && row[lead..] == frames[p]
      && forall k :: 0 <= k < lead ==> row[k] == blank
  {
    var lead := frameCount - |frames[p]|;
    var row := Repeat(blank, lead) + frames[p];
    assert Padded(frames, blank, frameCount)[p] == row;
    assert row[lead..] == frames[p];
    forall k | 0 <= k < lead ensures row[k] == blank {
      assert row[k] == Repeat(blank, lead)[k];
    }
  }

  /** The tiles of one output frame: the PNG tile of each partition and the SVG tile composed for it. */
  datatype JoinedFrame = JoinedFrame(tiles: seq<string>, svgTiles: seq<string>)

  /** The index of the last `c` in `s`, or -1. */
  function LastIndex(s: string, c: char): (i: int)
    ensures -1 <= i < |s|
    ensures i >= 0 ==> s[i] == c
    ensures forall k :: i < k < |s| ==> s[k] != c
  {
    if s == [] then -1
    else if s[|s| - 1] == c then |s| - 1
    else LastIndex(s[..|s| - 1], c)
  }

  /**
   * `os.path.splitext(path)[0]`: `path` without its extension, which runs
   * from the last `.` of the file name, unless the name has nothing but
   * dots before it.
   */
  function DropExtension(path: string): string {
    var sep := LastIndex(path, '/');
    var dot := LastIndex(path, '.');
    if dot > sep && NonDotBetween(path, sep + 1, dot) then path[..dot] else path
  }

  /** The scan of the file name's leading dots: some character in `path[i..dot]` is not a `.`. */
  function NonDotBetween(path: string, i: nat, dot: nat): bool
    requires dot <= |path|
    decreases dot - i
  {
    if i >= dot then false
    else if path[i] != '.' then true
    else NonDotBetween(path, i + 1, dot)
  }

  lemma {:induction false} NonDotBetweenAt(path: string, i: nat, dot: nat, k: nat)
    requires i <= k < dot <= |path| && path[k] != '.'
    ensures NonDotBetween(path, i, dot)
    decreases k - i
  {
    if path[i] == '.' {
      NonDotBetweenAt(path, i + 1, dot, k);
    }
  }

  /** A `.png` file name loses exactly its `.png`. */
  lemma DropPng(root: string)
    requires exists k :: LastIndex(root, '/') < k < |root| && root[k] != '.'
    ensures DropExtension(root + ".png") == root
  {
    var path := root + ".png";
    var k :| LastIndex(root, '/') < k < |root| && root[k] != '.';
    LastIndexAt(path, '.', |root|);
    LastIndexAppend(root, ".png", '/');
    assert path[k] == root[k];
    NonDotBetweenAt(path, LastIndex(path, '/') + 1, |root|, k);
    assert path[..|root|] == root;
  }

  lemma {:induction false} LastIndexAt(s: string, c: char, i: nat)
    requires i < |s| && s[i] == c
    requires forall k :: i < k < |s| ==> s[k] != c
    ensures LastIndex(s, c) == i
    decreases |s|
  {
    if i < |s| - 1 {
      LastIndexAt(s[..|s| - 1], c, i);
    }
  }

  lemma {:induction false} LastIndexAppend(s: string, t: string, c: char)
    requires c !in t
    ensures LastIndex(s + t, c) == LastIndex(s, c)
  {
    if t != [] {
      var init := t[..|t| - 1];
      assert t == init + [t[|t| - 1]];
      assert (s + t)[..|s + t| - 1] == s + init;
      LastIndexAppend(s, init, c);
    } else {
      assert s + t == s;
    }
  }

  /** The SVG tile of a PNG tile: its `.svg` twin when that file exists, `''` otherwise. */
  function SvgTile(tile: string, existing: set<string>): (r: string)
    ensures r == "" || r in existing
  {
    var svg := DropExtension(tile) + ".svg";
    if svg in existing then svg else ""
  }

  /** Output frame `f`: tile `f` of each padded list, and the SVG tiles that exist. */
  function FrameAt(padded: seq<seq<string>>, f: nat, existing: set<string>): (r: JoinedFrame)
    requires forall p :: 0 <= p < |padded| ==> f < |padded[p]|
    ensures |r.tiles| == |r.svgTiles| == |padded|
  {
    var tiles := seq(|padded|, p requires 0 <= p < |padded| => padded[p][f]);
    JoinedFrame(tiles, seq(|tiles|, k requires 0 <= k < |tiles| => SvgTile(tiles[k], existing)))
  }

  /**
   * The output frames of `combine_images_into_tiles`: `frame_count` of
   * them, after padding. `existing` is the set of SVG files on disk.
   */
  function Combined(frames: seq<seq<string>>, fps: int, blank: string, existing: set<string>): (r: Result<seq<JoinedFrame>>)
    ensures r.Err? <==> frames == []
  {
    var longest := MaxFrameCount(frames);
    if longest.Err? then Err(longest.error)
    else
      var frameCount := longest.value + CeilHalf(fps);
      var padded := Padded(frames, blank, frameCount);
      Ok(JoinedFrames(padded, frameCount, existing))
  }

  /** Output frames `0` to `frameCount - 1` of the padded lists. */
  function JoinedFrames(padded: seq<seq<string>>, frameCount: int, existing: set<string>): (r: seq<JoinedFrame>)
    requires forall p :: 0 <= p < |padded| ==> |padded[p]| >= frameCount
    ensures |r| == if frameCount > 0 then frameCount else 0
    ensures forall f :: 0 <= f < |r| ==> r[f] == FrameAt(padded, f, existing)
  {
    seq(if frameCount > 0 then frameCount else 0, f requires 0 <= f < frameCount => FrameAt(padded, f, existing))
  }

  /**
   * Every partition's frames end together: in output frame `f`, partition
   * `p` shows its frame `f - lead` once `f` reaches its `lead` blanks, and
   * the blank frame before that. The `IndexError` branch of the loop is
   * never taken.
   */
  lemma CombinedTiles(frames: seq<seq<string>>, fps: int, blank: string, existing: set<string>, f: nat, p: nat)
    requires frames != [] && fps >= 0 && p < |frames|
    ensures var r := Combined(frames, fps, blank, existing).value;
      var frameCount := MaxFrameCount(frames).value + CeilHalf(fps);
      var lead := frameCount - |frames[p]|;
      && |r| == frameCount
      && (f < frameCount ==> r[f].tiles[p] == if f < lead then blank else frames[p][f - lead])
  {
    var frameCount := MaxFrameCount(frames).value + CeilHalf(fps);
    var padded := Padded(frames, blank, frameCount);
    if f < frameCount {
      PaddedAt(frames, blank, fps, p, f);
      assert Combined(frames, fps, blank, existing).value == JoinedFrames(padded, frameCount, existing);
    }
  }

  lemma PaddedAt(frames: seq<seq<string>>, blank: string, fps: int, p: nat, f: nat)
    requires frames != [] && fps >= 0 && p < |frames|
    requires f < MaxFrameCount(frames).value + CeilHalf(fps)
    ensures var frameCount := MaxFrameCount(frames).value + CeilHalf(fps);
      var lead := frameCount - |frames[p]|;
      Padded(frames, blank, frameCount)[p][f] == if f < lead then blank else frames[p][f - lead]
  {
    PaddingShape(frames, blank, fps, p);
    var frameCount := MaxFrameCount(frames).value + CeilHalf(fps);
    var lead := frameCount - |frames[p]|;
    var padded := Padded(frames, blank, frameCount);
    if lead <= f {
      assert padded[p][lead..][f - lead] == padded[p][f];
    }
  }

  /** The frame loop of `combine_images_into_tiles`, one output frame per pass. */
  method CombineImagesIntoTiles(frames: seq<seq<string>>, fps: int, blank: string, existing: set<string>)
    returns (r: Result<seq<JoinedFrame>>)
    ensures r == Combined(frames, fps, blank, existing)
  {
    var longest := MaxFrameCount(frames);
    if longest.Err? {
      return Err(longest.error);
    }
    var frameCount := longest.value + CeilHalf(fps);
    var padded := PadFrames(frames, blank, frameCount);
    var joined := JoinFrames(padded, frameCount, existing);
    return Ok(joined);
  }

  /** The loop over the output frames, once the lists are padded. */
  method JoinFrames(padded: seq<seq<string>>, frameCount: int, existing: set<string>) returns (joined: seq<JoinedFrame>)
    requires forall p :: 0 <= p < |padded| ==> |padded[p]| >= frameCount
    ensures joined == JoinedFrames(padded, frameCount, existing)
  {
    joined := [];
    var f := 0;
    while f < frameCount
      invariant f == 0 || f <= frameCount
      invariant joined == JoinedFrames(padded, f, existing)
    {
      var tiles := seq(|padded|, p requires 0 <= p < |padded| => padded[p][f]);
      var svgTiles := seq(|tiles|, k requires 0 <= k < |tiles| => SvgTile(tiles[k], existing));
      JoinedFramesNext(padded, f, existing);
      joined := joined + [JoinedFrame(tiles, svgTiles)];
      f := f + 1;
    }
  }

  lemma JoinedFramesNext(padded: seq<seq<string>>, f: nat, existing: set<string>)
    requires forall p :: 0 <= p < |padded| ==> |padded[p]| > f
    ensures JoinedFrames(padded, f + 1, existing) == JoinedFrames(padded, f, existing) + [FrameAt(padded, f, existing)]
  {
  }

  // ------------------------------------------------------------ SVG grid

  /** One element of the composed SVG: a tile moved to its offset, or a silver grid line. */
  datatype SvgObject =
    | Tile(file: string, x: int, y: int)
    | GridLine(x1: int, y1: int, x2: int, y2: int, stroke: int)

  datatype Figure = Figure(width: int, height: int, objects: seq<SvgObject>)

  /** `math.ceil(n / columns)`. */
  function Rows(n: nat, columns: nat): (r: nat)
    requires columns >= 1
    ensures r * columns >= n && (r == 0 || (r - 1) * columns < n)
  {
    (n + columns - 1) / columns
  }

  /** The tile placed for index `i`: column `i mod columns`, row `i div columns`. */
  function PlaceTile(tile: string, i: nat, width: int, height: int, columns: nat): SvgObject
    requires columns >= 1
  {
    Tile(tile, (i % columns) * width, (i / columns) * height)
  }

  /** The tiles placed for the first `n` indices; empty names are not placed. */
  function Placed(svgTiles: seq<string>, width: int, height: int, columns: nat, n: nat): (r: seq<SvgObject>)
    requires columns >= 1 && n <= |svgTiles|
    ensures forall o :: o in r ==> o.Tile? && o.file != ""
  {
    if n == 0 then []
    else
      Placed(svgTiles, width, height, columns, n - 1) +
      (if svgTiles[n - 1] != "" then [PlaceTile(svgTiles[n - 1], n - 1, width, height, columns)] else [])
  }

  /** The `columns + 1` vertical lines and `rows + 1` horizontal lines of the grid. */
  function Grid(width: int, height: int, border: int, columns: nat, rows: nat): (r: seq<SvgObject>)
    ensures |r| == columns + 1 + rows + 1
  {
    seq(columns + 1, col => GridLine(width * col, 0, width * col, height * rows, border)) +
    seq(rows + 1, row => GridLine(0, height * row, width * columns, height * row, border))
  }

  /** The figure `create_svg_tiles` saves. */
  function SvgFigure(svgTiles: seq<string>, width: int, height: int, border: int, columns: nat): Figure
    requires columns >= 1
  {
    var rows := Rows(|svgTiles|, columns);
    Figure(width * columns, height * rows,
           Placed(svgTiles, width, height, columns, |svgTiles|) + Grid(width, height, border, columns, rows))
  }

  /** Distinct indices get distinct cells. */
  lemma CellsDistinct(i: nat, j: nat, columns: nat)
    requires columns >= 1 && i != j
    ensures (i / columns, i % columns) != (j / columns, j % columns)
  {
  }

  /** Every index below `n` has its cell inside the `rows` x `columns` grid. */
  lemma CellInGrid(i: nat, n: nat, columns: nat)
    requires columns >= 1 && i < n
    ensures i / columns < Rows(n, columns) && i % columns < columns
  {
    var rows := Rows(n, columns);
    if i / columns >= rows {
      MulMonotone(rows, i / columns, columns);
    }
  }

  lemma MulMonotone(a: nat, b: nat, c: nat)
    requires a <= b
    ensures a * c <= b * c
  {
  }

  /**
   * The placed tiles are exactly the non-empty names, each at its cell's
   * offset, in index order; with positive cell sizes no two share an offset.
   */
  lemma {:induction false} PlacedTiles(svgTiles: seq<string>, width: int, height: int, columns: nat, n: nat, i: nat)
    requires columns >= 1 && n <= |svgTiles| && i < n
    ensures svgTiles[i] != "" ==> PlaceTile(svgTiles[i], i, width, height, columns) in Placed(svgTiles, width, height, columns, n)
    ensures svgTiles[i] == "" ==> forall o :: o in Placed(svgTiles, width, height, columns, n) ==> o.file != svgTiles[i]
  {
    if i < n - 1 {
      PlacedTiles(svgTiles, width, height, columns, n - 1, i);
    }
  }

  /** With positive cell sizes, tiles at different indices are placed at different offsets. */
  lemma OffsetsDistinct(i: nat, j: nat, width: int, height: int, columns: nat)
    requires columns >= 1 && i != j && width > 0 && height > 0
    ensures var a := PlaceTile("", i, width, height, columns);
      var b := PlaceTile("", j, width, height, columns);
      (a.x, a.y) != (b.x, b.y)
  {
    CellsDistinct(i, j, columns);
    if i % columns != j % columns {
      assert (i % columns) * width != (j % columns) * width;
    } else {
      assert (i / columns) * height != (j / columns) * height;
    }
  }

  /** The three loops of `create_svg_tiles`: tiles, vertical lines, horizontal lines. */
  method CreateSvgTiles(svgTiles: seq<string>, width: int, height: int, border: int, columns: nat)
    returns (fig: Figure)
    requires columns >= 1
    ensures fig == SvgFigure(svgTiles, width, height, border, columns)
  {
    var rows := Rows(|svgTiles|, columns);
    var objects: seq<SvgObject> := [];
    var index := 0;
    while index < |svgTiles|
      invariant index <= |svgTiles|
      invariant objects == Placed(svgTiles, width, height, columns, index)
    {
      var tile := svgTiles[index];
      if tile != "" {
        var row := index / columns;
        var col := index % columns;
        objects := objects + [Tile(tile, col * width, row * height)];
      }
      index := index + 1;
    }
    ghost var placed := objects;
    var col := 0;
    while col < columns + 1
      invariant col <= columns + 1
      invariant objects == placed + seq(col, c => GridLine(width * c, 0, width * c, height * rows, border))
    {
      objects := objects + [GridLine(width * col, 0, width * col, height * rows, border)];
      col := col + 1;
    }
    ghost var verticals := objects;
    var row := 0;
    while row < rows + 1
      invariant row <= rows + 1
      invariant objects == verticals + seq(row, r => GridLine(0, height * r, width * columns, height * r, border))
    {
      objects := objects + [GridLine(0, height * row, width * columns, height * row, border)];
      row := row + 1;
    }
    fig := Figure(width * columns, height * rows, objects);
  }

  // ------------------------------------------------------------ PDF selection

  /** `list(reversed(s))`. */
  function Reversed<T>(s: seq<T>): (r: seq<T>)
    ensures |r| == |s| && forall k :: 0 <= k < |s| ==> r[k] == s[|s| - 1 - k]
  {
    if s == [] then [] else [s[|s| - 1]] + Reversed(s[..|s| - 1])
  }

  /** `s[0::step]` for a positive step: the elements at the multiples of `step`. */
  function EveryStep<T>(s: seq<T>, step: nat): (r: seq<T>)
    requires step >= 1
    ensures |r| == Rows(|s|, step)
    ensures forall k :: 0 <= k < |r| ==> k * step < |s| && r[k] == s[k * step]
  {
    StepsInRange(|s|, step);
    seq(Rows(|s|, step), k requires 0 <= k < Rows(|s|, step) => s[k * step])
  }

  lemma StepsInRange(n: nat, step: nat)
    requires step >= 1
    ensures forall k: nat :: k < Rows(n, step) ==> k * step < n
  {
    forall k: nat | k < Rows(n, step) {
      StepInRange(k, n, step);
    }
  }

  /** An index below `ceil(n / step)` times `step` stays below `n`. */
  lemma StepInRange(k: nat, n: nat, step: nat)
    requires step >= 1 && k < Rows(n, step)
    ensures k * step < n
  {
    MulMonotone(k, Rows(n, step) - 1, step);
  }

  /**
   * `list(reversed(files))[0::step]`: slicing with step 0 raises
   * ValueError, and a negative step from index 0 yields at most index 0.
   */
  function PdfSelection<T>(files: seq<T>, step: int): Result<seq<T>> {
    if step == 0 then Err(ValueError)
    else if step > 0 then Ok(EveryStep(Reversed(files), step))
    else Ok(if files == [] then [] else [files[|files| - 1]])
  }

  /**
   * The selection fails exactly for step 0; otherwise it starts with the
   * last frame, and a positive step takes every step-th frame counting back
   * from the last: `ceil(n / step)` frames.
   */
  lemma PdfSelectionFrames<T>(files: seq<T>, step: int)
    ensures PdfSelection(files, step).Err? <==> step == 0
    ensures PdfSelection(files, step).Err? ==> PdfSelection(files, step).error == ValueError
    ensures step != 0 && files != [] ==>
      |PdfSelection(files, step).value| >= 1 && PdfSelection(files, step).value[0] == files[|files| - 1]
    ensures step > 0 ==>
      var r := PdfSelection(files, step).value;
      |r| == Rows(|files|, step) &&
      forall k :: 0 <= k < |r| ==> k * step < |files| && r[k] == files[|files| - 1 - k * step]
  {
    if step > 0 && files != [] {
      assert |EveryStep(Reversed(files), step)| >= 1;
    }
  }
}
