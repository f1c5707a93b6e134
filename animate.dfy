/**
 * The Java animator's own logic: the command-line tokenizer and option
 * defaults of `main`, the pie-chart slice count of `nodeAttributeChanged`
 * and the edge style of `edgeAdded`.
 */
module Animate {
  import opened Wrappers
  import opened PyStr
  import Color

  // ------------------------------------------------------------ tokenizer

  /** `Character.isLetter`, for ASCII letters. */
  predicate IsLetter(c: char) {
    ('a' <= c <= 'z') || ('A' <= c <= 'Z')
  }

  /** A token that opens an option: `-` followed by a letter. */
  predicate Opens(a: string) {
    |a| >= 2 && a[0] == '-' && IsLetter(a[1])
  }

  /** A token on which `charAt(0)` or `charAt(1)` throws: the empty token and a lone `-`. */
  predicate Breaks(a: string) {
    a == [] || a == "-"
  }

  /** The option name an opening token introduces. */
  function Key(a: string): string
    requires |a| >= 1
  {
    a[1..]
  }

  /**
   * The tokenizer state: the option map and the option whose value list
   * is being filled; or the loop has returned after `Illegal parameter
   * usage`; or a token threw.
   */
  datatype Scan =
    | Scanning(params: map<string, seq<string>>, current: Option<string>)
    | Illegal
    | Crashed

  /** The option being filled is always in the map. */
  predicate Tracked(s: Scan) {
    s.Scanning? && s.current.Some? ==> s.current.value in s.params
  }

  /** One pass of the loop over `args`. */
  function Step(s: Scan, a: string): (r: Scan)
    requires Tracked(s)
    ensures Tracked(r)
  {
    if !s.Scanning? then s
    else if Breaks(a) then Crashed
    else if Opens(a) then Scanning(s.params[Key(a) := []], Some(Key(a)))
    else if s.current.Some? then
      var k := s.current.value;
      Scanning(s.params[k := s.params[k] + [a]], s.current)
    else Illegal
  }

  /** The state after the loop has seen all of `args`. */
  function Tokenize(args: seq<string>): (r: Scan)
    ensures Tracked(r)
  {
    if args == [] then Scanning(map[], None)
    else Step(Tokenize(args[..|args| - 1]), args[|args| - 1])
  }

  lemma TokenizeSnoc(args: seq<string>, a: string)
    ensures Tokenize(args + [a]) == Step(Tokenize(args), a)
  {
    assert (args + [a])[..|args|] == args;
  }

  /** The loop of `main` that fills the option map. */
  method ParseArgs(args: seq<string>) returns (r: Scan)
    ensures r == Tokenize(args)
  {
    var params: map<string, seq<string>> := map[];
    var current: Option<string> := None;
    var i := 0;
    while i < |args|
      invariant i <= |args|
      invariant Tokenize(args[..i]) == Scanning(params, current)
    {
      var a := args[i];
      assert args[..i + 1][..i] == args[..i];
      if a == [] || (a[0] == '-' && |a| < 2) {
        // charAt(0) or charAt(1) throws before the length check could run
        TokenizeStops(args, i + 1);
        return Crashed;
      }
      if a[0] == '-' && IsLetter(a[1]) {
        current := Some(a[1..]);
        params := params[a[1..] := []];
      } else if current.Some? {
        params := params[current.value := params[current.value] + [a]];
      } else {
        TokenizeStops(args, i + 1);
        return Illegal;
      }
      i := i + 1;
    }
    assert args[..i] == args;
    return Scanning(params, current);
  }

  /** Once the loop has returned or thrown, later tokens change nothing. */
  lemma {:induction false} TokenizeStops(args: seq<string>, n: nat)
    requires n <= |args| && !Tokenize(args[..n]).Scanning?
    ensures Tokenize(args) == Tokenize(args[..n])
    decreases |args| - n
  {
    if n < |args| {
      assert args[..n + 1][..n] == args[..n];
      TokenizeStops(args, n + 1);
    } else {
      assert args[..n] == args;
    }
  }

  /**
   * The loop runs to the end exactly when no token throws and the first
   * token opens an option; it returns with `Illegal parameter usage`
   * exactly when the first token is a plain value.
   */
  lemma {:induction false} TokenizeOutcome(args: seq<string>)
    ensures Tokenize(args).Scanning? <==>
      (forall i :: 0 <= i < |args| ==> !Breaks(args[i])) && (args == [] || Opens(args[0]))
    ensures Tokenize(args).Illegal? <==> args != [] && !Breaks(args[0]) && !Opens(args[0])
    ensures Tokenize(args).Scanning? && args != [] ==> Tokenize(args).current.Some?
  {
    if args != [] {
      var init := args[..|args| - 1];
      TokenizeOutcome(init);
      if init != [] {
        assert init[0] == args[0];
      }
    }
  }

  /** The tokens from `i` up to the next opening token: the values of the option at `i - 1`. */
  function Run(args: seq<string>, i: nat): (r: seq<string>)
    requires i <= |args|
    ensures forall k :: 0 <= k < |r| ==> !Opens(r[k])
    decreases |args| - i
  {
    if i == |args| || Opens(args[i]) then [] else [args[i]] + Run(args, i + 1)
  }

  /** The index of the last occurrence of token `t`. */
  function LastIndex(args: seq<string>, t: string): (r: Option<nat>)
    ensures r.Some? ==> r.value < |args| && args[r.value] == t
    ensures r.Some? ==> forall j :: r.value < j < |args| ==> args[j] != t
    ensures r.None? <==> t !in args
  {
    if args == [] then None
    else if args[|args| - 1] == t then Some(|args| - 1)
    else
      var r := LastIndex(args[..|args| - 1], t);
      assert t in args <==> t in args[..|args| - 1] || t == args[|args| - 1] by {
        assert args == args[..|args| - 1] + [args[|args| - 1]];
      }
      r
  }

  /** The index of the last opening token. */
  function LastOpen(args: seq<string>): (r: Option<nat>)
    ensures r.Some? ==> r.value < |args| && Opens(args[r.value])
    ensures r.Some? ==> forall j :: r.value < j < |args| ==> !Opens(args[j])
    ensures r.None? ==> forall j :: 0 <= j < |args| ==> !Opens(args[j])
  {
    if args == [] then None
    else if Opens(args[|args| - 1]) then Some(|args| - 1)
    else LastOpen(args[..|args| - 1])
  }

  lemma {:induction false} RunPastOpen(args: seq<string>, a: string, i: nat, j: nat)
    requires i <= j < |args| && Opens(args[j])
    ensures Run(args + [a], i) == Run(args, i)
    decreases j - i
  {
    if i < j && !Opens(args[i]) {
      RunPastOpen(args, a, i + 1, j);
    }
  }

  lemma {:induction false} RunExtends(args: seq<string>, a: string, i: nat)
    requires i <= |args| && !Opens(a)
    requires forall j :: i <= j < |args| ==> !Opens(args[j])
    ensures Run(args + [a], i) == Run(args, i) + [a]
    decreases |args| - i
  {
    if i < |args| {
      RunExtends(args, a, i + 1);
    } else {
      assert Run(args + [a], i + 1) == [];
    }
  }

  lemma {:induction false} RunPastAppended(args: seq<string>, a: string, i: nat)
    requires i <= |args| && Opens(a)
    ensures Run(args + [a], i) == Run(args, i)
    decreases |args| - i
  {
    if i < |args| && !Opens(args[i]) {
      RunPastAppended(args, a, i + 1);
    }
  }

  /** An opening token is `-` followed by its option name. */
  lemma OpensKey(a: string)
    requires Opens(a)
    ensures a == "-" + Key(a)
  {
  }

  /** The option being filled is the one opened last. */
  lemma {:induction false} TokenizeCurrent(args: seq<string>)
    requires Tokenize(args).Scanning?
    ensures LastOpen(args).None? ==> Tokenize(args).current.None?
    ensures LastOpen(args).Some? ==> Tokenize(args).current == Some(Key(args[LastOpen(args).value]))
  {
    if args != [] {
      TokenizeCurrent(args[..|args| - 1]);
    }
  }

  /** The last opening token is the last occurrence of itself. */
  lemma LastOpenIsLast(args: seq<string>, k: string)
    requires LastOpen(args).Some? && args[LastOpen(args).value] == "-" + k
    ensures LastIndex(args, "-" + k) == LastOpen(args)
  {
    var l := LastOpen(args).value;
    assert args[l] in args;
  }

  lemma LastIndexSnoc(args: seq<string>, a: string, t: string)
    ensures LastIndex(args + [a], t) == if a == t then Some(|args|) else LastIndex(args, t)
  {
    assert (args + [a])[..|args|] == args;
  }

  /** What option `k` holds, by the reference definition: present once opened, with the values after its last opening. */
  predicate Holds(args: seq<string>, p: map<string, seq<string>>, k: string) {
    && (k in p <==> "-" + k in args && Opens("-" + k))
    && (k in p ==> p[k] == Run(args, LastIndex(args, "-" + k).value + 1))
  }

  /** An opening token gives its option a fresh list and leaves the others alone. */
  lemma OpenStep(args: seq<string>, a: string, p: map<string, seq<string>>, k: string)
    requires Opens(a) && Holds(args, p, k)
    ensures Holds(args + [a], p[Key(a) := []], k)
  {
    LastIndexSnoc(args, a, "-" + k);
    OpensKey(a);
    if Key(a) != k && k in p {
      RunPastAppended(args, a, LastIndex(args, "-" + k).value + 1);
    }
  }

  /** A value joins the option opened last, and only that one. */
  lemma ValueStep(args: seq<string>, a: string, p: map<string, seq<string>>, k: string)
    requires !Opens(a) && LastOpen(args).Some? && Holds(args, p, k)
    requires Key(args[LastOpen(args).value]) in p
    ensures var c := Key(args[LastOpen(args).value]);
      Holds(args + [a], p[c := p[c] + [a]], k)
  {
    LastIndexSnoc(args, a, "-" + k);
    var l := LastOpen(args).value;
    OpensKey(args[l]);
    if Key(args[l]) == k {
      LastOpenIsLast(args, k);
      RunExtends(args, a, l + 1);
    } else if k in p {
      var last := LastIndex(args, "-" + k).value;
      assert last < l;
      RunPastOpen(args, a, last + 1, l);
    }
  }

  /**
   * When the loop runs to the end, option `k` is in the map exactly when
   * a token `-k` opened it, and its values are the tokens after the LAST
   * `-k` up to the next opening token: a repeated option starts afresh.
   */
  lemma {:induction false} TokenizeOption(args: seq<string>, k: string)
    requires Tokenize(args).Scanning?
    ensures k in Tokenize(args).params <==> "-" + k in args && Opens("-" + k)
    ensures k in Tokenize(args).params ==>
      Tokenize(args).params[k] == Run(args, LastIndex(args, "-" + k).value + 1)
  {
    if args != [] {
      var init := args[..|args| - 1];
      var a := args[|args| - 1];
      assert args == init + [a];
      TokenizeOption(init, k);
      TokenizeCurrent(init);
      var p := Tokenize(init).params;
      if Opens(a) {
        OpenStep(init, a, p, k);
      } else {
        ValueStep(init, a, p, k);
      }
    }
  }

  // ------------------------------------------------------------ options and defaults

  datatype LayoutType = LinLog | SpringBox
  datatype Mode = Images | DotFile

  /** What `main` hands to `AnimateDgs`, floats aside. */
  datatype Config = Config(
    dgs: string, out: string, dotfile: string,
    layout: LayoutType, mode: Mode, display: bool, seed: int,
    nodeSize: int, edgeSize: int, labelSize: int, width: int, height: int)

  /** How `main` ends. */
  datatype Ending =
    | IllegalUsage          // `Illegal parameter usage`, then return
    | UsageExit             // the usage text, then exit status 1
    | Crash(error: Exc)     // an uncaught throwable
    | Animate(config: Config)

  /** A missing `-dgs` or `-out`, or `-h`/`-help`, prints the usage text. */
  predicate Usage(params: map<string, seq<string>>) {
    "dgs" !in params || "out" !in params || "help" in params || "h" in params
  }

  /** `params.get(key).get(0)`: null for a missing key, and no element 0 in an empty list. */
  function First(params: map<string, seq<string>>, key: string): (r: Result<string>)
    ensures r.Ok? <==> key in params && |params[key]| > 0
    ensures r.Ok? ==> r.value == params[key][0]
    ensures r.Err? ==> r.error == (if key in params then IndexOutOfBoundsException else NullPointerException)
  {
    if key !in params then Err(NullPointerException)
    else if |params[key]| == 0 then Err(IndexOutOfBoundsException)
    else Ok(params[key][0])
  }

  /** `params.containsKey(key) && params.get(key).get(0).equals(word)`. */
  function Chosen(params: map<string, seq<string>>, key: string, word: string): (r: Result<bool>)
    ensures r.Err? <==> key in params && |params[key]| == 0
    ensures r.Ok? ==> (r.value <==> key in params && params[key][0] == word)
  {
    if key !in params then Ok(false)
    else var v := First(params, key); if v.Err? then Err(v.error) else Ok(v.value == word)
  }

  /** `Integer.parseInt` (32 bits) or `Long.parseLong` (64 bits), for ASCII digits. */
  function JavaParse(s: string, bits: nat): (r: Result<int>)
    ensures r.Ok? ==> -Half(bits) <= r.value < Half(bits)
    ensures r.Ok? <==> ParseSigned(s).Some? && -Half(bits) <= ParseSigned(s).value < Half(bits)
    ensures r.Ok? ==> r.value == ParseSigned(s).value
    ensures r.Err? ==> r.error == NumberFormatException
  {
    var v := ParseSigned(s);
    if v.Some? && -Half(bits) <= v.value < Half(bits) then Ok(v.value) else Err(NumberFormatException)
  }

  /** Half the number of values of a `bits`-bit integer: its range is `-Half(bits) .. Half(bits) - 1`. */
  function Half(bits: nat): int {
    if bits <= 1 then 1 else 2 * Half(bits - 1)
  }

  /** An integer option: its parsed first value when given, `default` otherwise. */
  function Number(params: map<string, seq<string>>, key: string, default: int, bits: nat): (r: Result<int>)
    ensures key !in params ==> r == Ok(default)
    ensures key in params && params[key] != [] ==> r == JavaParse(params[key][0], bits)
    ensures key in params && params[key] == [] ==> r == Err(IndexOutOfBoundsException)
  {
    if key !in params then Ok(default)
    else var v := First(params, key); if v.Err? then Err(v.error) else JavaParse(v.value, bits)
  }

  /** A float option: only reading its first value is modelled. */
  function FloatGiven(params: map<string, seq<string>>, key: string): (r: Outcome)
    ensures r.Fail? <==> key in params && |params[key]| == 0
  {
    if key in params && |params[key]| == 0 then Fail(IndexOutOfBoundsException) else Pass
  }

  /** The first failure among the float options, in the order `main` reads them. */
  function FloatsGiven(params: map<string, seq<string>>): Outcome {
    var keys := ["force", "a", "r", "theta"];
    if FloatGiven(params, keys[0]).Fail? then FloatGiven(params, keys[0])
    else if FloatGiven(params, keys[1]).Fail? then FloatGiven(params, keys[1])
    else if FloatGiven(params, keys[2]).Fail? then FloatGiven(params, keys[2])
    else FloatGiven(params, keys[3])
  }

  /** The integer options after the floats: node, edge and label sizes, then the image size. */
  function Sizes(params: map<string, seq<string>>): Result<seq<int>> {
    var nodeSize := Number(params, "node_size", 10, 32);
    var edgeSize := Number(params, "edge_size", 2, 32);
    var labelSize := Number(params, "label_size", 0, 32);
    var width := Number(params, "width", 1280, 32);
    var height := Number(params, "height", 720, 32);
    if nodeSize.Err? then Err(nodeSize.error)
    else if edgeSize.Err? then Err(edgeSize.error)
    else if labelSize.Err? then Err(labelSize.error)
    else if width.Err? then Err(width.error)
    else if height.Err? then Err(height.error)
    else Ok([nodeSize.value, edgeSize.value, labelSize.value, width.value, height.value])
  }

  /** Lines 263-351 of `main`, once the options are parsed; `now` is the clock's default seed. */
  function Configure(params: map<string, seq<string>>, now: int): Ending {
    if Usage(params) then UsageExit
    else
      var linlog := Chosen(params, "layout", "linlog");
      var dot := Chosen(params, "mode", "dot");
      var screen := Chosen(params, "display", "screen");
      var seed := Number(params, "seed", now, 64);
      if linlog.Err? then Crash(linlog.error)
      else if dot.Err? then Crash(dot.error)
      else if screen.Err? then Crash(screen.error)
      else if seed.Err? then Crash(seed.error)
      else if FloatsGiven(params).Fail? then Crash(FloatsGiven(params).error)
      else
        var sizes := Sizes(params);
        var dgs := First(params, "dgs");
        var out := First(params, "out");
        var dotfile := First(params, "dotfile");
        if sizes.Err? then Crash(sizes.error)
        else if dgs.Err? then Crash(dgs.error)
        else if out.Err? then Crash(out.error)
        else if dotfile.Err? then Crash(dotfile.error)
        else
          Animate(Config(dgs.value, out.value, dotfile.value,
                         if linlog.value then LinLog else SpringBox,
                         if dot.value then DotFile else Images,
                         screen.value, seed.value,
                         sizes.value[0], sizes.value[1], sizes.value[2], sizes.value[3], sizes.value[4]))
  }

  /** `main` as a whole. */
  function Main(args: seq<string>, now: int): Ending {
    var scan := Tokenize(args);
    match scan
    case Illegal => IllegalUsage
    case Crashed => Crash(StringIndexOutOfBoundsException)
    case Scanning(params, _) => Configure(params, now)
  }

  /** The usage text is printed, and the program exits, exactly in the cases named. */
  lemma UsageExactly(params: map<string, seq<string>>, now: int)
    ensures Configure(params, now).UsageExit? <==> Usage(params)
  {
  }

  /**
   * The output dot file is required whatever the mode: without `-dotfile`
   * the run never reaches the animation.
   */
  lemma DotfileRequired(params: map<string, seq<string>>, now: int)
    requires "dotfile" !in params
    ensures !Configure(params, now).Animate?
  {
  }

  /** An option followed by one value gets that value. */
  lemma OptionWithValue(args: seq<string>, k: string, v: string)
    requires Tokenize(args).Scanning? && Opens("-" + k) && !Breaks(v) && !Opens(v)
    ensures Tokenize(args + ["-" + k, v]) == Scanning(Tokenize(args).params[k := [v]], Some(k))
  {
    TokenizeSnoc(args, "-" + k);
    assert Key("-" + k) == k;
    TokenizeSnoc(args + ["-" + k], v);
    assert args + ["-" + k] + [v] == args + ["-" + k, v];
    assert [] + [v] == [v];
  }

  /** The three required options, each given once, fill the map with one value each. */
  lemma RequiredOnly(dgs: string, out: string, dotfile: string)
    requires !Breaks(dgs) && !Opens(dgs) && !Breaks(out) && !Opens(out) && !Breaks(dotfile) && !Opens(dotfile)
    ensures Tokenize(["-dgs", dgs, "-out", out, "-dotfile", dotfile]) ==
      Scanning(map["dgs" := [dgs], "out" := [out], "dotfile" := [dotfile]], Some("dotfile"))
  {
    assert "-" + "dgs" == "-dgs" && "-" + "out" == "-out" && "-" + "dotfile" == "-dotfile";
    OptionWithValue([], "dgs", dgs);
    assert [] + ["-dgs", dgs] == ["-dgs", dgs];
    OptionWithValue(["-dgs", dgs], "out", out);
    assert ["-dgs", dgs] + ["-out", out] == ["-dgs", dgs, "-out", out];
    OptionWithValue(["-dgs", dgs, "-out", out], "dotfile", dotfile);
    assert ["-dgs", dgs, "-out", out] + ["-dotfile", dotfile] == ["-dgs", dgs, "-out", out, "-dotfile", dotfile];
    assert "dgs"[0] != "out"[0] && |"dgs"| != |"dotfile"| && |"out"| != |"dotfile"|;
  }

  /** With only the required options, the defaults apply. */
  lemma ConfigureDefaults(dgs: string, out: string, dotfile: string, now: int)
    ensures Configure(map["dgs" := [dgs], "out" := [out], "dotfile" := [dotfile]], now) ==
      Animate(Config(dgs, out, dotfile, SpringBox, Images, false, now, 10, 2, 0, 1280, 720))
  {
    var params := map["dgs" := [dgs], "out" := [out], "dotfile" := [dotfile]];
    assert params.Keys == {"dgs", "out", "dotfile"};
    assert Sizes(params) == Ok([10, 2, 0, 1280, 720]);
  }

  /** The defaults: springbox, images, no display, the clock's seed, sizes 10, 2, 0 and 1280 x 720. */
  lemma Defaults(dgs: string, out: string, dotfile: string, now: int)
    requires !Breaks(dgs) && !Opens(dgs) && !Breaks(out) && !Opens(out) && !Breaks(dotfile) && !Opens(dotfile)
    ensures Main(["-dgs", dgs, "-out", out, "-dotfile", dotfile], now) ==
      Animate(Config(dgs, out, dotfile, SpringBox, Images, false, now, 10, 2, 0, 1280, 720))
  {
    RequiredOnly(dgs, out, dotfile);
    ConfigureDefaults(dgs, out, dotfile, now);
  }

  /** The layout is LinLog, and the mode dot, exactly when asked for by the first value. */
  lemma Choices(params: map<string, seq<string>>, now: int)
    requires Configure(params, now).Animate?
    ensures var c := Configure(params, now).config;
      && (c.layout == LinLog <==> "layout" in params && params["layout"][0] == "linlog")
      && (c.mode == DotFile <==> "mode" in params && params["mode"][0] == "dot")
      && (c.display <==> "display" in params && params["display"][0] == "screen")
      && c.dgs == params["dgs"][0] && c.out == params["out"][0] && c.dotfile == params["dotfile"][0]
  {
  }

  // ------------------------------------------------------------ pie charts and edge styles

  /** `s.length() - s.replace(",", "").length() + 1`: the number of pie slices for colour string `s`. */
  function PieCount(s: string): (r: int)
  {
    |s| - |RemoveChar(s, ',')| + 1
  }

  /** One slice per comma-separated piece: k commas give k + 1 slices. */
  lemma PieSlices(s: string)
    ensures PieCount(s) == Count(s, ',') + 1 == |SplitOn(s, ',')|
  {
    JoinSplitOn(s, ',');
    CountJoin(SplitOn(s, ','), ',');
  }

  /** A node's colour string, built by the colouring step, gets one slice per cluster it belongs to. */
  lemma SlicePerCluster(cc: Color.ClusterColours, clusters: seq<int>)
    requires Color.NodeColours(cc, clusters).Ok? && clusters != []
    requires forall i :: 0 <= i < |clusters| ==> ',' !in Strip(cc[clusters[i]].value, '"')
    ensures PieCount(Color.NodeColours(cc, clusters).value) == |clusters|
  {
    Color.NodeColoursSplit(cc, clusters);
    PieSlices(Color.NodeColours(cc, clusters).value);
  }

  /** The `ui.style` a node gets for colour string `v`. */
  function PieStyle(v: string): string {
    "shape: pie-chart; fill-color: " + v + ";"
  }

  /** `s.split(";")` in Java: trailing empty pieces are dropped, unless there is no `;` at all. */
  function JavaSplit(s: string, c: char): (r: seq<string>)
    ensures c !in s ==> r == [s]
  {
    if c !in s then [s] else DropTrailingEmpty(SplitOn(s, c))
  }

  function DropTrailingEmpty(parts: seq<string>): (r: seq<string>)
    ensures |r| <= |parts| && r == parts[..|r|]
    ensures r != [] ==> r[|r| - 1] != []
    ensures forall k :: |r| <= k < |parts| ==> parts[k] == []
  {
    if parts == [] || parts[|parts| - 1] != [] then parts
    else DropTrailingEmpty(parts[..|parts| - 1])
  }

  /**
   * The `ui.style` `edgeAdded` gives an edge whose source node has style
   * `style`: the second `;`-piece plus `;`; none when the node has no
   * style; and an array index out of bounds when there is no second piece.
   */
  function EdgeStyle(style: Option<string>): (r: Result<Option<string>>)
    ensures style.None? ==> r == Ok(None)
    ensures style.Some? ==> (r.Err? <==> |JavaSplit(style.value, ';')| < 2)
    ensures r.Err? ==> r.error == ArrayIndexOutOfBoundsException
  {
    if style.None? then Ok(None)
    else
      var parts := JavaSplit(style.value, ';');
      if |parts| < 2 then Err(ArrayIndexOutOfBoundsException) else Ok(Some(parts[1] + ";"))
  }

  /** The pieces of a pie-chart style: the shape, the fill colour and the empty rest. */
  lemma PieStylePieces(v: string)
    requires ';' !in v
    ensures SplitOn(PieStyle(v), ';') == ["shape: pie-chart", " fill-color: " + v, ""]
  {
    var parts := ["shape: pie-chart", " fill-color: " + v, ""];
    assert Join(";", parts[1..]) == " fill-color: " + v + ";" by {
      assert parts[1..][1..] == [""];
    }
    assert Join(";", parts) == PieStyle(v);
    SplitOnJoin(parts, ';');
  }

  /** An edge takes the fill colour of its source node's pie chart. */
  lemma EdgeTakesFillColour(v: string)
    requires ';' !in v
    ensures EdgeStyle(Some(PieStyle(v))) == Ok(Some(" fill-color: " + v + ";"))
  {
    var parts := ["shape: pie-chart", " fill-color: " + v, ""];
    PieStylePieces(v);
    assert PieStyle(v)[16] == ';';
    assert DropTrailingEmpty(parts) == parts[..2];
  }
}
