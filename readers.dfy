/**
 * The line readers of file_io.py (and their older copies in
 * genGraphStream.py): `read_order_file`, `read_assignments_file`,
 * `read_oslom2_tp_file` and `read_infomap_tree_file`. A file is the
 * sequence of its lines; `next(file)` on a file without lines raises
 * StopIteration, and the `while line:` loops stop at the end of the file
 * or at an empty line.
 */
module Readers {
  import opened Wrappers
  import opened PyStr
  import opened ODicts
  import opened Utils

  // -------------------------------------------- read_order_file, read_assignments_file

  /** `[int(l.strip()) for l in lines]` (`int` strips surrounding whitespace itself). */
  function ReadOrder(lines: seq<string>): (r: Result<seq<int>>)
    ensures r.Ok? ==> |r.value| == |lines|
    ensures r.Ok? ==> forall i :: 0 <= i < |lines| ==> ParseInt(lines[i]) == Some(r.value[i])
    ensures r.Err? ==> r.error == ValueError
  {
    if lines == [] then Ok([])
    else
      match ReadOrder(lines[..|lines| - 1])
      case Err(x) => Err(x)
      case Ok(init) =>
        match Int(lines[|lines| - 1])
        case Err(x) => Err(x)
        case Ok(v) => Ok(init + [v])
  }

  /** The order file is read exactly when every line holds an integer. */
  lemma {:induction false} ReadOrderOk(lines: seq<string>)
    ensures ReadOrder(lines).Ok? <==> forall i :: 0 <= i < |lines| ==> ParseInt(lines[i]).Some?
  {
    if lines != [] {
      var init := lines[..|lines| - 1];
      ReadOrderOk(init);
      if ReadOrder(init).Err? {
        var i :| 0 <= i < |init| && ParseInt(init[i]).None?;
        assert lines[i] == init[i];
      } else if ParseInt(lines[|lines| - 1]).Some? {
        forall i | 0 <= i < |lines| ensures ParseInt(lines[i]).Some? {
          if i < |init| {
            assert lines[i] == init[i];
          }
        }
      }
    }
  }

  /** `{i: int(l.strip()) for i, l in enumerate(lines)}`: the integer of each line, keyed by line number. */
  function ReadAssignments(lines: seq<string>): (r: Result<map<int, int>>)
    ensures r.Ok? <==> forall i :: 0 <= i < |lines| ==> ParseInt(lines[i]).Some?
    ensures r.Ok? ==> forall i :: i in r.value <==> 0 <= i < |lines|
    ensures r.Ok? ==> forall i :: 0 <= i < |lines| ==> ParseInt(lines[i]) == Some(r.value[i])
    ensures r.Err? ==> r.error == ValueError
  {
    ReadOrderOk(lines);
    match ReadOrder(lines)
    case Err(x) => Err(x)
    case Ok(vs) => Ok(map i | 0 <= i < |vs| :: vs[i])
  }

  // ------------------------------------------------------------ node dictionaries

  /** `node_dict[k]` of a `defaultdict(list)`: the list, or `[]` for a key never written. */
  function Get(d: ODict<Value, seq<int>>, k: Value): seq<int> {
    if k in d.m then d.m[k] else []
  }

  /** `node_dict[k].append(x)`. */
  function Append(d: ODict<Value, seq<int>>, k: Value, x: int): (r: ODict<Value, seq<int>>)
    requires d.Valid()
    ensures r.Valid()
    ensures Get(r, k) == Get(d, k) + [x]
    ensures forall j :: j != k ==> Get(r, j) == Get(d, j)
    ensures r.m.Keys == d.m.Keys + {k}
  {
    d.Put(k, Get(d, k) + [x])
  }

  /** The dictionary key of a node token: `to_int(token)` in file_io.py, the token itself in genGraphStream.py. */
  function NodeKey(tok: string, toInt: bool): Value {
    if toInt then ToInt(StrVal(tok)) else StrVal(tok)
  }

  /** How often `k` occurs in `s`. */
  function Occurrences(s: seq<Value>, k: Value): nat {
    if s == [] then 0 else Occurrences(s[..|s| - 1], k) + (if s[|s| - 1] == k then 1 else 0)
  }

  /** `n` copies of `x`. */
  function Repeat(x: int, n: nat): (r: seq<int>)
    ensures |r| == n && forall i :: 0 <= i < n ==> r[i] == x
  {
    if n == 0 then [] else Repeat(x, n - 1) + [x]
  }

  // ------------------------------------------------------------ read_oslom2_tp_file

  /** The tp reader's variables: `module_id` once a header set it, and `node_dict`. */
  datatype TpState = TpState(moduleId: Option<int>, nodes: ODict<Value, seq<int>>)

  function NodeKeys(toks: seq<string>, toInt: bool): (r: seq<Value>)
    ensures |r| == |toks| && forall i :: 0 <= i < |toks| ==> r[i] == NodeKey(toks[i], toInt)
  {
    seq(|toks|, i requires 0 <= i < |toks| => NodeKey(toks[i], toInt))
  }

  /**
   * `for node_id in nodes: node_dict[to_int(node_id)].append(module_id)`,
   * given the keys of the tokens of a member line: UnboundLocalError when
   * a token comes before any header set `module_id`.
   */
  function AddMembers(moduleId: Option<int>, d: ODict<Value, seq<int>>, keys: seq<Value>): (r: Result<ODict<Value, seq<int>>>)
    requires d.Valid()
    ensures r.Ok? <==> keys == [] || moduleId.Some?
    ensures r.Err? ==> r.error == UnboundLocalError
    ensures r.Ok? ==> r.value.Valid()
    ensures r.Ok? ==> forall k :: k in r.value.m <==> k in d.m || k in keys
  {
    if keys == [] then Ok(d)
    else
      match AddMembers(moduleId, d, keys[..|keys| - 1])
      case Err(x) => Err(x)
      case Ok(d') =>
        if moduleId.None? then Err(UnboundLocalError)
        else Ok(Append(d', keys[|keys| - 1], moduleId.value))
  }

  /**
   * Every token adds one entry, duplicates included, holding the module id
   * in effect: a key's list grows by as many copies of it as the key has
   * occurrences.
   */
  lemma {:induction false} AddMembersCounts(moduleId: int, d: ODict<Value, seq<int>>, keys: seq<Value>, k: Value)
    requires d.Valid()
    ensures AddMembers(Some(moduleId), d, keys).Ok?
    ensures Get(AddMembers(Some(moduleId), d, keys).value, k) == Get(d, k) + Repeat(moduleId, Occurrences(keys, k))
  {
    if keys != [] {
      var init := keys[..|keys| - 1];
      AddMembersCounts(moduleId, d, init, k);
      AddMembersStep(moduleId, d, keys, k);
      RepeatSnoc(Get(d, k), moduleId, Occurrences(init, k), keys[|keys| - 1] == k);
    }
  }

  lemma RepeatSnoc(a: seq<int>, x: int, n: nat, more: bool)
    ensures a + Repeat(x, n) + (if more then [x] else []) == a + Repeat(x, n + if more then 1 else 0)
  {
    if more {
      assert Repeat(x, n + 1) == Repeat(x, n) + [x];
    }
  }

  lemma AddMembersStep(moduleId: int, d: ODict<Value, seq<int>>, keys: seq<Value>, k: Value)
    requires d.Valid() && keys != []
    ensures AddMembers(Some(moduleId), d, keys[..|keys| - 1]).Ok?
    ensures Get(AddMembers(Some(moduleId), d, keys).value, k) ==
            Get(AddMembers(Some(moduleId), d, keys[..|keys| - 1]).value, k) + (if keys[|keys| - 1] == k then [moduleId] else [])
    ensures Occurrences(keys, k) == Occurrences(keys[..|keys| - 1], k) + (if keys[|keys| - 1] == k then 1 else 0)
  {
  }

  /**
   * One non-empty line: a `#` header sets `module_id` to its second token
   * plus one (IndexError without one, ValueError when it is no integer);
   * any other line lists members of the current module.
   */
  function TpLine(st: TpState, line: string, toInt: bool): (r: Result<TpState>)
    requires line != [] && st.nodes.Valid()
    ensures r.Ok? ==> r.value.nodes.Valid()
    ensures r.Ok? && line[0] == '#' ==>
      |Split(line)| >= 2 && ParseInt(Split(line)[1]).Some? &&
      r.value == TpState(Some(ParseInt(Split(line)[1]).value + 1), st.nodes)
    ensures r.Ok? && line[0] != '#' ==> r.value.moduleId == st.moduleId
  {
    if line[0] == '#' then
      var toks := Split(line);
      if |toks| < 2 then Err(IndexError)
      else
        match Int(toks[1])
        case Err(x) => Err(x)
        case Ok(v) => Ok(TpState(Some(v + 1), st.nodes))
    else
      match AddMembers(st.moduleId, st.nodes, NodeKeys(Split(line), toInt))
      case Err(x) => Err(x)
      case Ok(d) => Ok(TpState(st.moduleId, d))
  }

  /** The number of leading lines the `while line:` loop looks at: up to the end, or to the first empty line. */
  function LiveLength(lines: seq<string>): (n: nat)
    ensures n <= |lines|
    ensures forall i :: 0 <= i < n ==> lines[i] != []
    ensures n < |lines| ==> lines[n] == []
  {
    if lines == [] then 0
    else if lines[0] == [] then 0
    else 1 + LiveLength(lines[1..])
  }

  /** The tp reader's variables after the given non-empty lines, or the exception one raised. */
  function TpLines(lines: seq<string>, toInt: bool): (r: Result<TpState>)
    requires forall i :: 0 <= i < |lines| ==> lines[i] != []
    ensures r.Ok? ==> r.value.nodes.Valid()
  {
    if lines == [] then Ok(TpState(None, Empty()))
    else
      match TpLines(lines[..|lines| - 1], toInt)
      case Err(x) => Err(x)
      case Ok(st) => TpLine(st, lines[|lines| - 1], toInt)
  }

  /** What `read_oslom2_tp_file` returns for a file with the given lines. */
  function ReadOslom2TpSpec(lines: seq<string>, toInt: bool): (r: Result<ODict<Value, seq<int>>>)
    ensures lines == [] ==> r == Err(StopIteration)
  {
    if lines == [] then Err(StopIteration)
    else
      match TpLines(lines[..LiveLength(lines)], toInt)
      case Err(x) => Err(x)
      case Ok(st) => Ok(st.nodes)
  }

  /** `read_oslom2_tp_file(filepath)` (file_io.py, `toInt`) or its genGraphStream.py copy (not `toInt`). */
  method ReadOslom2Tp(lines: seq<string>, toInt: bool) returns (r: Result<ODict<Value, seq<int>>>)
    ensures r == ReadOslom2TpSpec(lines, toInt)
  {
    if |lines| == 0 {
      return Err(StopIteration);
    }
    var st := TpState(None, Empty());
    var i := 0;
    while i < |lines| && lines[i] != []
      invariant i <= LiveLength(lines)
      invariant TpLines(lines[..i], toInt) == Ok(st)
      decreases |lines| - i
    {
      assert lines[..i + 1][..i] == lines[..i];
      var next := TpReadLine(st, lines[i], toInt);
      if next.Err? {
        TpErrKept(lines, toInt, i + 1);
        return Err(next.error);
      }
      st := next.value;
      i := i + 1;
    }
    r := Ok(st.nodes);
  }

  /** The body of the `while line:` loop of `read_oslom2_tp_file`, for one non-empty line. */
  method TpReadLine(st: TpState, line: string, toInt: bool) returns (r: Result<TpState>)
    requires line != [] && st.nodes.Valid()
    ensures r == TpLine(st, line, toInt)
  {
    if line[0] == '#' {
      var toks := Split(line);
      if |toks| < 2 {
        return Err(IndexError);
      }
      var v := Int(toks[1]);
      if v.Err? {
        return Err(v.error);
      }
      r := Ok(TpState(Some(v.value + 1), st.nodes));
    } else {
      var d := TpMembers(st.moduleId, st.nodes, Split(line), toInt);
      if d.Err? {
        return Err(d.error);
      }
      r := Ok(TpState(st.moduleId, d.value));
    }
  }

  /** The inner `for` loop of `read_oslom2_tp_file`: each node of a member line joins the current module. */
  method TpMembers(moduleId: Option<int>, d: ODict<Value, seq<int>>, nodes: seq<string>, toInt: bool)
    returns (r: Result<ODict<Value, seq<int>>>)
    requires d.Valid()
    ensures r == AddMembers(moduleId, d, NodeKeys(nodes, toInt))
  {
    ghost var keys := NodeKeys(nodes, toInt);
    var nodeDict := d;
    for j := 0 to |nodes|
      invariant AddMembers(moduleId, d, keys[..j]) == Ok(nodeDict)
    {
      if moduleId.None? {
        return Err(UnboundLocalError);
      }
      AddMembersNext(moduleId.value, d, keys, j);
      nodeDict := Append(nodeDict, NodeKey(nodes[j], toInt), moduleId.value);
    }
    assert keys[..|nodes|] == keys;
    r := Ok(nodeDict);
  }

  lemma AddMembersNext(moduleId: int, d: ODict<Value, seq<int>>, keys: seq<Value>, j: nat)
    requires d.Valid() && j < |keys|
    ensures AddMembers(Some(moduleId), d, keys[..j]).Ok?
    ensures AddMembers(Some(moduleId), d, keys[..j + 1]) ==
      Ok(Append(AddMembers(Some(moduleId), d, keys[..j]).value, keys[j], moduleId))
  {
    assert keys[..j + 1][..j] == keys[..j];
  }

  /** An exception raised by the `i`-th line is the result of the whole read. */
  lemma TpErrKept(lines: seq<string>, toInt: bool, i: nat)
    requires 0 < i <= LiveLength(lines)
    requires TpLines(lines[..i], toInt).Err?
    ensures ReadOslom2TpSpec(lines, toInt) == Err(TpLines(lines[..i], toInt).error)
  {
    assert lines[..LiveLength(lines)][..i] == lines[..i];
    TpErrAfter(lines[..LiveLength(lines)], toInt, i);
  }

  lemma TpErrAfter(lines: seq<string>, toInt: bool, i: nat)
    requires forall k :: 0 <= k < |lines| ==> lines[k] != []
    requires i <= |lines| && TpLines(lines[..i], toInt).Err?
    ensures TpLines(lines, toInt) == TpLines(lines[..i], toInt)
    decreases |lines| - i
  {
    if i < |lines| {
      assert lines[..i + 1][..i] == lines[..i];
      TpErrAfter(lines, toInt, i + 1);
    } else {
      assert lines[..i] == lines;
    }
  }

  // ---------------------------------------------------------- read_infomap_tree_file

  /**
   * `''.join(path.split(":")[0:level])`: the first `level` parts of the
   * module path glued together without a separator.
   */
  function ModuleKey(path: string, level: int): string {
    Join("", PyTake(SplitOn(path, ':'), level))
  }

  /** Gluing the parts loses their boundaries: `1:23` and `12:3` are the same module at level 2. */
  lemma ModuleKeysCollide()
    ensures ModuleKey("1:23", 2) == ModuleKey("12:3", 2) == "123"
  {
    var three := SplitOnPrepend("", ':', '3');
    var s23 := SplitOnPrepend("3", ':', '2');
    var s_23 := SplitOnSeparator("23", ':');
    var s1_23 := SplitOnPrepend(":23", ':', '1');
    var s_3 := SplitOnSeparator("3", ':');
    var s2_3 := SplitOnPrepend(":3", ':', '2');
    var s12_3 := SplitOnPrepend("2:3", ':', '1');
    assert Join("", ["23"]) == "23" && Join("", ["3"]) == "3";
  }

  lemma SplitOnPrepend(s: string, c: char, x: char) returns (r: seq<string>)
    requires x != c
    ensures r == SplitOn([x] + s, c) == [[x] + SplitOn(s, c)[0]] + SplitOn(s, c)[1..]
  {
    assert ([x] + s)[1..] == s;
    r := SplitOn([x] + s, c);
  }

  lemma SplitOnSeparator(s: string, c: char) returns (r: seq<string>)
    ensures r == SplitOn([c] + s, c) == [[]] + SplitOn(s, c)
  {
    assert ([c] + s)[1..] == s;
    r := SplitOn([c] + s, c);
  }

  /** `module_ids.index(key)`: the first position of `key`. */
  function IndexOf(s: seq<string>, key: string): (i: nat)
    requires key in s
    ensures i < |s| && s[i] == key && forall j :: 0 <= j < i ==> s[j] != key
  {
    if s[0] == key then 0 else 1 + IndexOf(s[1..], key)
  }

  /** The tree reader's variables: the interned `module_ids` and `node_dict`. */
  datatype TreeState = TreeState(moduleIds: seq<string>, nodes: ODict<Value, seq<int>>)

  /**
   * A data line's effect, given its module key and node key: the key is
   * interned (appended to `module_ids` when new) and the node gets the
   * key's 1-based id. The file_io.py reader (`dedup`) appends the id only
   * when the node does not have it yet; the genGraphStream.py copy
   * appends it always.
   */
  function Intern(st: TreeState, key: string, node: Value, dedup: bool): (r: TreeState)
    requires st.nodes.Valid()
    ensures r.nodes.Valid()
    ensures key in r.moduleIds
    ensures key in st.moduleIds ==> r.moduleIds == st.moduleIds
    ensures key !in st.moduleIds ==> r.moduleIds == st.moduleIds + [key]
    ensures var id := IndexOf(r.moduleIds, key) + 1;
      && id in Get(r.nodes, node)
      && (dedup && id in Get(st.nodes, node) ==> r.nodes == st.nodes)
      && (!(dedup && id in Get(st.nodes, node)) ==> Get(r.nodes, node) == Get(st.nodes, node) + [id])
    ensures forall k :: k != node ==> Get(r.nodes, k) == Get(st.nodes, k)
  {
    var ids := if key in st.moduleIds then st.moduleIds else st.moduleIds + [key];
    var id := IndexOf(ids, key) + 1;
    if dedup && id in Get(st.nodes, node) then TreeState(ids, st.nodes)
    else TreeState(ids, Append(st.nodes, node, id))
  }

  /** A key keeps its id as later keys are interned: ids are handed out in order of first appearance. */
  lemma InternKeepsIds(st: TreeState, key: string, node: Value, dedup: bool, earlier: string)
    requires st.nodes.Valid() && earlier in st.moduleIds
    ensures IndexOf(Intern(st, key, node, dedup).moduleIds, earlier) == IndexOf(st.moduleIds, earlier)
  {
    var ids := Intern(st, key, node, dedup).moduleIds;
    var i := IndexOf(st.moduleIds, earlier);
    assert ids[i] == earlier;
  }

  /**
   * One non-empty line: a `#` line is a comment; any other line is
   * `path flow "name" ...`, whose module key is taken from the path and
   * whose node is the name without quotes (through `to_int` in file_io.py,
   * `toInt`). A line without tokens, or with fewer than three, raises
   * IndexError.
   */
  function TreeLine(st: TreeState, line: string, level: int, toInt: bool, dedup: bool): (r: Result<TreeState>)
    requires line != [] && st.nodes.Valid()
    ensures r.Ok? ==> r.value.nodes.Valid()
    ensures line[0] == '#' ==> r == Ok(st)
    ensures line[0] != '#' ==> (r.Ok? <==> |Split(line)| >= 3)
    ensures r.Err? ==> r.error == IndexError
  {
    if line[0] == '#' then Ok(st)
    else
      var values := Split(line);
      if values == [] then Err(IndexError)
      else
        var key := ModuleKey(values[0], level);
        if |values| < 3 then Err(IndexError)
        else Ok(Intern(st, key, NodeKey(Strip(values[2], '"'), toInt), dedup))
  }

  /** The tree reader's variables after the given non-empty lines, or the exception one raised. */
  function TreeLines(lines: seq<string>, level: int, toInt: bool, dedup: bool): (r: Result<TreeState>)
    requires forall i :: 0 <= i < |lines| ==> lines[i] != []
    ensures r.Ok? ==> r.value.nodes.Valid()
  {
    if lines == [] then Ok(TreeState([], Empty()))
    else
      match TreeLines(lines[..|lines| - 1], level, toInt, dedup)
      case Err(x) => Err(x)
      case Ok(st) => TreeLine(st, lines[|lines| - 1], level, toInt, dedup)
  }

  /** What `read_infomap_tree_file` returns for a file with the given lines. */
  function ReadInfomapTreeSpec(lines: seq<string>, level: int, toInt: bool, dedup: bool): (r: Result<ODict<Value, seq<int>>>)
    ensures lines == [] ==> r == Err(StopIteration)
  {
    if lines == [] then Err(StopIteration)
    else
      match TreeLines(lines[..LiveLength(lines)], level, toInt, dedup)
      case Err(x) => Err(x)
      case Ok(st) => Ok(st.nodes)
  }

  /**
   * `read_infomap_tree_file(filepath, level)`: file_io.py with `toInt` and
   * `dedup`, the genGraphStream.py copy with neither.
   */
  method ReadInfomapTree(lines: seq<string>, level: int, toInt: bool, dedup: bool)
    returns (r: Result<ODict<Value, seq<int>>>)
    ensures r == ReadInfomapTreeSpec(lines, level, toInt, dedup)
  {
    if |lines| == 0 {
      return Err(StopIteration);
    }
    var st := TreeState([], Empty());
    var i := 0;
    while i < |lines| && lines[i] != []
      invariant i <= LiveLength(lines)
      invariant TreeLines(lines[..i], level, toInt, dedup) == Ok(st)
      decreases |lines| - i
    {
      assert lines[..i + 1][..i] == lines[..i];
      var next := TreeReadLine(st, lines[i], level, toInt, dedup);
      if next.Err? {
        TreeErrKept(lines, level, toInt, dedup, i + 1);
        return Err(next.error);
      }
      st := next.value;
      i := i + 1;
    }
    r := Ok(st.nodes);
  }

  /** The body of the `while line:` loop of `read_infomap_tree_file`, for one non-empty line. */
  method TreeReadLine(st: TreeState, line: string, level: int, toInt: bool, dedup: bool) returns (r: Result<TreeState>)
    requires line != [] && st.nodes.Valid()
    ensures r == TreeLine(st, line, level, toInt, dedup)
  {
    if line[0] == '#' {
      return Ok(st);
    }
    var values := Split(line);
    if values == [] {
      return Err(IndexError);
    }
    var key := ModuleKey(values[0], level);
    if |values| < 3 {
      return Err(IndexError);
    }
    var next := TreeIntern(st, key, NodeKey(Strip(values[2], '"'), toInt), dedup);
    r := Ok(next);
  }

  /** The module key is interned, then the node gets the key's id. */
  method TreeIntern(st: TreeState, key: string, node: Value, dedup: bool) returns (r: TreeState)
    requires st.nodes.Valid()
    ensures r == Intern(st, key, node, dedup)
  {
    var moduleIds, nodeDict := st.moduleIds, st.nodes;
    if key !in moduleIds {
      moduleIds := moduleIds + [key];
    }
    var id := IndexOf(moduleIds, key) + 1;
    if !(dedup && id in Get(nodeDict, node)) {
      nodeDict := Append(nodeDict, node, id);
    }
    r := TreeState(moduleIds, nodeDict);
  }

  /** An exception raised by the `i`-th line is the result of the whole read. */
  lemma TreeErrKept(lines: seq<string>, level: int, toInt: bool, dedup: bool, i: nat)
    requires 0 < i <= LiveLength(lines)
    requires TreeLines(lines[..i], level, toInt, dedup).Err?
    ensures ReadInfomapTreeSpec(lines, level, toInt, dedup) == Err(TreeLines(lines[..i], level, toInt, dedup).error)
  {
    assert lines[..LiveLength(lines)][..i] == lines[..i];
    TreeErrAfter(lines[..LiveLength(lines)], level, toInt, dedup, i);
  }

  lemma TreeErrAfter(lines: seq<string>, level: int, toInt: bool, dedup: bool, i: nat)
    requires forall k :: 0 <= k < |lines| ==> lines[k] != []
    requires i <= |lines| && TreeLines(lines[..i], level, toInt, dedup).Err?
    ensures TreeLines(lines, level, toInt, dedup) == TreeLines(lines[..i], level, toInt, dedup)
    decreases |lines| - i
  {
    if i < |lines| {
      assert lines[..i + 1][..i] == lines[..i];
      TreeErrAfter(lines, level, toInt, dedup, i + 1);
    } else {
      assert lines[..i] == lines;
    }
  }

  /**
   * The reader's invariant: the interned keys are distinct, every id in a
   * node's list names one of them (1-based), and with `dedup` no list
   * holds an id twice.
   */
  ghost predicate Interned(st: TreeState, dedup: bool) {
    && Distinct(st.moduleIds)
    && (forall k, x :: k in st.nodes.m && x in st.nodes.m[k] ==> 1 <= x <= |st.moduleIds|)
    && (dedup ==> forall k :: k in st.nodes.m ==> Distinct(st.nodes.m[k]))
  }

  /** Interning one line keeps the invariant. */
  lemma InternInterned(st: TreeState, key: string, node: Value, dedup: bool)
    requires st.nodes.Valid() && Interned(st, dedup)
    ensures Interned(Intern(st, key, node, dedup), dedup)
  {
    InternDistinct(st, key, node, dedup);
    InternInRange(st, key, node, dedup);
    if dedup {
      InternNoRepeats(st, key, node);
    }
  }

  lemma InternDistinct(st: TreeState, key: string, node: Value, dedup: bool)
    requires st.nodes.Valid() && Distinct(st.moduleIds)
    ensures Distinct(Intern(st, key, node, dedup).moduleIds)
  {
    var ids := Intern(st, key, node, dedup).moduleIds;
    if key !in st.moduleIds {
      forall i, j | 0 <= i < j < |ids| ensures ids[i] != ids[j] {
        if j == |st.moduleIds| {
          assert ids[i] in st.moduleIds;
        }
      }
    }
  }

  lemma InternInRange(st: TreeState, key: string, node: Value, dedup: bool)
    requires st.nodes.Valid()
    requires forall k, x :: k in st.nodes.m && x in st.nodes.m[k] ==> 1 <= x <= |st.moduleIds|
    ensures var r := Intern(st, key, node, dedup);
      forall k, x :: k in r.nodes.m && x in r.nodes.m[k] ==> 1 <= x <= |r.moduleIds|
  {
    var r := Intern(st, key, node, dedup);
    forall k, x | k in r.nodes.m && x in r.nodes.m[k] ensures 1 <= x <= |r.moduleIds| {
      assert x in Get(r.nodes, k);
      if x !in Get(st.nodes, k) {
        assert k == node && x == IndexOf(r.moduleIds, key) + 1;
      }
    }
  }

  lemma InternNoRepeats(st: TreeState, key: string, node: Value)
    requires st.nodes.Valid()
    requires forall k :: k in st.nodes.m ==> Distinct(st.nodes.m[k])
    ensures var r := Intern(st, key, node, true);
      forall k :: k in r.nodes.m ==> Distinct(r.nodes.m[k])
  {
    var r := Intern(st, key, node, true);
    forall k | k in r.nodes.m ensures Distinct(r.nodes.m[k]) {
      if k == node {
        var id := IndexOf(r.moduleIds, key) + 1;
        var l := Get(st.nodes, node);
        assert Distinct(l);
        if id !in l {
          DistinctSnoc(l, id);
        }
      } else {
        assert Get(r.nodes, k) == Get(st.nodes, k);
      }
    }
  }

  lemma DistinctSnoc(l: seq<int>, x: int)
    requires Distinct(l) && x !in l
    ensures Distinct(l + [x])
  {
  }

  /** Every prefix of the file read without an exception satisfies the invariant. */
  lemma {:induction false} TreeLinesInterned(lines: seq<string>, level: int, toInt: bool, dedup: bool)
    requires forall i :: 0 <= i < |lines| ==> lines[i] != []
    requires TreeLines(lines, level, toInt, dedup).Ok?
    ensures Interned(TreeLines(lines, level, toInt, dedup).value, dedup)
  {
    if lines != [] {
      var init := lines[..|lines| - 1];
      TreeLinesInterned(init, level, toInt, dedup);
      var st := TreeLines(init, level, toInt, dedup).value;
      var line := lines[|lines| - 1];
      if line[0] != '#' {
        var values := Split(line);
        InternInterned(st, ModuleKey(values[0], level), NodeKey(Strip(values[2], '"'), toInt), dedup);
      }
    }
  }
}
