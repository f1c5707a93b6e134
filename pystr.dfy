/**
 * The Python string and slicing built-ins the source relies on: `str.split()`,
 * `str.split(sep)`, `sep.join(...)`, `str.strip(c)`, `int(str)` (PEP 515 underscores
 * included), `str(int)`,
 * `s.replace(c, '')` and the slices `s[:k]` / `s[k:]`.
 */
module PyStr {
  import opened Wrappers

  /** Whitespace as `str.split()` and `int()` see it, restricted to ASCII. */
  predicate IsSpace(c: char) {
    c == ' ' || (9 <= c as int <= 13) || (28 <= c as int <= 31)
  }

  predicate IsDigit(c: char) { '0' <= c <= '9' }

  /** A line whose `strip()` is empty. */
  predicate Blank(s: string) {
    forall i :: 0 <= i < |s| ==> IsSpace(s[i])
  }

  // ---------------------------------------------------------------- split()

  /** Length of the run of non-whitespace characters that starts `s`. */
  function TokenLen(s: string): (n: nat)
    ensures n <= |s|
    ensures forall i :: 0 <= i < n ==> !IsSpace(s[i])
    ensures n < |s| ==> IsSpace(s[n])
  {
    if s == [] || IsSpace(s[0]) then 0 else 1 + TokenLen(s[1..])
  }

  /** `s.split()`: the maximal runs of non-whitespace characters, in order. */
  function Split(s: string): (r: seq<string>)
    ensures forall k :: 0 <= k < |r| ==> r[k] != []
    ensures forall k, i :: 0 <= k < |r| && 0 <= i < |r[k]| ==> !IsSpace(r[k][i])
    decreases |s|
  {
    if s == [] then []
    else if IsSpace(s[0]) then Split(s[1..])
    else
      var n := TokenLen(s);
      [s[..n]] + Split(s[n..])
  }

  /** `split()` yields no token exactly for the lines that `strip()` empties. */
  lemma {:induction false} SplitEmptyIffBlank(s: string)
    ensures Split(s) == [] <==> Blank(s)
    decreases |s|
  {
    if s != [] && IsSpace(s[0]) {
      SplitEmptyIffBlank(s[1..]);
      assert Blank(s) <==> Blank(s[1..]) by {
        if Blank(s[1..]) {
          forall i | 0 <= i < |s| ensures IsSpace(s[i]) {
            if i > 0 { assert s[i] == s[1..][i - 1]; }
          }
        }
        if Blank(s) {
          forall i | 0 <= i < |s[1..]| ensures IsSpace(s[1..][i]) {
            assert s[1..][i] == s[i + 1];
          }
        }
      }
    }
  }

  // ------------------------------------------------------------ split(sep)

  /** `s.split(c)` for a one-character separator: never empty, pieces free of `c`. */
  function SplitOn(s: string, c: char): (r: seq<string>)
    ensures |r| >= 1
    ensures forall k :: 0 <= k < |r| ==> c !in r[k]
  {
    if s == [] then [[]]
    else if s[0] == c then [[]] + SplitOn(s[1..], c)
    else
      var rest := SplitOn(s[1..], c);
      [[s[0]] + rest[0]] + rest[1..]
  }

  /** `sep.join(parts)`. */
  function Join(sep: string, parts: seq<string>): string
  {
    if |parts| == 0 then []
    else if |parts| == 1 then parts[0]
    else parts[0] + sep + Join(sep, parts[1..])
  }

  /** Joining the pieces of a split gives back the string. */
  lemma {:induction false} JoinSplitOn(s: string, c: char)
    ensures Join([c], SplitOn(s, c)) == s
  {
    if s == [] {
    } else if s[0] == c {
      JoinSplitOn(s[1..], c);
      var rest := SplitOn(s[1..], c);
      assert SplitOn(s, c) == [[]] + rest;
      assert ([[]] + rest)[1..] == rest;
    } else {
      JoinSplitOn(s[1..], c);
      var rest := SplitOn(s[1..], c);
      var r := [[s[0]] + rest[0]] + rest[1..];
      assert SplitOn(s, c) == r;
      if |rest| == 1 {
        assert Join([c], r) == [s[0]] + rest[0];
      } else {
        assert r[1..] == rest[1..];
        assert Join([c], rest) == rest[0] + [c] + Join([c], rest[1..]);
      }
    }
  }

  /** Splitting a join of separator-free pieces gives back the pieces. */
  lemma {:induction false} SplitOnJoin(parts: seq<string>, c: char)
    requires |parts| >= 1
    requires forall k :: 0 <= k < |parts| ==> c !in parts[k]
    ensures SplitOn(Join([c], parts), c) == parts
    decreases |parts|, |parts[0]|
  {
    var p := parts[0];
    if p == [] {
      if |parts| > 1 {
        assert Join([c], parts) == [c] + Join([c], parts[1..]);
        assert ([c] + Join([c], parts[1..]))[1..] == Join([c], parts[1..]);
        SplitOnJoin(parts[1..], c);
        assert parts == [[]] + parts[1..];
      }
    } else {
      var parts' := [p[1..]] + parts[1..];
      assert c !in p[1..] by { assert forall x :: x in p[1..] ==> x in p; }
      SplitOnJoin(parts', c);
      assert Join([c], parts) == [p[0]] + Join([c], parts') by {
        if |parts| > 1 {
          assert parts'[1..] == parts[1..];
        }
      }
      assert ([p[0]] + Join([c], parts'))[1..] == Join([c], parts');
      assert p[0] != c by { assert p[0] in p; }
      assert [p[0]] + p[1..] == p;
      assert parts'[1..] == parts[1..];
    }
  }

  // ---------------------------------------------------------- strip(c)

  /** The length of the run of `c` that opens `s`. */
  function LeadingRun(s: string, c: char): (n: nat)
    ensures n <= |s|
    ensures forall k :: 0 <= k < n ==> s[k] == c
    ensures n < |s| ==> s[n] != c
  {
    if s != [] && s[0] == c then 1 + LeadingRun(s[1..], c) else 0
  }

  /** The length of the run of `c` that closes `s`. */
  function TrailingRun(s: string, c: char): (n: nat)
    ensures n <= |s|
    ensures forall k :: |s| - n <= k < |s| ==> s[k] == c
    ensures n < |s| ==> s[|s| - n - 1] != c
  {
    if s != [] && s[|s| - 1] == c then 1 + TrailingRun(s[..|s| - 1], c) else 0
  }

  /** `s.strip(c)`: every leading and trailing `c` removed, nothing else. */
  function Strip(s: string, c: char): string
  {
    var i := LeadingRun(s, c);
    s[i..|s| - TrailingRun(s[i..], c)]
  }

  /** `s.strip(c)` is `s` with a run of `c` cut from each end, and keeps no `c` at either end. */
  lemma StripShape(s: string, c: char)
    ensures var r := Strip(s, c);
      (r == [] || (r[0] != c && r[|r| - 1] != c)) &&
      exists i, j :: 0 <= i <= j <= |s| && r == s[i..j] &&
        (forall k :: 0 <= k < i ==> s[k] == c) && (forall k :: j <= k < |s| ==> s[k] == c)
  {
    var i := LeadingRun(s, c);
    var t := s[i..];
    var n := TrailingRun(t, c);
    var j := |s| - n;
    var r := s[i..j];
    assert r == Strip(s, c);
    if r != [] {
      assert r[0] == s[i];
      assert r[|r| - 1] == t[|t| - n - 1];
    }
    forall k | j <= k < |s| ensures s[k] == c {
      assert s[k] == t[k - i];
    }
  }

  /** A string free of `c` is left alone by `strip(c)`. */
  lemma StripFree(s: string, c: char)
    requires c !in s
    ensures Strip(s, c) == s
  {
    if s != [] {
      assert s[0] in s;
      assert s[|s| - 1] in s;
    }
  }

  // --------------------------------------------------------- replace / count

  /** Number of occurrences of `c` in `s`. */
  function Count(s: string, c: char): nat
  {
    if s == [] then 0 else (if s[0] == c then 1 else 0) + Count(s[1..], c)
  }

  /** `s.replace(c, '')`. */
  function RemoveChar(s: string, c: char): (r: string)
    ensures c !in r
    ensures |r| == |s| - Count(s, c)
  {
    if s == [] then [] else (if s[0] == c then [] else [s[0]]) + RemoveChar(s[1..], c)
  }

  lemma {:induction false} CountAppend(a: string, b: string, c: char)
    ensures Count(a + b, c) == Count(a, c) + Count(b, c)
  {
    if a != [] {
      assert (a + b)[1..] == a[1..] + b;
      CountAppend(a[1..], b, c);
    } else {
      assert a + b == b;
    }
  }

  lemma {:induction false} CountFree(s: string, c: char)
    requires c !in s
    ensures Count(s, c) == 0
  {
    if s != [] {
      assert forall x :: x in s[1..] ==> x in s;
      CountFree(s[1..], c);
    }
  }

  /** A join of `c`-free pieces holds one `c` per gap between pieces. */
  lemma {:induction false} CountJoin(parts: seq<string>, c: char)
    requires |parts| >= 1
    requires forall k :: 0 <= k < |parts| ==> c !in parts[k]
    ensures Count(Join([c], parts), c) == |parts| - 1
  {
    CountFree(parts[0], c);
    if |parts| > 1 {
      CountJoin(parts[1..], c);
      CountAppend(parts[0], [c], c);
      CountAppend(parts[0] + [c], Join([c], parts[1..]), c);
    }
  }

  // -------------------------------------------------------------- slicing

  /** The bound `k` of a Python slice `s[:k]` / `s[k:]`, clamped to `0..len`. */
  function SliceBound(len: nat, k: int): (b: nat)
    ensures b <= len
    ensures 0 <= k <= len ==> b == k
  {
    if k < 0 then (if len + k < 0 then 0 else len + k) else if k > len then len else k
  }

  /** `s[:k]` with Python's meaning for negative and oversize `k`. */
  function PyTake<T>(s: seq<T>, k: int): seq<T>
  {
    s[..SliceBound(|s|, k)]
  }

  /** `s[k:]` with Python's meaning for negative and oversize `k`. */
  function PyDrop<T>(s: seq<T>, k: int): seq<T>
  {
    s[SliceBound(|s|, k)..]
  }

  // ----------------------------------------------------------- int(), str()

  predicate AllDigits(s: string) {
    forall i :: 0 <= i < |s| ==> IsDigit(s[i])
  }

  /** Value of a run of decimal digits, most significant first. */
  function DigitsValue(s: string): nat
    requires AllDigits(s)
  {
    if s == [] then 0 else 10 * DigitsValue(s[..|s| - 1]) + (s[|s| - 1] as int - '0' as int)
  }

  /** Digits of `n` in decimal, most significant first, no leading zero. */
  function NatDigits(n: nat): (r: string)
    ensures r != [] && AllDigits(r)
  {
    if n < 10 then [('0' as int + n) as char] else NatDigits(n / 10) + [('0' as int + n % 10) as char]
  }

  /** `str(n)` for an integer. */
  function ShowInt(n: int): (r: string)
  {
    if n < 0 then "-" + NatDigits(-n) else NatDigits(n)
  }

  /** `int(s)` for a string: surrounding whitespace is skipped, then a signed, possibly grouped, decimal. */
  function ParseInt(s: string): (r: Option<int>)
  {
    if s != [] && IsSpace(s[0]) then ParseInt(s[1..])
    else if s != [] && IsSpace(s[|s| - 1]) then ParseInt(s[..|s| - 1])
    else ParseGroupedSigned(s)
  }

  /**
   * Decimal digits in which a single underscore may separate two digits
   * (PEP 515), as `int()` accepts them: no underscore first, last, or next
   * to another underscore.
   */
  predicate Grouped(s: string) {
    && s != [] && IsDigit(s[0]) && IsDigit(s[|s| - 1])
    && (forall i :: 0 <= i < |s| ==> IsDigit(s[i]) || s[i] == '_')
    && (forall i :: 0 <= i < |s| - 1 ==> s[i] == '_' ==> s[i + 1] != '_')
  }

  /** Removing the underscores of digits and underscores leaves digits only. */
  lemma {:induction false} UngroupedDigits(s: string)
    requires forall i :: 0 <= i < |s| ==> IsDigit(s[i]) || s[i] == '_'
    ensures AllDigits(RemoveChar(s, '_'))
  {
    if s != [] {
      UngroupedDigits(s[1..]);
    }
  }

  /** The value of a grouped run: its digits read with the underscores removed. */
  function GroupedValue(s: string): nat
    requires Grouped(s)
  {
    UngroupedDigits(s);
    DigitsValue(RemoveChar(s, '_'))
  }

  /** An optional sign followed by a grouped run of digits, and nothing else. */
  function ParseGroupedSigned(t: string): (r: Option<int>)
  {
    if t != [] && (t[0] == '-' || t[0] == '+') then
      if Grouped(t[1..]) then
        Some(if t[0] == '-' then 0 - GroupedValue(t[1..]) as int else GroupedValue(t[1..]))
      else None
    else if Grouped(t) then Some(GroupedValue(t))
    else None
  }

  /** An optional sign followed by at least one decimal digit, and nothing else. */
  function ParseSigned(t: string): (r: Option<int>)
  {
    if t == [] then None
    else if t[0] == '-' || t[0] == '+' then
      if |t| > 1 && AllDigits(t[1..]) then
        Some(if t[0] == '-' then 0 - DigitsValue(t[1..]) as int else DigitsValue(t[1..]))
      else None
    else if AllDigits(t) then Some(DigitsValue(t))
    else None
  }

  /** `int(s)` as a call that can raise: ValueError when `s` is not an integer. */
  function Int(s: string): (r: Result<int>)
    ensures r.Ok? <==> ParseInt(s).Some?
    ensures r.Ok? ==> r.value == ParseInt(s).value
    ensures r.Err? ==> r.error == ValueError
  {
    match ParseInt(s)
    case Some(x) => Ok(x)
    case None => Err(ValueError)
  }

  lemma {:induction false} RemoveFree(s: string, c: char)
    requires c !in s
    ensures RemoveChar(s, c) == s
  {
    if s != [] {
      assert s[0] != c;
      assert forall x :: x in s[1..] ==> x in s;
      RemoveFree(s[1..], c);
    }
  }

  lemma {:induction false} RemoveAppend(a: string, b: string, c: char)
    ensures RemoveChar(a + b, c) == RemoveChar(a, c) + RemoveChar(b, c)
  {
    if a != [] {
      assert (a + b)[1..] == a[1..] + b;
      RemoveAppend(a[1..], b, c);
    } else {
      assert a + b == b;
    }
  }

  /** Without underscores, `int()` reads exactly the plain signed decimals. */
  lemma PlainDecimals(t: string)
    requires '_' !in t
    ensures ParseGroupedSigned(t) == ParseSigned(t)
  {
    if t != [] && (t[0] == '-' || t[0] == '+') {
      assert forall x :: x in t[1..] ==> x in t;
      if |t| > 1 && AllDigits(t[1..]) {
        RemoveFree(t[1..], '_');
      }
    } else if t != [] && AllDigits(t) {
      RemoveFree(t, '_');
    }
  }

  /** Joining two grouped runs, with or without an underscore, gives a grouped run. */
  lemma GroupedJoin(a: string, b: string)
    requires Grouped(a) && Grouped(b)
    ensures Grouped(a + "_" + b) && Grouped(a + b)
  {
    var s, t := a + "_" + b, a + b;
    forall i | 0 <= i < |s| - 1 && s[i] == '_' ensures s[i + 1] != '_' {
      if i < |a| {
        assert s[i] == a[i];
        assert i < |a| - 1 && s[i + 1] == a[i + 1];
      } else if i > |a| {
        assert s[i] == b[i - |a| - 1] && s[i + 1] == b[i - |a|];
      }
    }
    forall i | 0 <= i < |t| - 1 && t[i] == '_' ensures t[i + 1] != '_' {
      if i < |a| - 1 {
        assert t[i] == a[i] && t[i + 1] == a[i + 1];
      } else if i >= |a| {
        assert t[i] == b[i - |a|] && t[i + 1] == b[i - |a| + 1];
      }
    }
  }

  /** `int()` of a grouped run is its value. */
  lemma ParseGrouped(s: string)
    requires Grouped(s)
    ensures ParseInt(s) == Some(GroupedValue(s))
  {
    assert !IsSpace(s[0]) && !IsSpace(s[|s| - 1]);
  }

  /** A single underscore between two digit groups is ignored by `int()`. */
  lemma UnderscoreIgnored(a: string, b: string)
    requires Grouped(a) && Grouped(b)
    ensures Grouped(a + "_" + b) && Grouped(a + b)
    ensures ParseInt(a + "_" + b) == ParseInt(a + b) == Some(GroupedValue(a + b))
  {
    var s, t := a + "_" + b, a + b;
    GroupedJoin(a, b);
    RemoveBetween(a, b, '_');
    ParseGrouped(s);
    ParseGrouped(t);
  }

  lemma RemoveBetween(a: string, b: string, c: char)
    ensures RemoveChar(a + [c] + b, c) == RemoveChar(a + b, c)
  {
    assert RemoveChar([c], c) == [];
    RemoveAppend(a, [c], c);
    var ra := RemoveChar(a, c);
    assert RemoveChar(a + [c], c) == ra;
    RemoveAppend(a + [c], b, c);
    RemoveAppend(a, b, c);
  }

  /** `int()` refuses an underscore that opens or closes the digits, or follows another underscore. */
  lemma UnderscoreMisplaced(a: string, b: string)
    ensures ParseGroupedSigned("_" + a) == None
    ensures ParseGroupedSigned(a + "_") == None
    ensures ParseGroupedSigned(a + "__" + b) == None
  {
    var s := a + "__" + b;
    if a == [] {
      assert s[0] == '_';
    } else if a[0] == '-' || a[0] == '+' {
      assert s[1..][|a| - 1] == '_' && s[1..][|a|] == '_';
    } else {
      assert s[|a|] == '_' && s[|a| + 1] == '_';
    }
  }

  lemma {:induction false} DigitsValueOfNatDigits(n: nat)
    ensures DigitsValue(NatDigits(n)) == n
  {
    if n >= 10 {
      DigitsValueOfNatDigits(n / 10);
      var d := NatDigits(n);
      assert d[..|d| - 1] == NatDigits(n / 10);
    }
  }

  /** `int(str(n)) == n`: the decimal rendering parses back to the same integer. */
  lemma ParseShowInt(n: int)
    ensures ParseInt(ShowInt(n)) == Some(n)
  {
    var s := ShowInt(n);
    var m := if n < 0 then -n else n;
    DigitsValueOfNatDigits(m);
    assert !IsSpace(s[0]);
    assert !IsSpace(s[|s| - 1]);
    assert '_' !in s;
    PlainDecimals(s);
    if n < 0 {
      assert s[1..] == NatDigits(m);
    }
  }
}
