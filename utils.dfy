/** utils.py: `to_int`, `merge_dictionaries`, `prune_invalid_keys_from_dictionary`. */
module Utils {
  import opened Wrappers
  import opened PyStr
  import opened ODicts

  /** A node id or label as Python holds it: an int, or a string. */
  datatype Value = IntVal(i: int) | StrVal(s: string)

  /** `to_int(value)`: the integer when `int()` accepts the value, otherwise the value itself. */
  function ToInt(v: Value): (r: Value)
    ensures v.IntVal? ==> r == v
    ensures v.StrVal? && ParseInt(v.s).Some? ==> r == IntVal(ParseInt(v.s).value)
    ensures v.StrVal? && ParseInt(v.s).None? ==> r == v
  {
    match v
    case IntVal(_) => v
    case StrVal(s) =>
      match ParseInt(s)
      case Some(n) => IntVal(n)
      case None => v
  }

  /** The decimal text of an integer is turned back into that integer. */
  lemma ToIntOfDecimal(n: int)
    ensures ToInt(StrVal(ShowInt(n))) == IntVal(n)
  {
    ParseShowInt(n);
  }

  /** Digit groups joined by single underscores convert as the digits alone: `to_int('1_0') == 10`. */
  lemma ToIntGrouped(a: string, b: string)
    requires Grouped(a) && Grouped(b)
    ensures ToInt(StrVal(a + "_" + b)) == ToInt(StrVal(a + b)) == IntVal(GroupedValue(a + b))
  {
    UnderscoreIgnored(a, b);
  }

  /** Converting twice is converting once. */
  lemma ToIntIdempotent(v: Value)
    ensures ToInt(ToInt(v)) == ToInt(v)
  {
  }

  // ------------------------------------------------------ merge_dictionaries

  /** The first `n` items of `d` written into `acc`, one `acc[k] = v` at a time. */
  function PutAll<K(==,!new), V>(acc: ODict<K, V>, d: ODict<K, V>, n: nat): (r: ODict<K, V>)
    requires acc.Valid() && d.Valid() && n <= |d.keys|
    ensures r.Valid()
    ensures forall k :: k in r.m <==> k in acc.m || k in d.keys[..n]
    ensures forall k :: k in d.keys[..n] ==> r.m[k] == d.m[k]
    ensures forall k :: k in acc.m && k !in d.keys[..n] ==> r.m[k] == acc.m[k]
  {
    if n == 0 then acc
    else
      var k := d.keys[n - 1];
      assert d.keys[..n] == d.keys[..n - 1] + [k];
      PutAll(acc, d, n - 1).Put(k, d.m[k])
  }

  /** What `merge_dictionaries(ds)` builds: every dict of `ds` written in turn. */
  function Merged<K(==,!new), V>(ds: seq<ODict<K, V>>): (r: ODict<K, V>)
    requires forall i :: 0 <= i < |ds| ==> ds[i].Valid()
    ensures r.Valid()
  {
    if ds == [] then Empty()
    else
      var last := ds[|ds| - 1];
      PutAll(Merged(ds[..|ds| - 1]), last, |last.keys|)
  }

  /** A key is in the merged dict exactly when some dict of `ds` holds it. */
  lemma {:induction false} MergedKeys<K(!new), V>(ds: seq<ODict<K, V>>, k: K)
    requires forall i :: 0 <= i < |ds| ==> ds[i].Valid()
    ensures k in Merged(ds).m <==> exists i :: 0 <= i < |ds| && k in ds[i].m
  {
    if ds != [] {
      MergedKeys(ds[..|ds| - 1], k);
      MergedKeysStep(ds, k);
      HeldBySnoc(ds, ds[..|ds| - 1], k);
    }
  }

  /** Some dict of `ds` holds `k` exactly when one before the last does, or the last does. */
  lemma HeldBySnoc<K(!new), V>(ds: seq<ODict<K, V>>, init: seq<ODict<K, V>>, k: K)
    requires ds != [] && init == ds[..|ds| - 1]
    ensures (exists i :: 0 <= i < |ds| && k in ds[i].m) <==>
            (exists i :: 0 <= i < |init| && k in init[i].m) || k in ds[|ds| - 1].m
  {
    if exists i :: 0 <= i < |ds| && k in ds[i].m {
      var i :| 0 <= i < |ds| && k in ds[i].m;
      if i < |init| {
        assert k in init[i].m;
      }
    }
    if exists i :: 0 <= i < |init| && k in init[i].m {
      var i :| 0 <= i < |init| && k in init[i].m;
      assert k in ds[i].m;
    }
  }

  lemma MergedKeysStep<K(!new), V>(ds: seq<ODict<K, V>>, k: K)
    requires forall i :: 0 <= i < |ds| ==> ds[i].Valid()
    requires ds != []
    ensures k in Merged(ds).m <==> k in Merged(ds[..|ds| - 1]).m || k in ds[|ds| - 1].m
  {
    var last := ds[|ds| - 1];
    assert last.keys[..|last.keys|] == last.keys;
  }

  /** A key takes its value from the last dict of `ds` that holds it. */
  lemma {:induction false} MergedValue<K(!new), V>(ds: seq<ODict<K, V>>, k: K, i: nat)
    requires forall j :: 0 <= j < |ds| ==> ds[j].Valid()
    requires i < |ds| && k in ds[i].m
    requires forall j :: i < j < |ds| ==> k !in ds[j].m
    ensures k in Merged(ds).m && Merged(ds).m[k] == ds[i].m[k]
  {
    var init := ds[..|ds| - 1];
    var last := ds[|ds| - 1];
    assert last.keys[..|last.keys|] == last.keys;
    if i < |ds| - 1 {
      MergedValue(init, k, i);
    }
  }

  /** `merge_dictionaries(dictionaries)`: the dicts written one after the other into a new dict. */
  method MergeDictionaries<K(==,!new), V>(ds: seq<ODict<K, V>>) returns (r: ODict<K, V>)
    requires forall i :: 0 <= i < |ds| ==> ds[i].Valid()
    ensures r == Merged(ds)
  {
    r := Empty();
    for i := 0 to |ds|
      invariant r == Merged(ds[..i])
    {
      var d := ds[i];
      assert ds[..i + 1][..i] == ds[..i];
      for j := 0 to |d.keys|
        invariant r == PutAll(Merged(ds[..i]), d, j)
      {
        var k := d.keys[j];
        r := r.Put(k, d.m[k]);
      }
    }
    assert ds[..|ds|] == ds;
  }

  // ---------------------------------------------- prune_invalid_keys_from_dictionary

  /** `d` with every key that is not in `valid` deleted. */
  function Pruned<K(==,!new), V>(d: ODict<K, V>, valid: seq<K>): (r: ODict<K, V>)
    requires d.Valid()
    ensures r.Valid()
    ensures forall k :: k in r.m <==> k in d.m && k in valid
    ensures forall k :: k in r.m ==> r.m[k] == d.m[k]
  {
    ODict(Keep(d.keys, valid), map k | k in d.m && k in valid :: d.m[k])
  }

  /** Pruning twice with the same valid keys is pruning once. */
  lemma PruneIdempotent<K(!new), V>(d: ODict<K, V>, valid: seq<K>)
    requires d.Valid()
    ensures Pruned(Pruned(d, valid), valid) == Pruned(d, valid)
  {
    KeepKeep(d.keys, valid);
  }

  /** Deleting, one by one, exactly the keys missing from `valid` leaves the pruned dict. */
  lemma PrunedByRemoval<K(!new), V>(d: ODict<K, V>, toRemove: seq<K>, valid: seq<K>)
    requires d.Valid()
    requires toRemove == Drop(d.keys, Elems(valid))
    ensures Without(d, Elems(toRemove)) == Pruned(d, valid)
  {
    DropIsKeep(d.keys, Elems(toRemove), valid);
    assert d.m - Elems(toRemove) == Pruned(d, valid).m;
  }

  /** The first loop of `prune_invalid_keys_from_dictionary`: the keys to delete, in order. */
  method KeysNotIn<K(==,!new)>(keys: seq<K>, valid: seq<K>) returns (toRemove: seq<K>)
    ensures toRemove == Drop(keys, Elems(valid))
  {
    toRemove := [];
    for i := 0 to |keys|
      invariant toRemove == Drop(keys[..i], Elems(valid))
    {
      assert keys[..i + 1] == keys[..i] + [keys[i]];
      DropAppend(keys[..i], keys[i], Elems(valid));
      if keys[i] !in valid {
        toRemove := toRemove + [keys[i]];
      }
    }
    assert keys[..|keys|] == keys;
  }

  /** The second loop of `prune_invalid_keys_from_dictionary`: `del d[k]` for each listed key. */
  method DeleteAll<K(==,!new), V>(d: Dict<K, V>, toRemove: seq<K>)
    requires d.data.Valid()
    modifies d
    ensures d.data == Without(old(d.data), Elems(toRemove))
  {
    ghost var start := d.data;
    DropNothing(start.keys);
    assert Elems(toRemove[..0]) == {};
    for i := 0 to |toRemove|
      invariant d.data == Without(start, Elems(toRemove[..i]))
    {
      DeleteStep(start, toRemove, i);
      d.data := d.data.Remove(toRemove[i]);
    }
    assert toRemove[..|toRemove|] == toRemove;
  }

  /** Deleting the next listed key from a dict whose earlier listed keys are gone. */
  lemma DeleteStep<K(!new), V>(start: ODict<K, V>, toRemove: seq<K>, i: nat)
    requires start.Valid() && i < |toRemove|
    ensures Without(start, Elems(toRemove[..i])).Remove(toRemove[i]) == Without(start, Elems(toRemove[..i + 1]))
  {
    var gone, x := Elems(toRemove[..i]), toRemove[i];
    assert Elems(toRemove[..i + 1]) == gone + {x} by {
      assert toRemove[..i + 1] == toRemove[..i] + [x];
      ElemsSnoc(toRemove[..i], x);
    }
    RemoveAfterWithout(start, gone, x);
  }

  /** `prune_invalid_keys_from_dictionary(valid_keys, dictionary)`, in place. */
  method PruneInvalidKeys<K(==,!new), V>(valid: seq<K>, d: Dict<K, V>)
    requires d.data.Valid()
    modifies d
    ensures d.data == Pruned(old(d.data), valid)
  {
    var toRemove := KeysNotIn(d.data.keys, valid);
    PrunedByRemoval(d.data, toRemove, valid);
    DeleteAll(d, toRemove);
  }
}
