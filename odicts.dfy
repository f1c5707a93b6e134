/**
 * Python dictionaries. The source relies on their insertion order (the
 * colour fusion keeps the FIRST colour met while iterating), so a dict is
 * its keys in insertion order together with the key-value map.
 */
module ODicts {

  predicate Distinct<K(==)>(s: seq<K>) {
    forall i, j :: 0 <= i < j < |s| ==> s[i] != s[j]
  }

  /** The elements of `s` that are not in `r`, in order. */
  function Drop<K(==,!new)>(s: seq<K>, r: set<K>): (t: seq<K>)
    ensures forall x :: x in t <==> x in s && x !in r
    ensures Distinct(s) ==> Distinct(t)
    ensures |t| <= |s|
  {
    if s == [] then []
    else
      var rest := Drop(s[1..], r);
      assert forall x :: x in s[1..] ==> x in s;
      if s[0] in r then rest else [s[0]] + rest
  }

  /** The elements of `s` that also occur in `keep`, in order. */
  function Keep<K(==,!new)>(s: seq<K>, keep: seq<K>): (t: seq<K>)
    ensures forall x :: x in t <==> x in s && x in keep
    ensures Distinct(s) ==> Distinct(t)
  {
    if s == [] then []
    else
      var rest := Keep(s[1..], keep);
      assert forall x :: x in s[1..] ==> x in s;
      if s[0] in keep then [s[0]] + rest else rest
  }

  lemma {:induction false} DropDrop<K(!new)>(s: seq<K>, a: set<K>, b: set<K>)
    ensures Drop(Drop(s, a), b) == Drop(s, a + b)
  {
    if s != [] {
      DropDrop(s[1..], a, b);
    }
  }

  /** The set of elements of a sequence. */
  function Elems<K>(s: seq<K>): set<K> {
    set x | x in s
  }

  lemma {:induction false} DropNothing<K(!new)>(s: seq<K>)
    ensures Drop(s, {}) == s
  {
    if s != [] {
      DropNothing(s[1..]);
    }
  }

  lemma {:induction false} DropAppend<K(!new)>(s: seq<K>, x: K, r: set<K>)
    ensures Drop(s + [x], r) == Drop(s, r) + (if x in r then [] else [x])
  {
    if s != [] {
      assert (s + [x])[1..] == s[1..] + [x];
      DropAppend(s[1..], x, r);
    } else {
      assert s + [x] == [x];
    }
  }

  /** Dropping what is not kept is keeping. */
  lemma {:induction false} DropIsKeep<K(!new)>(s: seq<K>, r: set<K>, keep: seq<K>)
    requires forall x :: x in s ==> (x in r <==> x !in keep)
    ensures Drop(s, r) == Keep(s, keep)
  {
    if s != [] {
      assert forall x :: x in s[1..] ==> x in s;
      DropIsKeep(s[1..], r, keep);
    }
  }

  lemma {:induction false} KeepKeep<K(!new)>(s: seq<K>, keep: seq<K>)
    ensures Keep(Keep(s, keep), keep) == Keep(s, keep)
  {
    if s != [] {
      KeepKeep(s[1..], keep);
    }
  }

  /** A Python dict: keys in insertion order, and what each key maps to. */
  datatype ODict<K(==,!new), V> = ODict(keys: seq<K>, m: map<K, V>) {

    /** Each key is listed once, and the listed keys are the map's keys. */
    ghost predicate Valid() {
      Distinct(keys) && (forall k :: k in m <==> k in keys)
    }

    /** `d[k] = v`: a new key goes last, an existing key keeps its place. */
    function Put(k: K, v: V): (r: ODict<K, V>)
      requires Valid()
      ensures r.Valid()
      ensures r.m == m[k := v]
      ensures k in m ==> r.keys == keys
      ensures k !in m ==> r.keys == keys + [k]
    {
      if k in m then ODict(keys, m[k := v]) else ODict(keys + [k], m[k := v])
    }

    /** `del d[k]` for a key that is present. */
    function Remove(k: K): (r: ODict<K, V>)
      requires Valid()
      ensures r.Valid()
      ensures r.m == m - {k}
      ensures r.keys == Drop(keys, {k})
    {
      ODict(Drop(keys, {k}), m - {k})
    }
  }

  /** Writing a key twice is writing it once, with the second value. */
  lemma PutTwice<K(!new), V>(d: ODict<K, V>, k: K, a: V, b: V)
    requires d.Valid()
    ensures d.Put(k, a).Put(k, b) == d.Put(k, b)
  {
  }

  /** `d` with every key of `gone` deleted, the other keys keeping their order. */
  function Without<K(==,!new), V>(d: ODict<K, V>, gone: set<K>): (r: ODict<K, V>)
    requires d.Valid()
    ensures r.Valid()
    ensures forall k :: k in r.m <==> k in d.m && k !in gone
  {
    ODict(Drop(d.keys, gone), d.m - gone)
  }

  /** Deleting one more key from a dict with a set of keys deleted. */
  lemma RemoveAfterWithout<K(!new), V>(d: ODict<K, V>, gone: set<K>, k: K)
    requires d.Valid()
    ensures Without(d, gone).Remove(k) == Without(d, gone + {k})
  {
    DropDrop(d.keys, gone, {k});
    assert d.m - gone - {k} == d.m - (gone + {k});
  }

  lemma ElemsSnoc<K>(s: seq<K>, x: K)
    ensures Elems(s + [x]) == Elems(s) + {x}
  {
  }

  function Empty<K(==,!new), V>(): (r: ODict<K, V>)
    ensures r.Valid() && r.m == map[]
  {
    ODict([], map[])
  }

  /** A dictionary that the source changes in place (by reference). */
  class Dict<K(==,!new), V> {
    var data: ODict<K, V>

    constructor (d: ODict<K, V>)
      ensures data == d
    {
      data := d;
    }
  }
}
