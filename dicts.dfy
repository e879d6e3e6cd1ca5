/** Insertion-ordered dictionaries, as Python's `dict` keeps them: a map
    together with the order in which its keys were first inserted. */
module Dicts {

  predicate Distinct<T(==)>(s: seq<T>) {
    forall i, j :: 0 <= i < j < |s| ==> s[i] != s[j]
  }

  datatype Dict<K(==), V> = Dict(keys: seq<K>, values: map<K, V>) {

    /** The key order lists every key of the map exactly once. */
    predicate Valid() {
      Distinct(keys) && (forall k | k in values :: k in keys) && (forall k | k in keys :: k in values)
    }

    /** `d.get(k, default)` */
    function Get(k: K, default: V): V {
      if k in values then values[k] else default
    }

    /** `d[k] = v`: a new key goes last, an existing key keeps its place. */
    function Put(k: K, v: V): (d: Dict<K, V>)
      requires Valid()
      ensures d.Valid()
      ensures d.values == values[k := v]
      ensures k in values ==> d.keys == keys
      ensures k !in values ==> d.keys == keys + [k]
    {
      if k in values then Dict(keys, values[k := v]) else Dict(keys + [k], values[k := v])
    }

    /** `d.items()`, in key order. */
    function Items(): (items: seq<(K, V)>)
      requires Valid()
      ensures |items| == |keys|
      ensures forall kv | kv in items :: kv.0 in values && values[kv.0] == kv.1
      ensures forall k | k in values :: (k, values[k]) in items
    {
      var items := seq(|keys|, i requires 0 <= i < |keys| => (keys[i], values[keys[i]]));
      assert forall k | k in values :: (k, values[k]) in items by {
        forall k | k in values
          ensures (k, values[k]) in items
        {
          var i :| 0 <= i < |keys| && keys[i] == k;
          assert items[i] == (k, values[k]);
        }
      }
      items
    }
  }

  /** `{}`: a dict with no keys. */
  function EmptyDict<K(==), V>(): Dict<K, V>
  {
    Dict([], map[])
  }

  /** The elements of `s` in the order of their first occurrence, each once:
      the key order of a dict filled by inserting the elements of `s` in turn. */
  function FirstOccurrences<T(==)>(s: seq<T>): (r: seq<T>)
    ensures Distinct(r)
    ensures forall x | x in r :: x in s
    ensures forall x | x in s :: x in r
    ensures |r| <= |s|
  {
    if s == [] then []
    else
      var r := FirstOccurrences(s[..|s| - 1]);
      var x := s[|s| - 1];
      assert s == s[..|s| - 1] + [x];
      if x in r then r else r + [x]
  }

  lemma FirstOccurrencesAppend<T>(s: seq<T>, x: T)
    ensures FirstOccurrences(s + [x])
         == if x in FirstOccurrences(s) then FirstOccurrences(s) else FirstOccurrences(s) + [x]
  {
    assert (s + [x])[..|s|] == s;
  }

  /** Position of the first occurrence of `x` in `s`. */
  function IndexOf<T(==)>(s: seq<T>, x: T): (i: nat)
    requires x in s
    ensures i < |s| && s[i] == x
    ensures forall j :: 0 <= j < i ==> s[j] != x
  {
    if s[0] == x then 0 else 1 + IndexOf(s[1..], x)
  }

  lemma {:induction false} IndexOfExtended<T>(s: seq<T>, y: T, x: T)
    requires x in s
    ensures IndexOf(s + [y], x) == IndexOf(s, x)
  {
    if s[0] != x {
      assert (s + [y])[1..] == s[1..] + [y];
      IndexOfExtended(s[1..], y, x);
    }
  }

  /** `FirstOccurrences` lists the elements in strictly increasing order of
      their first position in `s`. */
  lemma {:induction false} FirstOccurrencesOrdered<T>(s: seq<T>)
    ensures forall i, j :: 0 <= i < j < |FirstOccurrences(s)| ==>
      IndexOf(s, FirstOccurrences(s)[i]) < IndexOf(s, FirstOccurrences(s)[j])
  {
    if s != [] {
      var init, x := s[..|s| - 1], s[|s| - 1];
      assert s == init + [x];
      FirstOccurrencesOrdered(init);
      var r0 := FirstOccurrences(init);
      forall y | y in init ensures IndexOf(s, y) == IndexOf(init, y) {
        IndexOfExtended(init, x, y);
      }
      if x !in r0 {
        assert x !in init;
        assert IndexOf(s, x) == |s| - 1;
        var r := r0 + [x];
        forall i, j | 0 <= i < j < |r| ensures IndexOf(s, r[i]) < IndexOf(s, r[j]) {
          assert r[i] in init && IndexOf(s, r[i]) == IndexOf(init, r[i]);
          if j < |r0| {
            assert r[j] in init && IndexOf(s, r[j]) == IndexOf(init, r[j]);
            assert IndexOf(init, r0[i]) < IndexOf(init, r0[j]);
          }
        }
      } else {
        var r := r0;
        forall i, j | 0 <= i < j < |r| ensures IndexOf(s, r[i]) < IndexOf(s, r[j]) {
          assert r[i] in init && r[j] in init;
          assert IndexOf(init, r0[i]) < IndexOf(init, r0[j]);
        }
      }
    }
  }

  /** Two dicts with the same key order, each covering exactly its keys, and
      agreeing on every key, are equal. */
  lemma SameEntries<K, V>(c: Dict<K, V>, d: Dict<K, V>)
    requires c.keys == d.keys
    requires forall k | k in c.values :: k in c.keys
    requires forall k | k in d.values :: k in d.keys
    requires forall k | k in d.keys :: k in c.values && k in d.values && c.values[k] == d.values[k]
    ensures c == d
  {
    assert c.values.Keys == d.values.Keys;
  }
}
