/**
 * The insertion-ordered map queryParams fills (java.util.LinkedHashMap), seen
 * as its entries in iteration order.
 */
module OrderedMaps {
  import opened Wrappers

  type Pair = (string, string)

  /** The keys of an entry list, in iteration order. */
  function Keys(m: seq<Pair>): (ks: seq<string>)
    ensures |ks| == |m| && forall i :: 0 <= i < |m| ==> ks[i] == m[i].0
  {
    if m == [] then [] else [m[0].0] + Keys(m[1..])
  }

  /** No key appears twice: the shape every map's entry list has. */
  predicate UniqueKeys(m: seq<Pair>) {
    forall i, j :: 0 <= i < j < |m| ==> m[i].0 != m[j].0
  }

  /** Map.get: the value stored under k, if any. */
  function Lookup(m: seq<Pair>, k: string): (r: Option<string>)
    ensures r.Some? <==> k in Keys(m)
    ensures r.Some? ==> (k, r.value) in m
  {
    if m == [] then None
    else if m[0].0 == k then Some(m[0].1)
    else
      assert Keys(m) == [m[0].0] + Keys(m[1..]);
      Lookup(m[1..], k)
  }

  /**
   * Map.put on a LinkedHashMap: a key already present keeps its place and
   * takes the new value; a new key goes at the end.
   */
  function Update(m: seq<Pair>, k: string, v: string): seq<Pair>
  {
    if m == [] then [(k, v)]
    else if m[0].0 == k then [(k, v)] + m[1..]
    else [m[0]] + Update(m[1..], k, v)
  }

  /** put keeps the key order, and a key it has not seen goes last. */
  lemma {:induction false} UpdateKeys(m: seq<Pair>, k: string, v: string)
    ensures k in Keys(m) ==> Keys(Update(m, k, v)) == Keys(m)
    ensures k !in Keys(m) ==> Keys(Update(m, k, v)) == Keys(m) + [k]
  {
    if m != [] {
      var head, tail := m[0], m[1..];
      assert m == [head] + tail;
      KeysCons(head, tail);
      if head.0 == k {
        KeysCons((k, v), tail);
      } else {
        var rest := Update(tail, k, v);
        UpdateKeys(tail, k, v);
        KeysCons(head, rest);
        assert Keys(tail) + [k] == (Keys(m) + [k])[1..];
      }
    }
  }

  /** put never stores a key twice. */
  lemma UpdateUnique(m: seq<Pair>, k: string, v: string)
    requires UniqueKeys(m)
    ensures UniqueKeys(Update(m, k, v))
  {
    var r := Update(m, k, v);
    UpdateKeys(m, k, v);
    var kr, km := Keys(r), Keys(m);
    forall i, j | 0 <= i < j < |r|
      ensures r[i].0 != r[j].0
    {
      assert kr[i] == r[i].0 && kr[j] == r[j].0;
      if j < |m| {
        assert km[i] == m[i].0 && km[j] == m[j].0;
      } else {
        assert km[i] == m[i].0;
      }
    }
  }

  /** The keys of an entry in front of a list. */
  lemma KeysCons(p: Pair, m: seq<Pair>)
    ensures Keys([p] + m) == [p.0] + Keys(m)
  {
    assert ([p] + m)[1..] == m;
  }

  /** After put(k, v), get(k) yields v and every other key yields what it did before. */
  lemma {:induction false} LookupUpdate(m: seq<Pair>, k: string, v: string, k': string)
    ensures Lookup(Update(m, k, v), k') == if k' == k then Some(v) else Lookup(m, k')
  {
    if m != [] {
      var r := Update(m, k, v);
      if m[0].0 == k {
        assert r[1..] == m[1..];
      } else {
        LookupUpdate(m[1..], k, v, k');
        assert r[1..] == Update(m[1..], k, v);
      }
    }
  }

  /** A LinkedHashMap<String, String>: its entries, in insertion order. */
  class LinkedMap {
    var entries: seq<Pair>

    ghost predicate Valid()
      reads this
    {
      UniqueKeys(entries)
    }

    /** new LinkedHashMap<>(): no entries. */
    constructor ()
      ensures Valid() && entries == []
    {
      entries := [];
    }

    /** put(key, value) */
    method Put(key: string, value: string)
      requires Valid()
      modifies this
      ensures Valid()
      ensures entries == Update(old(entries), key, value)
    {
      UpdateUnique(entries, key, value);
      entries := Update(entries, key, value);
    }

    /** get(key) */
    function Get(key: string): (r: Option<string>)
      reads this
      ensures r.Some? <==> key in Keys(entries)
      ensures r.Some? ==> (key, r.value) in entries
    {
      Lookup(entries, key)
    }
  }
}
