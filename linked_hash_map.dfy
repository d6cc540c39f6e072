/** The part of java.util.LinkedHashMap<String, String> that the service uses: `put`, and the
    iteration order, which is the order in which keys were FIRST inserted (overwriting the
    value of a present key does not move it). */
module LinkedHashMaps {

  /** No element of `s` occurs twice. */
  ghost predicate Distinct<T>(s: seq<T>) {
    forall i, j :: 0 <= i < j < |s| ==> s[i] != s[j]
  }

  /** The abstract value of a LinkedHashMap: its keys in iteration order, and its mapping. */
  datatype OrderedMap = OrderedMap(order: seq<string>, entries: map<string, string>) {

    /** Every key is listed exactly once in the iteration order. */
    ghost predicate Valid() {
      Distinct(order) && forall k :: k in entries <==> k in order
    }

    /** `put(k, v)`: `k` maps to `v`, every other key keeps its value, and the keys already
        present keep their positions; a new key goes last. */
    function Put(k: string, v: string): (m: OrderedMap)
      requires Valid()
      ensures m.Valid()
      ensures m.entries.Keys == entries.Keys + {k} && m.entries[k] == v
      ensures forall j :: j in entries && j != k ==> m.entries[j] == entries[j]
      ensures |order| <= |m.order| <= |order| + 1 && m.order[..|order|] == order
    {
      OrderedMap(if k in entries then order else order + [k], entries[k := v])
    }
  }

  /** `new LinkedHashMap<>()`. */
  function Empty(): (m: OrderedMap)
    ensures m.Valid() && m.entries == map[] && m.order == []
  {
    OrderedMap([], map[])
  }

  /** A sequence without repetitions has as many distinct elements as it is long. */
  lemma {:induction false} DistinctCardinality(s: seq<string>)
    requires Distinct(s)
    ensures |set x | x in s| == |s|
  {
    if s != [] {
      var n := |s| - 1;
      DistinctCardinality(s[..n]);
      assert (set x | x in s) == (set x | x in s[..n]) + {s[n]};
      assert s[n] !in (set x | x in s[..n]);
    }
  }

  /** `size()` of a well-formed map equals the length of its iteration order. */
  lemma SizeIsOrderLength(m: OrderedMap)
    requires m.Valid()
    ensures |m.entries| == |m.order|
  {
    DistinctCardinality(m.order);
    assert m.entries.Keys == set x | x in m.order;
  }

  class LinkedHashMap {
    var order: seq<string>
    var entries: map<string, string>

    /** The abstract value of this map. */
    function Model(): OrderedMap
      reads this
    {
      OrderedMap(order, entries)
    }

    ghost predicate Valid()
      reads this
    {
      Model().Valid()
    }

    constructor ()
      ensures Valid() && Model() == Empty()
    {
      order := [];
      entries := map[];
    }

    method Put(k: string, v: string)
      requires Valid()
      modifies this
      ensures Valid() && Model() == old(Model()).Put(k, v)
    {
      if k !in entries {
        order := order + [k];
      }
      entries := entries[k := v];
    }
  }
}
