/**
 * Insertion-ordered collections: JavaScript `Map` and `Set`, and a table that is
 * scanned in the order its rows were written. A set is its duplicate-free order.
 */
module Ordered {

  ghost predicate Distinct<T>(s: seq<T>) {
    forall i, j :: 0 <= i < j < |s| ==> s[i] != s[j]
  }

  /** `Set.prototype.add`: a member already present keeps its place. */
  function Include<T(==,!new)>(s: seq<T>, x: T): (r: seq<T>)
    ensures forall y :: y in r <==> y in s || y == x
    ensures Distinct(s) ==> Distinct(r)
  {
    if x in s then s else s + [x]
  }

  /** `Set.prototype.delete`. */
  function Erase<T(==,!new)>(s: seq<T>, x: T): (r: seq<T>)
    ensures forall y :: y in r <==> y in s && y != x
    ensures Distinct(s) ==> Distinct(r)
    ensures |r| <= |s|
  {
    if s == [] then []
    else if s[0] == x then Erase(s[1..], x)
    else
      var rest := Erase(s[1..], x);
      assert forall y :: y in s <==> y == s[0] || y in s[1..];
      assert Distinct(s) ==> Distinct(s[1..]) && s[0] !in rest;
      [s[0]] + rest
  }

  datatype RawMap<K(==), V> = RawMap(order: seq<K>, at: map<K, V>)

  ghost predicate WellOrdered<K(!new), V>(m: RawMap<K, V>) {
    && Distinct(m.order)
    && (forall k :: k in m.order <==> k in m.at)
  }

  type OrderedMap<K(==,!new), V> = m: RawMap<K, V> | WellOrdered(m) witness RawMap([], map[])

  function Empty<K(==,!new), V>(): (m: OrderedMap<K, V>) { RawMap([], map[]) }

  function Put<K(==,!new), V>(m: OrderedMap<K, V>, k: K, v: V): (r: OrderedMap<K, V>)
    ensures r.at == m.at[k := v]
  {
    RawMap(Include(m.order, k), m.at[k := v])
  }

  function Delete<K(==,!new), V>(m: OrderedMap<K, V>, k: K): (r: OrderedMap<K, V>)
    ensures r.at == m.at - {k}
  {
    RawMap(Erase(m.order, k), m.at - {k})
  }

  lemma SizeAfterDelete<K(!new), V>(m: OrderedMap<K, V>, k: K)
    requires k in m.at
    ensures |Delete(m, k).at| == |m.at| - 1
  {
    assert m.at.Keys == Delete(m, k).at.Keys + {k};
  }
}
