/** A map from car index to record that remembers the order in which keys
    were first inserted, as a Python dict does. Both dashboards keep their car
    table in one; the order decides how equal distances are ranked. */
module Ordered {

  datatype Table<V> = Table(order: seq<nat>, entries: map<nat, V>)

  /** Keys appear once each in `order`, and exactly the keys of `entries` do. */
  ghost predicate Valid<V>(t: Table<V>)
  {
    && (forall i, j :: 0 <= i < j < |t.order| ==> t.order[i] != t.order[j])
    && (forall k :: k in t.order <==> k in t.entries)
  }

  function Empty<V>(): (t: Table<V>)
    ensures Valid(t) && t.entries == map[]
  {
    Table([], map[])
  }

  /** `d[k] = v`: an existing key keeps its place; a new key goes last. */
  function Put<V>(t: Table<V>, k: nat, v: V): (r: Table<V>)
    ensures Valid(t) ==> Valid(r)
    ensures r.entries == t.entries[k := v]
    ensures k in t.entries ==> r.order == t.order
    ensures k !in t.entries ==> r.order == t.order + [k]
  {
    if k in t.entries then Table(t.order, t.entries[k := v])
    else Table(t.order + [k], t.entries[k := v])
  }

  /** The records in insertion order, as `d.items()` yields them. */
  function Items<V>(t: Table<V>): (r: seq<(nat, V)>)
    requires Valid(t)
    ensures |r| == |t.order|
    ensures forall i :: 0 <= i < |r| ==> r[i].0 == t.order[i] && r[i].1 == t.entries[t.order[i]]
  {
    seq(|t.order|, i requires 0 <= i < |t.order| => (t.order[i], t.entries[t.order[i]]))
  }

  /** True when `a` and `b` agree on whether `k` is present and on its record. */
  ghost predicate SameAt<V>(a: Table<V>, b: Table<V>, k: nat)
  {
    (k in a.entries <==> k in b.entries) && (k in a.entries ==> a.entries[k] == b.entries[k])
  }
}
