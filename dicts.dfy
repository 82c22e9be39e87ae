/**
 * A Python `dict` keyed by strings: the key/value map together with the
 * insertion order that `dict.items()` follows. Re-assigning an existing key
 * replaces its value but keeps its place; a new key goes last.
 */
module Dicts {
  import opened Wrappers

  datatype RawDict<V> = RawDict(order: seq<string>, entries: map<string, V>)

  /** Every key appears exactly once in the iteration order, and only keys do. */
  ghost predicate WellFormed<V>(d: RawDict<V>) {
    && (forall i, j :: 0 <= i < j < |d.order| ==> d.order[i] != d.order[j])
    && (forall k :: k in d.entries <==> k in d.order)
  }

  type Dict<V> = d: RawDict<V> | WellFormed(d) witness RawDict([], map[])

  /** `{}` */
  function Empty<V>(): (d: Dict<V>)
    ensures forall k :: Get(d, k) == None
    ensures d.order == []
  {
    RawDict([], map[])
  }

  /** `d.get(k, None)` */
  function Get<V>(d: Dict<V>, k: string): Option<V> {
    if k in d.entries then Some(d.entries[k]) else None
  }

  /** `d[k] = v`: last write wins, and only key `k` changes. */
  function Insert<V>(d: Dict<V>, k: string, v: V): (r: Dict<V>)
    ensures Get(r, k) == Some(v)
    ensures forall j :: j != k ==> Get(r, j) == Get(d, j)
    ensures r.entries == d.entries[k := v]
    ensures k in d.entries ==> r.order == d.order
    ensures k !in d.entries ==> r.order == d.order + [k]
  {
    if k in d.entries then RawDict(d.order, d.entries[k := v])
    else RawDict(d.order + [k], d.entries[k := v])
  }

  /** Position of a key in the iteration order. */
  function IndexOf<V>(d: Dict<V>, k: string): (i: nat)
    requires k in d.entries
    ensures i < |d.order| && d.order[i] == k
  {
    IndexIn(d.order, k)
  }

  function IndexIn(s: seq<string>, k: string): (i: nat)
    requires k in s
    ensures i < |s| && s[i] == k
  {
    if s[0] == k then 0 else 1 + IndexIn(s[1..], k)
  }
}
