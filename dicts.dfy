/** Python dictionaries as the program uses them: string keys, values in
    insertion order. A dictionary is the sequence of its items; iteration order
    is sequence order, which decides ties later in the ranking. */
module Dicts {
  import opened Wrappers

  type Dict<V> = seq<(string, V)>

  /** No key occurs twice: the sequence is a well-formed dictionary. */
  predicate DistinctKeys<V>(d: Dict<V>) {
    forall i, j :: 0 <= i < j < |d| ==> d[i].0 != d[j].0
  }

  /** `list(d.keys())` */
  function Keys<V>(d: Dict<V>): (ks: seq<string>)
    ensures |ks| == |d|
    ensures forall i :: 0 <= i < |d| ==> ks[i] == d[i].0
  {
    seq(|d|, i requires 0 <= i < |d| => d[i].0)
  }

  /** Position of `key` among the items, if present. */
  function IndexOf<V>(d: Dict<V>, key: string): (r: Option<nat>)
    ensures r.Some? ==> r.value < |d| && d[r.value].0 == key
    ensures r.None? <==> forall i :: 0 <= i < |d| ==> d[i].0 != key
  {
    if d == [] then None
    else if d[0].0 == key then Some(0)
    else match IndexOf(d[1..], key)
      case None => None
      case Some(k) => Some(k + 1)
  }

  /** `d.get(key)`: the value stored under `key`, or `None`. */
  function Get<V>(d: Dict<V>, key: string): (r: Option<V>)
    ensures r.None? <==> key !in Keys(d)
    ensures r.Some? ==> exists i :: 0 <= i < |d| && d[i] == (key, r.value)
    ensures DistinctKeys(d) ==> forall i :: 0 <= i < |d| && d[i].0 == key ==> r == Some(d[i].1)
  {
    match IndexOf(d, key)
    case None => None
    case Some(k) => Some(d[k].1)
  }

  /** `d.setdefault(key, []).append(v)`: append `v` to the list stored under
      `key`, creating an empty list for a new key first. */
  function SetDefaultAppend<V>(d: Dict<seq<V>>, key: string, v: V): (r: Dict<seq<V>>)
    ensures key !in Keys(d) ==> r == d + [(key, [v])]
    ensures key in Keys(d) ==> Keys(r) == Keys(d)
    ensures DistinctKeys(d) ==> DistinctKeys(r)
    ensures DistinctKeys(d) && key in Keys(d) ==> Get(r, key) == Some(Get(d, key).value + [v])
    ensures forall k :: k != key ==> Get(r, k) == Get(d, k)
  {
    match IndexOf(d, key)
    case None =>
      IndexOfAppend(d, (key, [v]));
      d + [(key, [v])]
    case Some(k) =>
      IndexOfReplace(d, k, d[k].1 + [v]);
      d[k := (key, d[k].1 + [v])]
  }

  /** Appending an item does not move the keys already present. */
  lemma {:induction false} IndexOfAppend<V>(d: Dict<V>, item: (string, V))
    ensures forall k :: IndexOf(d + [item], k)
                        == if IndexOf(d, k).Some? then IndexOf(d, k) else if item.0 == k then Some(|d|) else None
  {
    if d != [] {
      IndexOfAppend(d[1..], item);
      assert (d + [item])[1..] == d[1..] + [item];
    }
  }

  /** Replacing the value of the item at position `i` leaves every lookup's
      position unchanged. */
  lemma {:induction false} IndexOfReplace<V>(d: Dict<V>, i: nat, v: V)
    requires i < |d|
    ensures forall k :: IndexOf(d[i := (d[i].0, v)], k) == IndexOf(d, k)
  {
    if i > 0 {
      IndexOfReplace(d[1..], i - 1, v);
      assert d[i := (d[i].0, v)][1..] == d[1..][i - 1 := (d[i].0, v)];
    }
  }
}
