/** What a loop of `d.setdefault(key, []).append(v)` over a sequence of
    (key, value) pairs builds, stated without the loop: the keys in the order
    they are first seen, each with its values in the order they came. */
module Grouping {
  import opened Wrappers
  import opened Dicts

  /** The distinct keys of `pairs`, in order of first occurrence. */
  function FirstSeenKeys<V>(pairs: seq<(string, V)>): (ks: seq<string>)
    ensures |ks| <= |pairs|
    ensures forall i, j :: 0 <= i < j < |ks| ==> ks[i] != ks[j]
    ensures forall k :: k in ks <==> exists i :: 0 <= i < |pairs| && pairs[i].0 == k
  {
    if pairs == [] then []
    else
      var init, last := pairs[..|pairs| - 1], pairs[|pairs| - 1];
      var ks := FirstSeenKeys(init);
      assert forall i :: 0 <= i < |init| ==> init[i] == pairs[i];
      if last.0 in ks then ks else ks + [last.0]
  }

  /** The keys come in order of first occurrence: wherever the later of two
      keys occurs, the earlier one has occurred before. */
  lemma {:induction false} FirstSeenKeysOrder<V>(pairs: seq<(string, V)>, i: nat, j: nat, b: nat)
    requires i < j < |FirstSeenKeys(pairs)|
    requires b < |pairs| && pairs[b].0 == FirstSeenKeys(pairs)[j]
    ensures exists a :: 0 <= a < b && pairs[a].0 == FirstSeenKeys(pairs)[i]
  {
    var n := |pairs| - 1;
    var init := pairs[..n];
    var ks0 := FirstSeenKeys(init);
    assert forall k :: 0 <= k < n ==> init[k] == pairs[k];
    assert ks0[i] in ks0;
    var a :| 0 <= a < n && init[a].0 == ks0[i];
    if j < |ks0| && b < n {
      FirstSeenKeysOrder(init, i, j, b);
    }
  }

  /** The values paired with `key`, in order. */
  function ValuesFor<V>(pairs: seq<(string, V)>, key: string): (vs: seq<V>)
    ensures |vs| <= |pairs|
    ensures vs == [] <==> forall i :: 0 <= i < |pairs| ==> pairs[i].0 != key
  {
    if pairs == [] then []
    else
      var init, last := pairs[..|pairs| - 1], pairs[|pairs| - 1];
      assert forall i :: 0 <= i < |init| ==> init[i] == pairs[i];
      ValuesFor(init, key) + if last.0 == key then [last.1] else []
  }

  /** The dictionary the setdefault-append loop builds from `pairs`. */
  function Grouped<V>(pairs: seq<(string, V)>): (g: Dict<seq<V>>)
    ensures DistinctKeys(g)
    ensures Keys(g) == FirstSeenKeys(pairs)
    ensures forall i :: 0 <= i < |g| ==> g[i].1 == ValuesFor(pairs, g[i].0) && g[i].1 != []
  {
    var ks := FirstSeenKeys(pairs);
    assert forall i :: 0 <= i < |ks| ==> ks[i] in ks;
    seq(|ks|, i requires 0 <= i < |ks| => (ks[i], ValuesFor(pairs, ks[i])))
  }

  lemma FirstSeenKeysSnoc<V>(pairs: seq<(string, V)>, key: string, v: V)
    ensures var ks := FirstSeenKeys(pairs);
            FirstSeenKeys(pairs + [(key, v)]) == if key in ks then ks else ks + [key]
  {
    assert (pairs + [(key, v)])[..|pairs|] == pairs;
  }

  lemma ValuesForSnoc<V>(pairs: seq<(string, V)>, key: string, v: V, x: string)
    ensures ValuesFor(pairs + [(key, v)], x) == ValuesFor(pairs, x) + if x == key then [v] else []
  {
    assert (pairs + [(key, v)])[..|pairs|] == pairs;
  }

  /** One more setdefault-append step extends the grouping of the pairs seen
      so far to the grouping of one more pair. */
  lemma GroupedStep<V>(pairs: seq<(string, V)>, key: string, v: V)
    ensures SetDefaultAppend(Grouped(pairs), key, v) == Grouped(pairs + [(key, v)])
  {
    var g := Grouped(pairs);
    match IndexOf(g, key)
    case None => GroupedStepNew(pairs, key, v);
    case Some(k) => GroupedStepExisting(pairs, key, v, k);
  }

  lemma GroupedStepNew<V>(pairs: seq<(string, V)>, key: string, v: V)
    requires IndexOf(Grouped(pairs), key).None?
    ensures Grouped(pairs) + [(key, [v])] == Grouped(pairs + [(key, v)])
  {
    var ext := pairs + [(key, v)];
    var g, g' := Grouped(pairs), Grouped(ext);
    var ks, ks' := FirstSeenKeys(pairs), FirstSeenKeys(ext);
    FirstSeenKeysSnoc(pairs, key, v);
    assert key !in ks;
    assert ks' == ks + [key];
    assert |g| == |ks| && |g'| == |ks'| == |g| + 1;
    forall i | 0 <= i < |g'|
      ensures (g + [(key, [v])])[i] == g'[i]
    {
      ValuesForSnoc(pairs, key, v, ks'[i]);
      assert g'[i] == (ks'[i], ValuesFor(ext, ks'[i]));
      if i < |g| {
        assert g[i] == (ks[i], ValuesFor(pairs, ks[i]));
        assert ks'[i] == ks[i] != key;
        assert (g + [(key, [v])])[i] == g[i];
        assert ValuesFor(ext, ks[i]) == ValuesFor(pairs, ks[i]);
        assert g[i] == g'[i];
      } else {
        assert i == |g|;
        assert ks'[i] == key;
        assert ValuesFor(pairs, key) == [];
        assert ValuesFor(ext, key) == [v];
        assert (g + [(key, [v])])[i] == (key, [v]);
      }
    }
  }

  lemma GroupedStepExisting<V>(pairs: seq<(string, V)>, key: string, v: V, k: nat)
    requires IndexOf(Grouped(pairs), key) == Some(k)
    ensures Grouped(pairs)[k := (key, Grouped(pairs)[k].1 + [v])] == Grouped(pairs + [(key, v)])
  {
    var ext := pairs + [(key, v)];
    var g, g' := Grouped(pairs), Grouped(ext);
    var ks, ks' := FirstSeenKeys(pairs), FirstSeenKeys(ext);
    FirstSeenKeysSnoc(pairs, key, v);
    assert ks[k] == key;
    assert ks' == ks;
    assert |g| == |ks| && |g'| == |ks'| == |g|;
    var lhs := g[k := (key, g[k].1 + [v])];
    forall i | 0 <= i < |g|
      ensures lhs[i] == g'[i]
    {
      ValuesForSnoc(pairs, key, v, ks[i]);
      assert g'[i] == (ks[i], ValuesFor(ext, ks[i]));
      assert g[i] == (ks[i], ValuesFor(pairs, ks[i]));
      if i == k {
        assert lhs[i] == (key, ValuesFor(pairs, key) + [v]);
      } else {
        assert ks[i] != key;
        assert lhs[i] == g[i];
        assert ValuesFor(ext, ks[i]) == ValuesFor(pairs, ks[i]);
      }
    }
  }
}
