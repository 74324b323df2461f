/** The ranker (`save_ranking`, repeated in `generate_map` and `main`):
    `sorted(city_means.items(), key=lambda x: x[1])` followed by
    `enumerate(ranking, start=1)`. Python's sort is stable, so cities with equal
    statistics keep their dictionary order. */
module Ranking {
  import opened Dicts

  /** One row of the ranking: 1-based rank, city, statistic. */
  datatype RankedEntry = RankedEntry(rank: nat, city: string, value: real)

  /** Non-decreasing by statistic. */
  predicate SortedByValue(s: Dict<real>) {
    forall i, j :: 0 <= i < j < |s| ==> s[i].1 <= s[j].1
  }

  /** The items of `s` whose statistic is `v`, in order. A sort is stable when
      it keeps this subsequence unchanged for every `v`. */
  function WithValue(s: Dict<real>, v: real): seq<(string, real)> {
    if s == [] then []
    else WithValue(s[..|s| - 1], v) + if s[|s| - 1].1 == v then [s[|s| - 1]] else []
  }

  lemma WithValueSnoc(s: Dict<real>, y: (string, real), v: real)
    ensures WithValue(s + [y], v) == WithValue(s, v) + if y.1 == v then [y] else []
  {
    assert (s + [y])[..|s|] == s;
  }

  /** Inserts `x` after every item whose statistic is at most that of `x`. */
  function InsertStable(t: Dict<real>, x: (string, real)): (r: Dict<real>)
    ensures |r| == |t| + 1
    ensures multiset(r) == multiset(t) + multiset{x}
  {
    if t == [] then [x]
    else if t[|t| - 1].1 <= x.1 then t + [x]
    else
      var init, last := t[..|t| - 1], t[|t| - 1];
      assert t == init + [last];
      InsertStable(init, x) + [last]
  }

  /** Insertion keeps the items of every statistic in order, `x` after the
      items that share its statistic. */
  lemma {:induction false} InsertStableKeepsTies(t: Dict<real>, x: (string, real), v: real)
    ensures WithValue(InsertStable(t, x), v) == WithValue(t, v) + if x.1 == v then [x] else []
  {
    if t == [] {
      WithValueSnoc([], x, v);
    } else if t[|t| - 1].1 <= x.1 {
      WithValueSnoc(t, x, v);
    } else {
      var init, last := t[..|t| - 1], t[|t| - 1];
      var xs: seq<(string, real)> := if x.1 == v then [x] else [];
      var ls: seq<(string, real)> := if last.1 == v then [last] else [];
      assert InsertStable(t, x) == InsertStable(init, x) + [last];
      InsertStableKeepsTies(init, x, v);
      WithValueSnoc(InsertStable(init, x), last, v);
      assert WithValue(t, v) == WithValue(init, v) + ls;
      // `x` goes before `last` only when their statistics differ.
      assert xs == [] || ls == [];
      assert xs + ls == ls + xs;
      assert WithValue(init, v) + xs + ls == WithValue(init, v) + (xs + ls);
    }
  }

  /** Insertion keeps every statistic at most `bound` when it was so before. */
  lemma {:induction false} InsertStableBounded(t: Dict<real>, x: (string, real), bound: real)
    requires forall i :: 0 <= i < |t| ==> t[i].1 <= bound
    requires x.1 <= bound
    ensures forall i :: 0 <= i < |InsertStable(t, x)| ==> InsertStable(t, x)[i].1 <= bound
  {
    if t != [] && t[|t| - 1].1 > x.1 {
      InsertStableBounded(t[..|t| - 1], x, bound);
    }
  }

  lemma {:induction false} InsertStableSorted(t: Dict<real>, x: (string, real))
    requires SortedByValue(t)
    ensures SortedByValue(InsertStable(t, x))
  {
    if t != [] && t[|t| - 1].1 > x.1 {
      var init, last := t[..|t| - 1], t[|t| - 1];
      InsertStableSorted(init, x);
      InsertStableBounded(init, x, last.1);
      var r := InsertStable(init, x);
      assert InsertStable(t, x) == r + [last];
    }
  }

  /** `sorted(items, key=lambda x: x[1])`, as a stable insertion sort. */
  function SortByValue(s: Dict<real>): (r: Dict<real>)
    ensures |r| == |s|
    ensures multiset(r) == multiset(s)
  {
    if s == [] then []
    else
      var init, last := s[..|s| - 1], s[|s| - 1];
      assert s == init + [last];
      InsertStable(SortByValue(init), last)
  }

  lemma {:induction false} SortByValueSorted(s: Dict<real>)
    ensures SortedByValue(SortByValue(s))
  {
    if s != [] {
      SortByValueSorted(s[..|s| - 1]);
      InsertStableSorted(SortByValue(s[..|s| - 1]), s[|s| - 1]);
    }
  }

  /** The sort is stable: the items of every statistic keep their order. */
  lemma {:induction false} SortByValueStable(s: Dict<real>, v: real)
    ensures WithValue(SortByValue(s), v) == WithValue(s, v)
  {
    if s != [] {
      var init, last := s[..|s| - 1], s[|s| - 1];
      SortByValueStable(init, v);
      InsertStableKeepsTies(SortByValue(init), last, v);
    }
  }

  /** The (city, statistic) items of a ranking, ranks dropped. */
  function Items(r: seq<RankedEntry>): Dict<real> {
    seq(|r|, i requires 0 <= i < |r| => (r[i].city, r[i].value))
  }

  /** `enumerate(sorted(city_means.items(), key=lambda x: x[1]), start=1)` */
  function Rank(cityMeans: Dict<real>): (r: seq<RankedEntry>)
    ensures |r| == |cityMeans|
    ensures forall i :: 0 <= i < |r| ==> r[i].rank == i + 1
    ensures multiset(Items(r)) == multiset(cityMeans)
    ensures SortedByValue(Items(r))
    ensures forall v :: WithValue(Items(r), v) == WithValue(cityMeans, v)
  {
    var sorted := SortByValue(cityMeans);
    SortByValueSorted(cityMeans);
    forall v ensures WithValue(sorted, v) == WithValue(cityMeans, v) {
      SortByValueStable(cityMeans, v);
    }
    var r := seq(|sorted|, i requires 0 <= i < |sorted| => RankedEntry(i + 1, sorted[i].0, sorted[i].1));
    assert Items(r) == sorted;
    r
  }

  /** Exactly the cities of the dictionary are ranked. */
  lemma RankedCities(cityMeans: Dict<real>, city: string)
    ensures (exists i :: 0 <= i < |Rank(cityMeans)| && Rank(cityMeans)[i].city == city) <==> city in Keys(cityMeans)
  {
    var r := Rank(cityMeans);
    if exists i :: 0 <= i < |r| && r[i].city == city {
      var i :| 0 <= i < |r| && r[i].city == city;
      assert Items(r)[i] in multiset(cityMeans);
      var j :| 0 <= j < |cityMeans| && cityMeans[j] == Items(r)[i];
      assert Keys(cityMeans)[j] == city;
    }
    if city in Keys(cityMeans) {
      var j :| 0 <= j < |cityMeans| && cityMeans[j].0 == city;
      assert cityMeans[j] in multiset(Items(r));
      var i :| 0 <= i < |r| && Items(r)[i] == cityMeans[j];
      assert r[i].city == city;
    }
  }

  /** A city of a well-formed dictionary is ranked at most once. */
  lemma RankedOnce(cityMeans: Dict<real>)
    requires DistinctKeys(cityMeans)
    ensures forall i, j :: 0 <= i < j < |Rank(cityMeans)| ==> Rank(cityMeans)[i].city != Rank(cityMeans)[j].city
  {
    var r := Rank(cityMeans);
    var items := Items(r);
    forall i, j | 0 <= i < j < |r|
      ensures r[i].city != r[j].city
    {
      var x, y := items[i], items[j];
      assert x in multiset(cityMeans) && y in multiset(cityMeans);
      var a :| 0 <= a < |cityMeans| && cityMeans[a] == x;
      var b :| 0 <= b < |cityMeans| && cityMeans[b] == y;
      CountedTwice(items, i, j);
      OccursOnce(cityMeans, x);
    }
  }

  /** An item found at two positions occurs at least twice. */
  lemma CountedTwice<T>(s: seq<T>, i: nat, j: nat)
    requires i < j < |s|
    ensures s[i] == s[j] ==> multiset(s)[s[i]] >= 2
  {
    assert s == s[..j] + [s[j]] + s[j + 1..];
    assert s[..j][i] == s[i];
  }

  /** In a dictionary with distinct keys every item occurs once. */
  lemma {:induction false} OccursOnce(d: Dict<real>, x: (string, real))
    requires DistinctKeys(d)
    ensures multiset(d)[x] <= 1
  {
    if d != [] {
      var n := |d| - 1;
      var init := d[..n];
      assert d == init + [d[n]];
      OccursOnce(init, x);
      if d[n] == x {
        assert forall k :: 0 <= k < n ==> init[k] != x;
        assert x !in multiset(init);
      }
    }
  }

  /** Two cities with the same statistic are ranked in their dictionary order. */
  lemma TiesKeepInputOrder(cityMeans: Dict<real>, i: nat, j: nat)
    requires i < j < |Rank(cityMeans)| && Rank(cityMeans)[i].value == Rank(cityMeans)[j].value
    ensures var v := Rank(cityMeans)[i].value;
            exists a, b :: 0 <= a < b < |WithValue(cityMeans, v)|
                        && WithValue(cityMeans, v)[a] == Items(Rank(cityMeans))[i]
                        && WithValue(cityMeans, v)[b] == Items(Rank(cityMeans))[j]
  {
    var items := Items(Rank(cityMeans));
    var v := items[i].1;
    WithValueIndex(items, v, i, j);
  }

  /** Positions `i < j` with statistic `v` keep their order inside `WithValue`. */
  lemma {:induction false} WithValueIndex(s: Dict<real>, v: real, i: nat, j: nat)
    requires i < j < |s| && s[i].1 == v && s[j].1 == v
    ensures exists a, b :: 0 <= a < b < |WithValue(s, v)| && WithValue(s, v)[a] == s[i] && WithValue(s, v)[b] == s[j]
  {
    var n := |s| - 1;
    var init := s[..n];
    if j == n {
      WithValueContains(init, v, i);
      var a :| 0 <= a < |WithValue(init, v)| && WithValue(init, v)[a] == s[i];
      var b := |WithValue(init, v)|;
      assert WithValue(s, v) == WithValue(init, v) + [s[n]];
      assert WithValue(s, v)[a] == s[i] && WithValue(s, v)[b] == s[j];
    } else {
      WithValueIndex(init, v, i, j);
      var a, b :| 0 <= a < b < |WithValue(init, v)| && WithValue(init, v)[a] == init[i] && WithValue(init, v)[b] == init[j];
      assert WithValue(s, v)[a] == s[i] && WithValue(s, v)[b] == s[j];
    }
  }

  lemma {:induction false} WithValueContains(s: Dict<real>, v: real, i: nat)
    requires i < |s| && s[i].1 == v
    ensures exists a :: 0 <= a < |WithValue(s, v)| && WithValue(s, v)[a] == s[i]
  {
    var n := |s| - 1;
    if i == n {
      assert WithValue(s, v)[|WithValue(s, v)| - 1] == s[i];
    } else {
      WithValueContains(s[..n], v, i);
      var a :| 0 <= a < |WithValue(s[..n], v)| && WithValue(s[..n], v)[a] == s[..n][i];
      assert WithValue(s, v)[a] == s[i];
    }
  }

  /** `{X: 15, Y: 5, Z: 10}` ranks as `[(1, Y, 5), (2, Z, 10), (3, X, 15)]`. */
  lemma ExampleRanking()
    ensures Rank([("X", 15.0), ("Y", 5.0), ("Z", 10.0)])
            == [RankedEntry(1, "Y", 5.0), RankedEntry(2, "Z", 10.0), RankedEntry(3, "X", 15.0)]
  {
    ExampleSorted();
  }

  lemma ExampleSorted()
    ensures SortByValue([("X", 15.0), ("Y", 5.0), ("Z", 10.0)]) == [("Y", 5.0), ("Z", 10.0), ("X", 15.0)]
  {
    var x: (string, real), y: (string, real), z: (string, real) := ("X", 15.0), ("Y", 5.0), ("Z", 10.0);
    var empty: Dict<real> := [];
    assert [x, y, z][..2] == [x, y] && [x, y][..1] == [x] && [x][..0] == empty;
    assert SortByValue([x]) == InsertStable(empty, x) == [x];
    assert InsertStable([x], y) == InsertStable(empty, y) + [x] == [y, x];
    assert SortByValue([x, y]) == [y, x];
    assert [y, x][..1] == [y];
    assert InsertStable([y], z) == [y, z];
    assert InsertStable([y, x], z) == InsertStable([y], z) + [x] == [y, z, x];
  }
}
