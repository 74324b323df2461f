/** The city reducers: `aggregate_city_means` averages the defined station
    statistics of each city; `city_coordinates` averages the position of every
    station of each city. The two use different inclusion rules. */
module CityAggregation {
  import opened Wrappers
  import opened Dicts
  import opened Averages
  import opened Grouping

  /** One station's metadata record (`load_station_metadata`). */
  datatype StationMeta = StationMeta(name: string, city: string, lon: real, lat: real, control: string)

  /** The (city, statistic) pairs that `aggregate_city_means` appends, in
      station order: a station counts when it has metadata and a defined
      statistic. */
  function Contributions(stationMeans: Dict<Option<real>>, stationMeta: Dict<StationMeta>): (cs: seq<(string, real)>)
    ensures |cs| <= |stationMeans|
  {
    if stationMeans == [] then []
    else
      var init, last := stationMeans[..|stationMeans| - 1], stationMeans[|stationMeans| - 1];
      var meta := Get(stationMeta, last.0);
      Contributions(init, stationMeta)
        + if meta.Some? && last.1.Some? then [(meta.value.city, last.1.value)] else []
  }

  lemma ContributionsStep(stationMeans: Dict<Option<real>>, stationMeta: Dict<StationMeta>, k: nat)
    requires k < |stationMeans|
    ensures var meta, meanVal := Get(stationMeta, stationMeans[k].0), stationMeans[k].1;
            Contributions(stationMeans[..k + 1], stationMeta)
            == Contributions(stationMeans[..k], stationMeta)
               + if meta.Some? && meanVal.Some? then [(meta.value.city, meanVal.value)] else []
  {
    assert stationMeans[..k + 1][..k] == stationMeans[..k];
  }

  /** Station `i` has metadata naming `city` and a defined statistic. */
  predicate Contributes(stationMeans: Dict<Option<real>>, stationMeta: Dict<StationMeta>, i: nat, city: string)
    requires i < |stationMeans|
  {
    var meta := Get(stationMeta, stationMeans[i].0);
    meta.Some? && meta.value.city == city && stationMeans[i].1.Some?
  }

  /** `{city: sum(vals) / len(vals) for city, vals in groups.items() if vals}` */
  function MeanPerKey(groups: Dict<seq<real>>): (r: Dict<real>)
    ensures |r| <= |groups|
    ensures (forall i :: 0 <= i < |groups| ==> groups[i].1 != []) ==>
              Keys(r) == Keys(groups) && forall i :: 0 <= i < |groups| ==> Mean(groups[i].1) == Some(r[i].1)
  {
    if groups == [] then []
    else
      var init, last := groups[..|groups| - 1], groups[|groups| - 1];
      assert forall i :: 0 <= i < |init| ==> init[i] == groups[i];
      MeanPerKey(init) + if last.1 != [] then [(last.0, Sum(last.1) / |last.1| as real)] else []
  }

  /** The city statistics: each city's defined station statistics, averaged.
      Every city occurs once, and there are no more cities than stations. */
  function CityMeansOf(stationMeans: Dict<Option<real>>, stationMeta: Dict<StationMeta>): (r: Dict<real>)
    ensures DistinctKeys(r)
    ensures |r| <= |stationMeans|
  {
    var g := Grouped(Contributions(stationMeans, stationMeta));
    var r := MeanPerKey(g);
    assert Keys(r) == Keys(g);
    assert forall i :: 0 <= i < |r| ==> r[i].0 == g[i].0;
    r
  }

  /** `aggregate_city_means(station_means, station_meta)` */
  method AggregateCityMeans(stationMeans: Dict<Option<real>>, stationMeta: Dict<StationMeta>)
    returns (cityMeans: Dict<real>)
    ensures cityMeans == CityMeansOf(stationMeans, stationMeta)
  {
    var cityValues: Dict<seq<real>> := [];
    for k := 0 to |stationMeans|
      invariant cityValues == Grouped(Contributions(stationMeans[..k], stationMeta))
    {
      var code, meanVal := stationMeans[k].0, stationMeans[k].1;
      var meta := Get(stationMeta, code);
      ContributionsStep(stationMeans, stationMeta, k);
      if meta.Some? && meanVal.Some? {
        GroupedStep(Contributions(stationMeans[..k], stationMeta), meta.value.city, meanVal.value);
        cityValues := SetDefaultAppend(cityValues, meta.value.city, meanVal.value);
      } else {
        assert Contributions(stationMeans[..k + 1], stationMeta) == Contributions(stationMeans[..k], stationMeta);
      }
    }
    assert stationMeans[..|stationMeans|] == stationMeans;
    cityMeans := MeanPerKey(cityValues);
  }

  /** The defined statistics of the stations that count towards `city`, in
      station order: an independent statement of what the city averages. */
  function CityStationMeans(stationMeans: Dict<Option<real>>, stationMeta: Dict<StationMeta>, city: string): seq<real> {
    if stationMeans == [] then []
    else
      var n := |stationMeans| - 1;
      CityStationMeans(stationMeans[..n], stationMeta, city)
        + if Contributes(stationMeans, stationMeta, n, city) then [stationMeans[n].1.value] else []
  }

  /** One more station adds its mean to its own city's list and to no other. */
  lemma ValuesForContributionsStep(stationMeans: Dict<Option<real>>, stationMeta: Dict<StationMeta>, k: nat, city: string)
    requires k < |stationMeans|
    ensures ValuesFor(Contributions(stationMeans[..k + 1], stationMeta), city)
            == ValuesFor(Contributions(stationMeans[..k], stationMeta), city)
               + if Contributes(stationMeans, stationMeta, k, city) then [stationMeans[k].1.value] else []
  {
    ContributionsStep(stationMeans, stationMeta, k);
    var meta := Get(stationMeta, stationMeans[k].0);
    var pre := Contributions(stationMeans[..k], stationMeta);
    if meta.Some? && stationMeans[k].1.Some? {
      ValuesForSnoc(pre, meta.value.city, stationMeans[k].1.value, city);
      if meta.value.city != city {
        assert ValuesFor(pre, city) + [] == ValuesFor(pre, city);
      }
    } else {
      assert pre + [] == pre;
      assert ValuesFor(pre, city) + [] == ValuesFor(pre, city);
    }
  }

  /** The values grouped under `city` are exactly the statistics of the
      stations that count towards it. */
  lemma {:induction false} GroupedValuesAreCityStationMeans(stationMeans: Dict<Option<real>>, stationMeta: Dict<StationMeta>, city: string)
    ensures ValuesFor(Contributions(stationMeans, stationMeta), city) == CityStationMeans(stationMeans, stationMeta, city)
  {
    if stationMeans != [] {
      var n := |stationMeans| - 1;
      GroupedValuesAreCityStationMeans(stationMeans[..n], stationMeta, city);
      ValuesForContributionsStep(stationMeans, stationMeta, n, city);
      assert stationMeans[..n + 1] == stationMeans;
    }
  }


  /** A station counts towards `city` exactly when some statistic in the
      sequence fed to the grouping loop is paired with `city`. */
  lemma {:induction false} ContributionsMention(stationMeans: Dict<Option<real>>, stationMeta: Dict<StationMeta>, city: string)
    ensures (exists j :: 0 <= j < |Contributions(stationMeans, stationMeta)| && Contributions(stationMeans, stationMeta)[j].0 == city)
        <==> exists i :: 0 <= i < |stationMeans| && Contributes(stationMeans, stationMeta, i, city)
  {
    GroupedValuesAreCityStationMeans(stationMeans, stationMeta, city);
    CityStationMeansEmptyIff(stationMeans, stationMeta, city);
  }

  lemma {:induction false} CityStationMeansEmptyIff(stationMeans: Dict<Option<real>>, stationMeta: Dict<StationMeta>, city: string)
    ensures CityStationMeans(stationMeans, stationMeta, city) == []
        <==> forall i :: 0 <= i < |stationMeans| ==> !Contributes(stationMeans, stationMeta, i, city)
  {
    if stationMeans != [] {
      var n := |stationMeans| - 1;
      CityStationMeansEmptyIff(stationMeans[..n], stationMeta, city);
      assert forall i :: 0 <= i < n ==> (Contributes(stationMeans[..n], stationMeta, i, city) <==> Contributes(stationMeans, stationMeta, i, city));
    }
  }

  /** A city has a statistic exactly when at least one station with metadata
      naming it has a defined statistic; cities without one are absent. */
  lemma CityPresentIff(stationMeans: Dict<Option<real>>, stationMeta: Dict<StationMeta>, city: string)
    ensures city in Keys(CityMeansOf(stationMeans, stationMeta))
        <==> exists i :: 0 <= i < |stationMeans| && Contributes(stationMeans, stationMeta, i, city)
  {
    var cs := Contributions(stationMeans, stationMeta);
    CityMeansKeys(stationMeans, stationMeta);
    ContributionsMention(stationMeans, stationMeta, city);
    if exists i :: 0 <= i < |stationMeans| && Contributes(stationMeans, stationMeta, i, city) {
      var j :| 0 <= j < |cs| && cs[j].0 == city;
      assert city in FirstSeenKeys(cs);
    } else {
      assert city !in FirstSeenKeys(cs);
    }
  }

  /** The cities with a statistic, in the order they are first seen. */
  lemma CityMeansKeys(stationMeans: Dict<Option<real>>, stationMeta: Dict<StationMeta>)
    ensures Keys(CityMeansOf(stationMeans, stationMeta)) == FirstSeenKeys(Contributions(stationMeans, stationMeta))
  {
    var g := Grouped(Contributions(stationMeans, stationMeta));
    assert forall i :: 0 <= i < |g| ==> g[i].1 != [];
  }

  /** Each city's statistic is the mean of the defined statistics of its
      stations, undefined ones left out. */
  lemma CityMeanIsMeanOfStations(stationMeans: Dict<Option<real>>, stationMeta: Dict<StationMeta>, i: nat)
    requires i < |CityMeansOf(stationMeans, stationMeta)|
    ensures var (city, value) := CityMeansOf(stationMeans, stationMeta)[i];
            Mean(CityStationMeans(stationMeans, stationMeta, city)) == Some(value)
  {
    var cs := Contributions(stationMeans, stationMeta);
    var g := Grouped(cs);
    var r := CityMeansOf(stationMeans, stationMeta);
    assert Keys(r) == Keys(g);
    assert r[i].0 == g[i].0;
    GroupedValuesAreCityStationMeans(stationMeans, stationMeta, r[i].0);
  }

  /** Stations A = 10 and C = 20 and an undefined B, all in city X, give X the
      statistic 15. */
  lemma ExampleUndefinedStationSkipped()
    ensures var meta := StationMeta("", "X", 0.0, 0.0, "");
            CityMeansOf([("A", Some(10.0)), ("B", None), ("C", Some(20.0))],
                        [("A", meta), ("B", meta), ("C", meta)])
            == [("X", 15.0)]
  {
    ExampleContributions();
    ExampleGrouping();
    ExampleMean();
  }

  lemma ExampleMean()
    ensures MeanPerKey([("X", [10.0, 20.0])]) == [("X", 15.0)]
  {
    assert [10.0, 20.0][..1] == [10.0];
    assert Sum([10.0, 20.0]) == 30.0;
    var empty: Dict<seq<real>> := [];
    assert [("X", [10.0, 20.0])][..0] == empty;
  }

  lemma ExampleContributions()
    ensures var meta := StationMeta("", "X", 0.0, 0.0, "");
            Contributions([("A", Some(10.0)), ("B", None), ("C", Some(20.0))],
                          [("A", meta), ("B", meta), ("C", meta)])
            == [("X", 10.0), ("X", 20.0)]
  {
    var meta := StationMeta("", "X", 0.0, 0.0, "");
    var sm: Dict<Option<real>> := [("A", Some(10.0)), ("B", None), ("C", Some(20.0))];
    var md: Dict<StationMeta> := [("A", meta), ("B", meta), ("C", meta)];
    assert DistinctKeys(md);
    assert md[0].0 == "A" && md[2].0 == "C";
    assert Get(md, "A") == Some(meta) && Get(md, "C") == Some(meta);
    assert sm[..2][..1] == [sm[0]] && |[sm[0]][..0]| == 0;
    assert Contributions([sm[0]], md) == [("X", 10.0)];
    assert Contributions(sm[..2], md) == [("X", 10.0)];
  }

  lemma ExampleGrouping()
    ensures Grouped([("X", 10.0), ("X", 20.0)]) == [("X", [10.0, 20.0])]
  {
    GroupedStep([], "X", 10.0);
    assert Grouped<real>([]) == [];
    assert [] + [("X", 10.0)] == [("X", 10.0)];
    assert Grouped([("X", 10.0)]) == [("X", [10.0])];
    GroupedStep([("X", 10.0)], "X", 20.0);
    assert [("X", 10.0)] + [("X", 20.0)] == [("X", 10.0), ("X", 20.0)];
    assert IndexOf([("X", [10.0])], "X") == Some(0);
    assert [10.0] + [20.0] == [10.0, 20.0];
    assert SetDefaultAppend([("X", [10.0])], "X", 20.0) == [("X", [10.0, 20.0])];
  }

  /** Each station's (city, (lat, lon)), in metadata order. */
  function Locations(stationMeta: Dict<StationMeta>): (ls: seq<(string, (real, real))>)
    ensures |ls| == |stationMeta|
  {
    seq(|stationMeta|, i requires 0 <= i < |stationMeta| => (stationMeta[i].1.city, (stationMeta[i].1.lat, stationMeta[i].1.lon)))
  }

  function Lats(ps: seq<(real, real)>): seq<real> {
    seq(|ps|, i requires 0 <= i < |ps| => ps[i].0)
  }

  function Lons(ps: seq<(real, real)>): seq<real> {
    seq(|ps|, i requires 0 <= i < |ps| => ps[i].1)
  }

  /** `{city: (mean of lats, mean of lons) for city, lst in coords.items() if lst}` */
  function CentroidPerKey(groups: Dict<seq<(real, real)>>): (r: Dict<(real, real)>)
    ensures |r| <= |groups|
    ensures (forall i :: 0 <= i < |groups| ==> groups[i].1 != []) ==>
              Keys(r) == Keys(groups)
              && forall i :: 0 <= i < |groups| ==>
                   Mean(Lats(groups[i].1)) == Some(r[i].1.0) && Mean(Lons(groups[i].1)) == Some(r[i].1.1)
  {
    if groups == [] then []
    else
      var init, last := groups[..|groups| - 1], groups[|groups| - 1];
      assert forall i :: 0 <= i < |init| ==> init[i] == groups[i];
      var n := |last.1| as real;
      CentroidPerKey(init) + if last.1 != [] then [(last.0, (Sum(Lats(last.1)) / n, Sum(Lons(last.1)) / n))] else []
  }

  /** The representative coordinate of every city named in the metadata;
      every city occurs once. */
  function CityCoordinatesOf(stationMeta: Dict<StationMeta>): (r: Dict<(real, real)>)
    ensures DistinctKeys(r)
    ensures |r| <= |stationMeta|
  {
    var g := Grouped(Locations(stationMeta));
    var r := CentroidPerKey(g);
    assert Keys(r) == Keys(g);
    assert forall i :: 0 <= i < |r| ==> r[i].0 == g[i].0;
    r
  }

  lemma LocationsStep(stationMeta: Dict<StationMeta>, k: nat)
    requires k < |stationMeta|
    ensures var meta := stationMeta[k].1;
            Locations(stationMeta)[..k + 1] == Locations(stationMeta)[..k] + [(meta.city, (meta.lat, meta.lon))]
  {
  }

  /** `city_coordinates(station_meta)` */
  method CityCoordinates(stationMeta: Dict<StationMeta>) returns (coords: Dict<(real, real)>)
    ensures coords == CityCoordinatesOf(stationMeta)
  {
    var groups: Dict<seq<(real, real)>> := [];
    for k := 0 to |stationMeta|
      invariant groups == Grouped(Locations(stationMeta)[..k])
    {
      var meta := stationMeta[k].1;
      LocationsStep(stationMeta, k);
      GroupedStep(Locations(stationMeta)[..k], meta.city, (meta.lat, meta.lon));
      groups := SetDefaultAppend(groups, meta.city, (meta.lat, meta.lon));
    }
    assert Locations(stationMeta)[..|stationMeta|] == Locations(stationMeta);
    coords := CentroidPerKey(groups);
  }

  /** Every city named in the metadata gets a coordinate, whether or not any
      of its stations has a defined statistic; no other city does. */
  lemma CoordinatesPresentIff(stationMeta: Dict<StationMeta>, city: string)
    ensures city in Keys(CityCoordinatesOf(stationMeta))
        <==> exists i :: 0 <= i < |stationMeta| && stationMeta[i].1.city == city
  {
    var ls := Locations(stationMeta);
    assert Keys(CityCoordinatesOf(stationMeta)) == Keys(Grouped(ls));
    if exists i :: 0 <= i < |stationMeta| && stationMeta[i].1.city == city {
      var i :| 0 <= i < |stationMeta| && stationMeta[i].1.city == city;
      assert ls[i].0 == city;
    }
  }

  /** A city's coordinate is the mean latitude and mean longitude of all its
      stations, in metadata order. */
  lemma CoordinateIsMeanOfStations(stationMeta: Dict<StationMeta>, i: nat)
    requires i < |CityCoordinatesOf(stationMeta)|
    ensures var (city, (lat, lon)) := CityCoordinatesOf(stationMeta)[i];
            var stations := ValuesFor(Locations(stationMeta), city);
            Mean(Lats(stations)) == Some(lat) && Mean(Lons(stations)) == Some(lon)
  {
    var g := Grouped(Locations(stationMeta));
    assert Keys(CityCoordinatesOf(stationMeta)) == Keys(g);
    assert CityCoordinatesOf(stationMeta)[i].0 == g[i].0;
  }

  /** Every city with a statistic also has a coordinate, so the map never
      drops a ranked city. */
  lemma CityWithMeanHasCoordinates(stationMeans: Dict<Option<real>>, stationMeta: Dict<StationMeta>, city: string)
    requires city in Keys(CityMeansOf(stationMeans, stationMeta))
    ensures city in Keys(CityCoordinatesOf(stationMeta))
  {
    CityPresentIff(stationMeans, stationMeta, city);
    var i :| 0 <= i < |stationMeans| && Contributes(stationMeans, stationMeta, i, city);
    var meta := Get(stationMeta, stationMeans[i].0);
    var j :| 0 <= j < |stationMeta| && stationMeta[j] == (stationMeans[i].0, meta.value);
    CoordinatesPresentIff(stationMeta, city);
  }
}
