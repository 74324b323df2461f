/** The statistical part of `main`: station statistics (which also rewrites
    the series table), city statistics, city coordinates and the ranking. */
module Pipeline {
  import opened Dicts
  import opened Interpolation
  import opened StationStatistics
  import opened CityAggregation
  import opened Ranking

  /** The ranking the program writes for a series table and metadata: no
      more rows than stations, and no city ranked twice. */
  function RankingOf(series: Dict<seq<Reading>>, stationMeta: Dict<StationMeta>): (r: seq<RankedEntry>)
    ensures |r| <= |series|
    ensures forall i, j :: 0 <= i < j < |r| ==> r[i].city != r[j].city
  {
    var cityMeans := CityMeansOf(StationMeans(series), stationMeta);
    RankedOnce(cityMeans);
    Rank(cityMeans)
  }

  /** `main` between reading the inputs and writing the outputs. */
  method Analyze(table: SeriesTable, stationMeta: Dict<StationMeta>)
    returns (ranking: seq<RankedEntry>, coords: Dict<(real, real)>)
    requires table.Valid()
    modifies table
    ensures table.Valid() && table.entries == InterpolatedAll(old(table.entries))
    ensures ranking == RankingOf(old(table.entries), stationMeta)
    ensures coords == CityCoordinatesOf(stationMeta)
  {
    var stationMeans := table.ComputeStationMeans();
    var cityMeans := AggregateCityMeans(stationMeans, stationMeta);
    coords := CityCoordinates(stationMeta);
    ranking := Rank(cityMeans);
  }

  /** A city is ranked exactly when some station of the series table has
      metadata naming that city and at least one known reading. A city of the
      metadata without such a station is in no ranking. */
  lemma RankedIff(series: Dict<seq<Reading>>, stationMeta: Dict<StationMeta>, city: string)
    ensures (exists i :: 0 <= i < |RankingOf(series, stationMeta)| && RankingOf(series, stationMeta)[i].city == city)
        <==> exists j :: 0 <= j < |series| && StationCounts(series, stationMeta, j, city)
  {
    var sm := StationMeans(series);
    var cm := CityMeansOf(sm, stationMeta);
    assert RankingOf(series, stationMeta) == Rank(cm);
    RankedCities(cm, city);
    CityPresentIff(sm, stationMeta, city);
    if exists j :: 0 <= j < |series| && StationCounts(series, stationMeta, j, city) {
      var j :| 0 <= j < |series| && StationCounts(series, stationMeta, j, city);
      CountsIffContributes(series, stationMeta, j, city);
    } else if city in Keys(cm) {
      var j :| 0 <= j < |sm| && Contributes(sm, stationMeta, j, city);
      CountsIffContributes(series, stationMeta, j, city);
    }
  }

  lemma CountsIffContributes(series: Dict<seq<Reading>>, stationMeta: Dict<StationMeta>, j: nat, city: string)
    requires j < |series|
    ensures |StationMeans(series)| == |series|
    ensures Contributes(StationMeans(series), stationMeta, j, city) <==> StationCounts(series, stationMeta, j, city)
  {
    var sm := StationMeans(series);
    assert Keys(sm)[j] == series[j].0;
  }

  /** Station `j` of the table has metadata naming `city` and a known reading. */
  predicate StationCounts(series: Dict<seq<Reading>>, stationMeta: Dict<StationMeta>, j: nat, city: string)
    requires j < |series|
  {
    var meta := Get(stationMeta, series[j].0);
    meta.Some? && meta.value.city == city && exists k :: 0 <= k < |series[j].1| && series[j].1[k].Some?
  }

  /** Every ranked city has a coordinate, so the map shows every ranked city. */
  lemma RankedCitiesHaveCoordinates(series: Dict<seq<Reading>>, stationMeta: Dict<StationMeta>, i: nat)
    requires i < |RankingOf(series, stationMeta)|
    ensures RankingOf(series, stationMeta)[i].city in Keys(CityCoordinatesOf(stationMeta))
  {
    var r := RankingOf(series, stationMeta);
    RankedCities(CityMeansOf(StationMeans(series), stationMeta), r[i].city);
    CityWithMeanHasCoordinates(StationMeans(series), stationMeta, r[i].city);
  }

  /** Analysing the table a second time, after it has been rewritten with the
      reconstructed series, yields the same ranking. */
  lemma ReanalysisGivesSameRanking(series: Dict<seq<Reading>>, stationMeta: Dict<StationMeta>)
    ensures RankingOf(InterpolatedAll(series), stationMeta) == RankingOf(series, stationMeta)
  {
    RecomputeGivesSameMeans(series);
  }
}
