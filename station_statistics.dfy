/** The station reducer (`compute_station_means`): every station's series is
    gap-filled and reduced to the mean of its reconstructed readings; a
    station without a single known reading gets an undefined statistic. */
module StationStatistics {
  import opened Wrappers
  import opened Dicts
  import opened Averages
  import opened Interpolation

  /** `[v for v in cleaned if v is not None]`: the known values, in order. */
  function KnownValues(s: seq<Reading>): (vs: seq<real>)
    ensures |vs| <= |s|
    ensures vs == [] <==> forall i :: 0 <= i < |s| ==> s[i].None?
    ensures (forall i :: 0 <= i < |s| ==> s[i].Some?) ==> vs == seq(|s|, i requires 0 <= i < |s| => s[i].value)
  {
    if s == [] then []
    else
      var init, last := s[..|s| - 1], s[|s| - 1];
      assert forall i :: 0 <= i < |init| ==> init[i] == s[i];
      KnownValues(init) + if last.Some? then [last.value] else []
  }

  /** A value is among the known values exactly when some reading holds it. */
  lemma {:induction false} KnownValuesMembers(s: seq<Reading>, x: real)
    ensures x in KnownValues(s) <==> exists i :: 0 <= i < |s| && s[i] == Some(x)
  {
    if s != [] {
      var init := s[..|s| - 1];
      KnownValuesMembers(init, x);
      assert forall i :: 0 <= i < |init| ==> init[i] == s[i];
    }
  }

  /** The statistic of one station: the mean of the known values of its
      reconstructed series, `None` where the program computes NaN. It is
      undefined exactly when the input series has no known reading (an empty
      series included); a series without gaps is averaged as it is. */
  function StationMean(values: seq<Reading>): (m: Option<real>)
    ensures m.None? <==> forall i :: 0 <= i < |values| ==> values[i].None?
    ensures (forall i :: 0 <= i < |values| ==> values[i].Some?) ==> m == Mean(KnownValues(values))
  {
    var filled := Interpolated(values);
    assert (forall i :: 0 <= i < |values| ==> values[i].Some?) ==> filled == values;
    Mean(KnownValues(filled))
  }

  /** With one known reading, every reconstructed position is known and the
      statistic is the plain mean of all `|values|` reconstructed readings. */
  lemma MeanOverAllPositions(values: seq<Reading>, known: nat)
    requires known < |values| && values[known].Some?
    ensures forall i :: 0 <= i < |values| ==> Interpolated(values)[i].Some?
    ensures StationMean(values)
            == Mean(seq(|values|, i requires 0 <= i < |values| => Interpolated(values)[i].value))
  {
    FullReconstruction(values, known);
  }

  /** `means`: one statistic per station, in the order of the series table. */
  function StationMeans(series: Dict<seq<Reading>>): (means: Dict<Option<real>>)
    ensures Keys(means) == Keys(series)
    ensures forall i :: 0 <= i < |series| ==>
              (means[i].1.None? <==> forall j :: 0 <= j < |series[i].1| ==> series[i].1[j].None?)
  {
    seq(|series|, i requires 0 <= i < |series| => (series[i].0, StationMean(series[i].1)))
  }

  /** The series table after the reducer: every series replaced by its
      reconstruction, keys and their order unchanged. */
  function InterpolatedAll(series: Dict<seq<Reading>>): (r: Dict<seq<Reading>>)
    ensures Keys(r) == Keys(series)
    ensures forall i :: 0 <= i < |series| ==> |r[i].1| == |series[i].1|
  {
    seq(|series|, i requires 0 <= i < |series| => (series[i].0, Interpolated(series[i].1)))
  }

  /** Running the reducer again on the table it has just updated gives the
      same statistics: reconstruction is idempotent. */
  lemma RecomputeGivesSameMeans(series: Dict<seq<Reading>>)
    ensures StationMeans(InterpolatedAll(series)) == StationMeans(series)
  {
    forall i | 0 <= i < |series|
      ensures StationMean(Interpolated(series[i].1)) == StationMean(series[i].1)
    {
      Idempotent(series[i].1);
    }
    assert |StationMeans(InterpolatedAll(series))| == |series|;
    forall i | 0 <= i < |series|
      ensures StationMeans(InterpolatedAll(series))[i] == StationMeans(series)[i]
    {
      assert Keys(StationMeans(InterpolatedAll(series)))[i] == Keys(InterpolatedAll(series))[i] == series[i].0;
    }
  }

  lemma StationMeansPointwise(series: Dict<seq<Reading>>, means: Dict<Option<real>>)
    requires |means| == |series|
    requires forall i :: 0 <= i < |series| ==> means[i] == (series[i].0, StationMean(series[i].1))
    ensures means == StationMeans(series)
  {
  }

  lemma InterpolatedAllPointwise(series: Dict<seq<Reading>>, r: Dict<seq<Reading>>)
    requires |r| == |series|
    requires forall i :: 0 <= i < |series| ==> r[i] == (series[i].0, Interpolated(series[i].1))
    ensures r == InterpolatedAll(series)
  {
  }

  /** The program's `series` dictionary, which `compute_station_means`
      updates in place. */
  class SeriesTable {
    var entries: Dict<seq<Reading>>

    ghost predicate Valid()
      reads this
    {
      DistinctKeys(entries)
    }

    constructor (series: Dict<seq<Reading>>)
      requires DistinctKeys(series)
      ensures Valid() && entries == series
    {
      entries := series;
    }

    /** `compute_station_means(series)`: returns the statistic of every
        station and overwrites each series with its reconstruction. */
    method ComputeStationMeans() returns (means: Dict<Option<real>>)
      requires Valid()
      modifies this
      ensures Valid()
      ensures means == StationMeans(old(entries))
      ensures entries == InterpolatedAll(old(entries))
    {
      ghost var series := entries;
      means := [];
      var k := 0;
      while k < |entries|
        invariant 0 <= k <= |entries| == |series|
        invariant forall i :: 0 <= i < k ==> entries[i] == (series[i].0, Interpolated(series[i].1))
        invariant forall i :: k <= i < |series| ==> entries[i] == series[i]
        invariant |means| == k
        invariant forall i :: 0 <= i < k ==> means[i] == (series[i].0, StationMean(series[i].1))
      {
        var code := entries[k].0;
        var values := entries[k].1;
        var cleaned := InterpolateSeries(values);
        var numeric := KnownValues(cleaned);
        // `means[code] = ...` inserts a key not seen before: it goes last.
        means := means + [(code, Mean(numeric))];
        // `series[code] = cleaned` replaces the value of a key already present.
        entries := entries[k := (code, cleaned)];
        k := k + 1;
      }
      InterpolatedAllPointwise(series, entries);
      StationMeansPointwise(series, means);
      assert series == old(entries);
      assert DistinctKeys(entries) by {
        assert forall i :: 0 <= i < |series| ==> entries[i].0 == series[i].0;
      }
    }
  }
}
