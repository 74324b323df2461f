# Winter air-quality ranking: a verified model

`analyze_winter_air.py` reads hourly AQI readings from many monitoring
stations. It keeps only the winter months (November to February) and fills
the gaps in every station's series. It then reduces each series to a station
mean, averages the station means per city, and ranks the cities from the
cleanest winter air to the dirtiest. It also places each city on a map at the
mean position of its stations.

This project models the in-memory pipeline between reading the CSV files and
writing the outputs:

- **`Interpolation`**: the gap filler `interpolate_series`. It is an
  imperative method over an array, proved equal to a position-by-position
  specification (`Interpolated`). Lemmas cover the leading, trailing,
  interior and all-missing cases.
- **`StationStatistics`**: the station reducer `compute_station_means`. The
  caller's `series` dictionary is a class, `SeriesTable`, whose entries the
  method rewrites in place.
- **`CityAggregation`**: the city reducer `aggregate_city_means` and the
  coordinate reducer `city_coordinates`. Both are loops of
  `setdefault(...).append(...)` followed by a per-key average.
- **`Grouping`**: a loop-free definition of what such a setdefault-append
  loop builds.
- **`Ranking`**: the stable ascending sort and the 1-based numbering of the
  ranking.
- **`WinterFilter`**: the winter-month test.
- **`Pipeline`**: `main` between input and output.
- **`Dicts`** and **`Averages`**: Python dictionaries (insertion-ordered
  sequences of items) and `sum(xs) / len(xs)`.

Readings are `real` numbers, so the interpolation formula and the means are
exact. A missing reading is `None`. The NaN that the program stores for a
station without any reading is also `None`.

## Model

| member | source | states |
|---|---|---|
| WinterFilter.IsWinterMonth | analyze_winter_air.py:20 | the winter test `month in {1, 2, 11, 12}`; only a calendar month 1..12 can pass |
| WinterFilter.WinterIsNovemberToFebruary | analyze_winter_air.py:117 | a month 1..12 passes the winter filter exactly when it is November, December, January or February |
| Interpolation.PrevKnown | analyze_winter_air.py:82 | the result is the last known reading before the position, with every reading between them missing, or none when no earlier reading is known |
| Interpolation.NextKnown | analyze_winter_air.py:79-83 | the result is the first known reading at or after the position, with every reading before it missing, or none when no later reading is known |
| Interpolation.Lerp | analyze_winter_air.py:97-98 | the interpolation formula prev + (next - prev) * (num / den), which gives prev at offset 0 and next at the far end |
| Interpolation.FilledAt | analyze_winter_air.py:82-98 | the filled value of one position, from the nearest known readings on each side; it stays missing if and only if the whole series is missing |
| Interpolation.Interpolated | analyze_winter_air.py:72-101 | the reconstructed series has the input's length and keeps every known reading unchanged |
| Interpolation.GapNeighbours | analyze_winter_air.py:78-83 | inside a maximal gap the nearest known readings are the ones just before and just after the gap |
| Interpolation.FillGap | analyze_winter_air.py:82-98 | given a maximal gap whose preceding reading is an original known reading (the scan's loop invariant guarantees this), filling it leaves every position up to the gap's end holding its reconstructed value and the rest untouched |
| Interpolation.FillConstant | analyze_winter_air.py:88-89 | the gap positions all hold the given reading and nothing else changes |
| Interpolation.FillLinear | analyze_winter_air.py:95-98 | gap offset o holds prev + (next - prev) * ((o + 1) / (gap + 1)) and nothing else changes |
| Interpolation.InterpolateSeries | analyze_winter_air.py:72-101 | the in-place left-to-right scan over a copy returns exactly the reconstructed series; the caller's sequence is a value and is not modified |
| Interpolation.AllMissingUnchanged | analyze_winter_air.py:84-86 | a series with no known reading is returned unchanged |
| Interpolation.FullReconstruction | analyze_winter_air.py:76-100 | a single known reading anywhere makes every output position known |
| Interpolation.MissingAfterIffAllMissing | analyze_winter_air.py:76-100 | the output contains a missing reading if and only if the input is non-empty and entirely missing |
| Interpolation.LeadingGap | analyze_winter_air.py:87-90 | every position of a leading gap takes the first known reading after it |
| Interpolation.TrailingGap | analyze_winter_air.py:91-94 | every position of a trailing gap takes the last known reading before it |
| Interpolation.InteriorGap | analyze_winter_air.py:95-98 | offset o of an interior gap of length g gets prev + (next - prev) * (o + 1) / (g + 1) |
| Interpolation.LerpBetween | analyze_winter_air.py:97-98 | a point a fraction in [0, 1] of the way from prev to next lies between them, in either direction |
| Interpolation.InteriorGapBetween | analyze_winter_air.py:95-98 | every value filled into an interior gap is known and lies between the two readings that bound the gap |
| Interpolation.Idempotent | analyze_winter_air.py:72-101 | filling an already filled series changes nothing |
| Interpolation.ExampleInterior | analyze_winter_air.py:95-98 | [5, None, None, 8] becomes [5, 6, 7, 8] |
| Interpolation.ExampleLeading | analyze_winter_air.py:87-90 | [None, None, 10, 10] becomes [10, 10, 10, 10] |
| Interpolation.ExampleTrailing | analyze_winter_air.py:91-94 | [3, 3, None, None] becomes [3, 3, 3, 3] |
| Interpolation.ExampleAllMissing | analyze_winter_air.py:84-86 | [None, None] stays [None, None] |
| Averages.Sum | analyze_winter_air.py:140 | Python's `sum`: a left-to-right running total starting from zero (a definition without a contract of its own; `SumAppend`, `SumRemove` and `SumPermutation` state its properties) |
| Averages.Mean | analyze_winter_air.py:140 | the mean is undefined exactly for an empty list; otherwise mean times length equals the sum |
| Averages.SumAppend | analyze_winter_air.py:140 | the sum of a concatenation is the sum of the parts |
| Averages.SumRemove | analyze_winter_air.py:140 | removing one element takes exactly that element off the sum |
| Averages.SumPermutation | analyze_winter_air.py:140 | the sum does not depend on the order of the values |
| Averages.MeanPermutation | analyze_winter_air.py:153 | the mean does not depend on the order of the values |
| Averages.MeanBounds | analyze_winter_air.py:153 | the mean of values in [lo, hi] lies in [lo, hi] |
| StationStatistics.KnownValues | analyze_winter_air.py:139 | the known values are empty exactly when every reading is missing, and when no reading is missing they are exactly the readings' values, in order |
| StationStatistics.KnownValuesMembers | analyze_winter_air.py:139 | a value is among the known values exactly when some reading holds it |
| StationStatistics.StationMean | analyze_winter_air.py:138-140 | one station's mean: the mean of the known values of its filled series; undefined (the program's NaN) if and only if its input series has no known reading, and a series without gaps is averaged as it is |
| StationStatistics.MeanOverAllPositions | analyze_winter_air.py:138-140 | with one known reading, every reconstructed position is known and the station's mean is the mean of the reconstructed readings at all positions |
| StationStatistics.StationMeans | analyze_winter_air.py:135-142 | one mean per station, with the keys of the series table in the same order; each undefined exactly when that station's series is entirely missing |
| StationStatistics.InterpolatedAll | analyze_winter_air.py:141 | the rewritten table has the same keys in the same order and every series keeps its length |
| StationStatistics.RecomputeGivesSameMeans | analyze_winter_air.py:135-142 | running the station reducer on the table it has just rewritten gives the same means |
| StationStatistics.SeriesTable.constructor | analyze_winter_air.py:135 | the table holds the given series, whose keys are distinct |
| StationStatistics.SeriesTable.ComputeStationMeans | analyze_winter_air.py:135-142 | returns the mean of every station and leaves every entry replaced by its reconstruction, with no key added, removed or reordered; distinct keys are preserved |
| Dicts.Get | analyze_winter_air.py:148 | the lookup fails exactly for an absent key and otherwise returns the value stored under the key |
| Dicts.SetDefaultAppend | analyze_winter_air.py:152 | a new key is added last with a one-element list; an existing key keeps its place and gets the value appended; no other key changes |
| Grouping.FirstSeenKeys | analyze_winter_air.py:152 | the keys are distinct, are exactly the keys of the pairs, and are no more than the pairs |
| Grouping.FirstSeenKeysOrder | analyze_winter_air.py:152 | the keys come in order of first occurrence: wherever a later key occurs, every earlier key has already occurred |
| Grouping.ValuesFor | analyze_winter_air.py:152 | the values for a key are empty exactly when no pair has that key |
| Grouping.Grouped | analyze_winter_air.py:146-152 | a well-formed dictionary keyed by first appearance, each key mapping to the non-empty list of its values in input order |
| Grouping.GroupedStep | analyze_winter_air.py:152 | one setdefault-append step turns the grouping of the pairs so far into the grouping of one more pair |
| CityAggregation.Contributions | analyze_winter_air.py:147-152 | at most one (city, mean) pair per station |
| CityAggregation.MeanPerKey | analyze_winter_air.py:153 | with non-empty groups, the same keys in the same order, each mapped to the mean of its group |
| CityAggregation.CityMeansOf | analyze_winter_air.py:145-153 | the city means the loop must produce: each defined station mean with metadata grouped by city and averaged; every city occurs once, and there are no more cities than stations |
| CityAggregation.AggregateCityMeans | analyze_winter_air.py:145-153 | the setdefault-append loop followed by the per-city average gives exactly the per-city mean of the contributing stations |
| CityAggregation.ValuesForContributionsStep | analyze_winter_air.py:149-152 | a station adds its mean to its own city's list only, and only when it has metadata and a defined mean |
| CityAggregation.GroupedValuesAreCityStationMeans | analyze_winter_air.py:147-152 | the values grouped under a city are exactly the defined means of that city's stations with metadata, in station order |
| CityAggregation.ContributionsMention | analyze_winter_air.py:149-152 | a city occurs in the grouped pairs if and only if some station contributes to it |
| CityAggregation.CityStationMeansEmptyIff | analyze_winter_air.py:149-153 | a city's list of station means is empty if and only if no station contributes to it |
| CityAggregation.CityPresentIff | analyze_winter_air.py:149-153 | a city has a mean if and only if some station with metadata naming it has a defined mean |
| CityAggregation.CityMeansKeys | analyze_winter_air.py:152-153 | the cities with a mean are the first-seen keys of the contributing (city, mean) pairs, so they appear in order of their first contributing station |
| CityAggregation.CityMeanIsMeanOfStations | analyze_winter_air.py:145-153 | each city's value is the mean of the defined means of its stations |
| CityAggregation.ExampleUndefinedStationSkipped | analyze_winter_air.py:145-153 | station means 10, undefined and 20 in city X give X the value 15 |
| CityAggregation.Locations | analyze_winter_air.py:158-160 | one (city, (lat, lon)) pair per station |
| CityAggregation.CentroidPerKey | analyze_winter_air.py:161 | with non-empty groups, the same keys in the same order, each mapped to the mean latitude and mean longitude of its group |
| CityAggregation.CityCoordinatesOf | analyze_winter_air.py:156-161 | the coordinates the loop must produce: the centroid of every metadata city; every city occurs once, and there are no more cities than stations |
| CityAggregation.CityCoordinates | analyze_winter_air.py:156-161 | the loop followed by the per-city average gives exactly the per-city centroid of all stations |
| CityAggregation.CoordinatesPresentIff | analyze_winter_air.py:156-161 | a city has a coordinate if and only if some station's metadata names it, whether or not it has a mean |
| CityAggregation.CoordinateIsMeanOfStations | analyze_winter_air.py:161 | a city's coordinate is the mean latitude and mean longitude of all its stations |
| CityAggregation.CityWithMeanHasCoordinates | analyze_winter_air.py:189-192 | every city with a mean has a coordinate |
| Ranking.InsertStable | analyze_winter_air.py:176 | insertion adds exactly one item |
| Ranking.InsertStableKeepsTies | analyze_winter_air.py:176 | insertion puts the new item after every item with the same value and keeps all ties in order |
| Ranking.InsertStableSorted | analyze_winter_air.py:176 | insertion into a sorted list gives a sorted list |
| Ranking.SortByValue | analyze_winter_air.py:176 | the sort is a permutation of its input |
| Ranking.SortByValueSorted | analyze_winter_air.py:176 | the sort's output is non-decreasing by value |
| Ranking.SortByValueStable | analyze_winter_air.py:176 | the sort is stable: the items of every value keep their input order |
| Ranking.Rank | analyze_winter_air.py:176-181 | the ranks are exactly 1..n in order; the ranked items are a permutation of the city means, sorted non-decreasing by value, with ties in input order |
| Ranking.RankedCities | analyze_winter_air.py:176-180 | a city is ranked if and only if it has a mean |
| Ranking.RankedOnce | analyze_winter_air.py:176-180 | a city of a dictionary is ranked at most once |
| Ranking.TiesKeepInputOrder | analyze_winter_air.py:176 | two ranked cities with equal values appear in their dictionary order |
| Ranking.WithValueIndex | analyze_winter_air.py:176 | two items with the same value keep their relative order in the subsequence of that value |
| Ranking.ExampleRanking | analyze_winter_air.py:176-180 | {X: 15, Y: 5, Z: 10} ranks as (1, Y, 5), (2, Z, 10), (3, X, 15) |
| Pipeline.RankingOf | analyze_winter_air.py:249-253 | the ranking written for a series table and metadata; no more rows than stations and no city ranked twice |
| Pipeline.Analyze | analyze_winter_air.py:249-254 | the table is rewritten with the reconstructed series, and the ranking and coordinates are those of the specifications |
| Pipeline.RankedIff | analyze_winter_air.py:249-253 | a city is ranked if and only if some station in the series table has metadata naming it and at least one known reading |
| Pipeline.CountsIffContributes | analyze_winter_air.py:147-150 | a station counts towards a city's mean exactly when it has metadata naming the city and a known reading |
| Pipeline.RankedCitiesHaveCoordinates | analyze_winter_air.py:185-192 | every ranked city has a coordinate, so the map never skips a ranked city |
| Pipeline.ReanalysisGivesSameRanking | analyze_winter_air.py:249-253 | analysing the rewritten series table again yields the same ranking |

## Left out

- File and console I/O is left out. This covers `load_station_metadata`,
  `list_data_files`, `read_header_sample`, the file-reading loop of
  `build_time_series`, the CSV writer of `save_ranking`, the HTML template
  and file write of `generate_map`, and the prints in `main`. The station
  metadata and the per-station series are parameters of the model.
- `parse_datetime` (`strptime`) and the `float(...)` parsing of cells and
  coordinates are left out. Their results are inputs: a month number, and a
  reading that is `None` when the cell is empty or does not parse.
- A cell that spells "nan" parses to a floating-point NaN rather than
  `None`. NaN readings are not modelled: all known readings are real numbers.
- `value_to_color`, `round(..., 2)` and the min/max colour scale of
  `generate_map` are left out. They are presentation, built on float
  truncation and hex formatting.
- IEEE floating-point rounding is not modelled. Sums, means and the
  interpolation formula are exact over `real`.
- CityAggregation.AggregateCityMeans: the program skips a station when its
  metadata record is falsy (`not meta`). Here a station is skipped only when
  it has no record, because `load_station_metadata` always builds a record
  with five fields, which is never empty.
- The top-10 console listing in `main` re-sorts the same dictionary. It is
  `Ranking.Rank` cut to ten rows and is not modelled separately.
- Series of different lengths across stations are allowed. Nothing in the
  model assumes equal lengths.
