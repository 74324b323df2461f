/** Gap filling of one station's hourly series (`interpolate_series`).
    A reading is `Some(value)` or `None` (missing). Every maximal run of
    missing readings (a gap) is filled: linearly between the known readings
    on both sides, with the first known reading after a leading gap, with the
    last known reading before a trailing gap; a series with no known reading
    stays as it is. */
module Interpolation {
  import opened Wrappers

  type Reading = Option<real>

  /** Position of the last known reading strictly before position `i`, if any. */
  function PrevKnown(s: seq<Reading>, i: nat): (r: Option<nat>)
    requires i <= |s|
    ensures r.Some? ==> r.value < i && s[r.value].Some?
    ensures r.Some? ==> forall j :: r.value < j < i ==> s[j].None?
    ensures r.None? ==> forall j :: 0 <= j < i ==> s[j].None?
  {
    if i == 0 then None
    else if s[i - 1].Some? then Some(i - 1)
    else PrevKnown(s, i - 1)
  }

  /** Position of the first known reading at or after position `i`, if any. */
  function NextKnown(s: seq<Reading>, i: nat): (r: Option<nat>)
    requires i <= |s|
    ensures r.Some? ==> i <= r.value < |s| && s[r.value].Some?
    ensures r.Some? ==> forall j :: i <= j < r.value ==> s[j].None?
    ensures r.None? ==> forall j :: i <= j < |s| ==> s[j].None?
    decreases |s| - i
  {
    if i == |s| then None
    else if s[i].Some? then Some(i)
    else NextKnown(s, i + 1)
  }

  /** `prev + (next - prev) * (num / den)`: the point `num/den` of the way
      from `prev` to `next`. */
  function Lerp(prev: real, next: real, num: nat, den: nat): (r: real)
    requires den > 0
    ensures num == 0 ==> r == prev
    ensures num == den ==> r == next
  {
    prev + (next - prev) * (num as real / den as real)
  }

  /** The reconstructed reading at position `i`, stated from the nearest known
      readings on either side of it. */
  function FilledAt(s: seq<Reading>, i: nat): (r: Reading)
    requires i < |s|
    ensures r.None? <==> forall j :: 0 <= j < |s| ==> s[j].None?
  {
    if s[i].Some? then s[i]
    else match (PrevKnown(s, i), NextKnown(s, i))
      case (None, None) => None
      case (None, Some(q)) => s[q]
      case (Some(p), None) => s[p]
      case (Some(p), Some(q)) => Some(Lerp(s[p].value, s[q].value, i - p, q - p))
  }

  /** The whole reconstructed series. */
  function Interpolated(s: seq<Reading>): (r: seq<Reading>)
    ensures |r| == |s|
    ensures forall i :: 0 <= i < |s| && s[i].Some? ==> r[i] == s[i]
  {
    seq(|s|, i requires 0 <= i < |s| => FilledAt(s, i))
  }

  /** Inside a maximal gap `[start, end)` the nearest known readings are the
      ones just outside it. */
  lemma GapNeighbours(s: seq<Reading>, start: nat, end: nat, k: nat)
    requires start <= k < end <= |s|
    requires forall j :: start <= j < end ==> s[j].None?
    requires start > 0 ==> s[start - 1].Some?
    requires end < |s| ==> s[end].Some?
    ensures PrevKnown(s, k) == if start == 0 then None else Some(start - 1)
    ensures NextKnown(s, k) == if end == |s| then None else Some(end)
  {
  }

  /** Fills the maximal gap `[start, end)` of `result`, the loop body of
      `interpolate_series` once the end of the gap is found. */
  method FillGap(result: array<Reading>, ghost values: seq<Reading>, start: nat, end: nat)
    requires result.Length == |values|
    requires start < end <= |values|
    requires forall k :: 0 <= k < start ==> result[k] == FilledAt(values, k)
    requires forall k :: start <= k < |values| ==> result[k] == values[k]
    requires forall k :: start <= k < end ==> values[k].None?
    requires start > 0 ==> values[start - 1].Some?
    requires end < |values| ==> values[end].Some?
    modifies result
    ensures forall k :: 0 <= k < end ==> result[k] == FilledAt(values, k)
    ensures forall k :: end <= k < |values| ==> result[k] == values[k]
  {
    var n := result.Length;
    // The reading before a maximal gap is an original known reading.
    var prevVal := if start > 0 then result[start - 1] else None;
    assert start > 0 ==> prevVal == values[start - 1] && prevVal.Some?;
    var nextVal := if end < n then result[end] else None;
    if prevVal.None? && nextVal.None? {
      // No known reading anywhere: the series stays missing.
    } else if prevVal.None? {
      FillConstant(result, start, end, nextVal);
    } else if nextVal.None? {
      FillConstant(result, start, end, prevVal);
    } else {
      FillLinear(result, start, end, prevVal.value, nextVal.value);
    }
    forall k | start <= k < end
      ensures result[k] == FilledAt(values, k)
    {
      GapNeighbours(values, start, end, k);
    }
  }

  /** `for j in range(start, end): result[j] = v` */
  method FillConstant(result: array<Reading>, start: nat, end: nat, v: Reading)
    requires start <= end <= result.Length
    modifies result
    ensures forall k :: start <= k < end ==> result[k] == v
    ensures forall k :: 0 <= k < result.Length && !(start <= k < end) ==> result[k] == old(result[k])
  {
    for j := start to end
      invariant forall k :: start <= k < j ==> result[k] == v
      invariant forall k :: 0 <= k < result.Length && !(start <= k < j) ==> result[k] == old(result[k])
    {
      result[j] := v;
    }
  }

  /** The interior-gap loop: offset `o` of a gap of length `end - start`
      becomes `prev + (next - prev) * ((o + 1) / (gap + 1))`. */
  method FillLinear(result: array<Reading>, start: nat, end: nat, prev: real, next: real)
    requires start <= end <= result.Length
    modifies result
    ensures forall k :: start <= k < end ==> result[k] == Some(Lerp(prev, next, k - start + 1, end - start + 1))
    ensures forall k :: 0 <= k < result.Length && !(start <= k < end) ==> result[k] == old(result[k])
  {
    var gap := end - start;
    for offset := 0 to gap
      invariant forall k :: start <= k < start + offset ==> result[k] == Some(Lerp(prev, next, k - start + 1, gap + 1))
      invariant forall k :: 0 <= k < result.Length && !(start <= k < start + offset) ==> result[k] == old(result[k])
    {
      result[start + offset] := Some(Lerp(prev, next, offset + 1, gap + 1));
    }
  }

  /** `interpolate_series`: copies the readings and fills every gap in place,
      scanning left to right. */
  method InterpolateSeries(values: seq<Reading>) returns (r: seq<Reading>)
    ensures r == Interpolated(values)
  {
    var result := new Reading[|values|](k requires 0 <= k < |values| => values[k]);
    var n := result.Length;
    var i := 0;
    while i < n
      invariant 0 <= i <= n
      invariant forall k :: 0 <= k < i ==> result[k] == FilledAt(values, k)
      invariant forall k :: i <= k < n ==> result[k] == values[k]
      invariant 0 < i < n && values[i].None? ==> values[i - 1].Some?
    {
      if result[i].None? {
        var start := i;
        while i < n && result[i].None?
          invariant start <= i <= n
          invariant forall k :: start <= k < i ==> values[k].None?
        {
          i := i + 1;
        }
        FillGap(result, values, start, i);
      } else {
        i := i + 1;
      }
    }
    r := result[..];
  }

  /** A series with no known reading is returned unchanged. */
  lemma AllMissingUnchanged(s: seq<Reading>)
    requires forall i :: 0 <= i < |s| ==> s[i].None?
    ensures Interpolated(s) == s
  {
    forall i | 0 <= i < |s|
      ensures Interpolated(s)[i] == s[i]
    {
      GapNeighbours(s, 0, |s|, i);
    }
  }

  /** One known reading anywhere is enough to reconstruct every position. */
  lemma FullReconstruction(s: seq<Reading>, known: nat)
    requires known < |s| && s[known].Some?
    ensures forall i :: 0 <= i < |s| ==> Interpolated(s)[i].Some?
  {
    forall i | 0 <= i < |s|
      ensures Interpolated(s)[i].Some?
    {
      if s[i].None? {
        if known < i {
          assert PrevKnown(s, i).Some?;
        } else {
          assert NextKnown(s, i).Some?;
        }
      }
    }
  }

  /** A missing reading survives reconstruction exactly when no reading of the
      series is known. */
  lemma MissingAfterIffAllMissing(s: seq<Reading>)
    ensures (exists i :: 0 <= i < |s| && Interpolated(s)[i].None?)
        <==> |s| > 0 && forall i :: 0 <= i < |s| ==> s[i].None?
  {
    if exists k :: 0 <= k < |s| && s[k].Some? {
      var k :| 0 <= k < |s| && s[k].Some?;
      FullReconstruction(s, k);
    } else {
      AllMissingUnchanged(s);
      if |s| > 0 {
        assert Interpolated(s)[0].None?;
      }
    }
  }

  /** A leading gap takes the first known reading after it. */
  lemma LeadingGap(s: seq<Reading>, q: nat)
    requires q < |s| && s[q].Some?
    requires forall k :: 0 <= k < q ==> s[k].None?
    ensures forall k :: 0 <= k <= q ==> Interpolated(s)[k] == s[q]
  {
    forall k | 0 <= k < q
      ensures Interpolated(s)[k] == s[q]
    {
      GapNeighbours(s, 0, q, k);
    }
  }

  /** A trailing gap takes the last known reading before it. */
  lemma TrailingGap(s: seq<Reading>, p: nat)
    requires p < |s| && s[p].Some?
    requires forall k :: p < k < |s| ==> s[k].None?
    ensures forall k :: p <= k < |s| ==> Interpolated(s)[k] == s[p]
  {
    forall k | p < k < |s|
      ensures Interpolated(s)[k] == s[p]
    {
      GapNeighbours(s, p + 1, |s|, k);
    }
  }

  /** A gap of length `g` between known readings `prev` at `p` and `next` at
      `q` gets `prev + (next - prev) * (o + 1) / (g + 1)` at offset `o`. */
  lemma InteriorGap(s: seq<Reading>, p: nat, q: nat)
    requires p < q < |s| && s[p].Some? && s[q].Some?
    requires forall k :: p < k < q ==> s[k].None?
    ensures var prev, next, gap := s[p].value, s[q].value, q - p - 1;
            forall k :: p < k < q ==>
              Interpolated(s)[k] == Some(prev + (next - prev) * (((k - p - 1) + 1) as real / (gap + 1) as real))
  {
    forall k | p < k < q
      ensures Interpolated(s)[k] == Some(Lerp(s[p].value, s[q].value, k - p, q - p))
    {
      GapNeighbours(s, p + 1, q, k);
    }
  }

  /** A point part of the way from `prev` to `next` lies between them. */
  lemma LerpBetween(prev: real, next: real, num: nat, den: nat)
    requires 0 <= num <= den && den > 0
    ensures prev <= next ==> prev <= Lerp(prev, next, num, den) <= next
    ensures next <= prev ==> next <= Lerp(prev, next, num, den) <= prev
  {
    var t := num as real / den as real;
    FractionInUnit(num, den);
    var d := next - prev;
    if prev <= next {
      ProductNonNegative(d, t);
      ProductNonNegative(d, 1.0 - t);
    } else {
      ProductNonNegative(-d, t);
      ProductNonNegative(-d, 1.0 - t);
    }
  }

  lemma FractionInUnit(num: nat, den: nat)
    requires num <= den && den > 0
    ensures 0.0 <= num as real / den as real <= 1.0
  {
  }

  lemma ProductNonNegative(a: real, b: real)
    requires a >= 0.0 && b >= 0.0
    ensures a * b >= 0.0
  {
  }

  /** Every interpolated reading of an interior gap lies between the known
      readings that bound the gap. */
  lemma InteriorGapBetween(s: seq<Reading>, p: nat, q: nat)
    requires p < q < |s| && s[p].Some? && s[q].Some?
    requires forall k :: p < k < q ==> s[k].None?
    ensures forall k :: p <= k <= q ==> Interpolated(s)[k].Some?
    ensures forall k :: p <= k <= q && s[p].value <= s[q].value ==>
              s[p].value <= Interpolated(s)[k].value <= s[q].value
    ensures forall k :: p <= k <= q && s[q].value <= s[p].value ==>
              s[q].value <= Interpolated(s)[k].value <= s[p].value
  {
    forall k | p < k < q
      ensures Interpolated(s)[k] == Some(Lerp(s[p].value, s[q].value, k - p, q - p))
    {
      GapNeighbours(s, p + 1, q, k);
    }
    forall k | p < k < q
      ensures s[p].value <= s[q].value ==> s[p].value <= Interpolated(s)[k].value <= s[q].value
      ensures s[q].value <= s[p].value ==> s[q].value <= Interpolated(s)[k].value <= s[p].value
    {
      LerpBetween(s[p].value, s[q].value, k - p, q - p);
    }
  }

  /** Reconstructing an already reconstructed series changes nothing. */
  lemma Idempotent(s: seq<Reading>)
    ensures Interpolated(Interpolated(s)) == Interpolated(s)
  {
    var r := Interpolated(s);
    if exists k :: 0 <= k < |s| && s[k].Some? {
      var k :| 0 <= k < |s| && s[k].Some?;
      FullReconstruction(s, k);
    } else {
      AllMissingUnchanged(s);
      AllMissingUnchanged(r);
    }
  }

  /** `[5, None, None, 8]` becomes `[5, 6, 7, 8]`. */
  lemma ExampleInterior()
    ensures Interpolated([Some(5.0), None, None, Some(8.0)]) == [Some(5.0), Some(6.0), Some(7.0), Some(8.0)]
  {
    var s := [Some(5.0), None, None, Some(8.0)];
    InteriorGap(s, 0, 3);
  }

  /** `[None, None, 10, 10]` becomes `[10, 10, 10, 10]`. */
  lemma ExampleLeading()
    ensures Interpolated([None, None, Some(10.0), Some(10.0)]) == [Some(10.0), Some(10.0), Some(10.0), Some(10.0)]
  {
    LeadingGap([None, None, Some(10.0), Some(10.0)], 2);
  }

  /** `[3, 3, None, None]` becomes `[3, 3, 3, 3]`. */
  lemma ExampleTrailing()
    ensures Interpolated([Some(3.0), Some(3.0), None, None]) == [Some(3.0), Some(3.0), Some(3.0), Some(3.0)]
  {
    TrailingGap([Some(3.0), Some(3.0), None, None], 1);
  }

  /** `[None, None]` stays `[None, None]`. */
  lemma ExampleAllMissing()
    ensures Interpolated([None, None]) == [None, None]
  {
    AllMissingUnchanged([None, None]);
  }
}
