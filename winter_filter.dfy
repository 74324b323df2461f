/** The temporal filter: an hourly observation is analysed only when its
    calendar month is a winter month. */
module WinterFilter {
  /** `WINTER_MONTHS`: January, February, November and December. */
  const WinterMonths: set<int> := {1, 2, 11, 12}

  /** `ts.month in WINTER_MONTHS`; only a calendar month can pass. */
  predicate IsWinterMonth(month: int)
    ensures IsWinterMonth(month) ==> 1 <= month <= 12
  {
    month in WinterMonths
  }

  /** Winter is the window from November through February, wrapping round the
      turn of the year. */
  lemma WinterIsNovemberToFebruary(month: int)
    requires 1 <= month <= 12
    ensures IsWinterMonth(month) <==> month >= 11 || month <= 2
  {
  }
}
