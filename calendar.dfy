/**
 * Calendar-month arithmetic of `generate_date_range`: a walk over the months
 * from a start month to an end month, inclusive, rolling December over to
 * January of the next year.
 */
module Calendar {
  import opened Wrappers

  /** A month as a Python `datetime` holds it; the day and time of day are left out. */
  datatype YearMonth = YearMonth(year: int, month: int)

  /** Python's `datetime` accepts the years 1 to 9999. */
  const MinYear: int := 1
  const MaxYear: int := 9999

  /** Raised by `datetime.replace` when the walk steps past December of `MaxYear`. */
  datatype DateError = YearOutOfRange(year: int)

  predicate IsMonth(m: YearMonth) {
    1 <= m.month <= 12
  }

  /** A month that a `datetime` can represent. */
  predicate InDatetimeRange(m: YearMonth) {
    IsMonth(m) && MinYear <= m.year <= MaxYear
  }

  /** Months elapsed since January of year 0. */
  function MonthIndex(m: YearMonth): int {
    m.year * 12 + (m.month - 1)
  }

  /** The month with a given index; the inverse of `MonthIndex`. */
  function FromIndex(k: int): (m: YearMonth)
    ensures IsMonth(m) && MonthIndex(m) == k
  {
    YearMonth(k / 12, k % 12 + 1)
  }

  lemma IndexRoundTrip(m: YearMonth)
    requires IsMonth(m)
    ensures FromIndex(MonthIndex(m)) == m
  {
  }

  /**
   * `current <= end_date` of the walk: `current` is on day 1 and carries the
   * same time of day as `end_date`, so the comparison is one of months.
   */
  predicate NotAfter(a: YearMonth, b: YearMonth) {
    a.year < b.year || (a.year == b.year && a.month <= b.month)
  }

  lemma NotAfterByIndex(a: YearMonth, b: YearMonth)
    requires IsMonth(a) && IsMonth(b)
    ensures NotAfter(a, b) <==> MonthIndex(a) <= MonthIndex(b)
  {
    if a.year < b.year {
      assert a.year * 12 <= b.year * 12 - 12;
    } else if a.year > b.year {
      assert a.year * 12 >= b.year * 12 + 12;
    }
  }

  /** One step of the walk: December rolls over to January of the next year. */
  function NextMonth(m: YearMonth): (r: YearMonth)
    requires IsMonth(m)
    ensures IsMonth(r) && MonthIndex(r) == MonthIndex(m) + 1
    ensures NotAfter(m, r) && r != m
  {
    if m.month == 12 then YearMonth(m.year + 1, 1) else YearMonth(m.year, m.month + 1)
  }

  /** Number of months from `start` to `end`, both included; 0 when `end` is earlier. */
  function SpanLength(start: YearMonth, end: YearMonth): nat {
    if MonthIndex(start) <= MonthIndex(end) then MonthIndex(end) - MonthIndex(start) + 1 else 0
  }

  /** Reference definition of the walk: every month from `start` to `end`, in order. */
  function MonthSpan(start: YearMonth, end: YearMonth): seq<YearMonth> {
    seq(SpanLength(start, end), i => FromIndex(MonthIndex(start) + i))
  }

  /** The walk fails exactly when it reaches December of the last `datetime` year. */
  predicate RollsPastMaxYear(start: YearMonth, end: YearMonth) {
    MonthIndex(start) <= MonthIndex(end) && end == YearMonth(MaxYear, 12)
  }

  /**
   * `generate_date_range` with the window given as its first and last month:
   * appends `current` while it is not after `end`, then advances it a month.
   */
  method GenerateDateRange(start: YearMonth, end: YearMonth) returns (r: Result<seq<YearMonth>, DateError>)
    requires InDatetimeRange(start) && InDatetimeRange(end)
    ensures r.Failure? <==> RollsPastMaxYear(start, end)
    ensures r.Failure? ==> r.error == YearOutOfRange(MaxYear + 1)
    ensures r.Success? ==> r.value == MonthSpan(start, end)
  {
    var dates: seq<YearMonth> := [];
    var current := start;
    NotAfterByIndex(current, end);
    while NotAfter(current, end)
      invariant InDatetimeRange(current)
      invariant MonthIndex(current) == MonthIndex(start) + |dates|
      invariant |dates| <= SpanLength(start, end)
      invariant |dates| > 0 ==> MonthIndex(current) <= MonthIndex(end) + 1
      invariant forall i :: 0 <= i < |dates| ==> dates[i] == FromIndex(MonthIndex(start) + i)
      invariant NotAfter(current, end) <==> MonthIndex(current) <= MonthIndex(end)
      decreases MonthIndex(end) - MonthIndex(current)
    {
      IndexRoundTrip(current);
      dates := dates + [current];
      if current.month == 12 && current.year == MaxYear {
        return Failure(YearOutOfRange(MaxYear + 1));
      }
      current := NextMonth(current);
      NotAfterByIndex(current, end);
    }
    assert |dates| == SpanLength(start, end);
    return Success(dates);
  }

  /**
   * The walk yields consecutive months: it starts at `start`, ends at `end`,
   * every entry is a valid month, each is followed by the next calendar month,
   * and the sequence is strictly increasing.
   */
  lemma MonthSpanShape(start: YearMonth, end: YearMonth)
    requires InDatetimeRange(start) && InDatetimeRange(end)
    ensures var s := MonthSpan(start, end);
      && |s| == SpanLength(start, end)
      && (|s| > 0 ==> s[0] == start && s[|s| - 1] == end)
      && (forall i :: 0 <= i < |s| ==> InDatetimeRange(s[i]))
      && (forall i :: 0 <= i < |s| - 1 ==> s[i + 1] == NextMonth(s[i]))
      && (forall i, j :: 0 <= i < j < |s| ==> NotAfter(s[i], s[j]) && s[i] != s[j])
  {
    var s := MonthSpan(start, end);
    if |s| > 0 {
      IndexRoundTrip(start);
      IndexRoundTrip(end);
    }
    forall i | 0 <= i < |s|
      ensures InDatetimeRange(s[i])
    {
      SpanEntryValid(start, end, i);
    }
    forall i | 0 <= i < |s| - 1
      ensures s[i + 1] == NextMonth(s[i])
    {
      SpanEntryNext(start, end, i);
    }
    forall i, j | 0 <= i < j < |s|
      ensures NotAfter(s[i], s[j]) && s[i] != s[j]
    {
      SpanEntriesOrdered(start, end, i, j);
    }
  }

  /** The `i`-th entry of the walk is the month `i` after `start`. */
  lemma SpanEntry(start: YearMonth, end: YearMonth, i: int)
    requires 0 <= i < SpanLength(start, end)
    ensures MonthSpan(start, end)[i] == FromIndex(MonthIndex(start) + i)
  {
  }

  /** A month between two representable months is representable. */
  lemma BetweenInRange(start: YearMonth, m: YearMonth, end: YearMonth)
    requires InDatetimeRange(start) && InDatetimeRange(end) && IsMonth(m)
    requires MonthIndex(start) <= MonthIndex(m) <= MonthIndex(end)
    ensures InDatetimeRange(m)
  {
    NotAfterByIndex(start, m);
    NotAfterByIndex(m, end);
  }

  lemma SpanEntryValid(start: YearMonth, end: YearMonth, i: int)
    requires InDatetimeRange(start) && InDatetimeRange(end)
    requires 0 <= i < SpanLength(start, end)
    ensures InDatetimeRange(MonthSpan(start, end)[i])
  {
    SpanEntry(start, end, i);
    BetweenInRange(start, FromIndex(MonthIndex(start) + i), end);
  }

  lemma SpanEntryNext(start: YearMonth, end: YearMonth, i: int)
    requires 0 <= i < SpanLength(start, end) - 1
    ensures IsMonth(MonthSpan(start, end)[i])
    ensures MonthSpan(start, end)[i + 1] == NextMonth(MonthSpan(start, end)[i])
  {
    var m, n := FromIndex(MonthIndex(start) + i), FromIndex(MonthIndex(start) + i + 1);
    SpanEntry(start, end, i);
    SpanEntry(start, end, i + 1);
    IndexRoundTrip(n);
    IndexRoundTrip(NextMonth(m));
  }

  lemma SpanEntriesOrdered(start: YearMonth, end: YearMonth, i: int, j: int)
    requires 0 <= i < j < SpanLength(start, end)
    ensures NotAfter(MonthSpan(start, end)[i], MonthSpan(start, end)[j])
    ensures MonthSpan(start, end)[i] != MonthSpan(start, end)[j]
  {
    var m, n := FromIndex(MonthIndex(start) + i), FromIndex(MonthIndex(start) + j);
    SpanEntry(start, end, i);
    SpanEntry(start, end, j);
    NotAfterByIndex(m, n);
  }

  /** A window of zero years, start and end in the same month, yields exactly that month. */
  lemma SingleMonthWindow(m: YearMonth)
    requires InDatetimeRange(m)
    ensures MonthSpan(m, m) == [m]
  {
    IndexRoundTrip(m);
  }
}
