/** The six-month series of `generateTimeSeriesData` in src/Dashboard.tsx.
    Months are (year, month) pairs with the month 0-based, as
    `Date.prototype.getMonth` returns it. Which month a timestamp falls in
    depends on the time zone, so the caller supplies that reading as
    `monthOf`; "today" is a parameter too. */
module TimeSeries {
  import opened Seqs
  import opened App

  datatype YearMonth = YearMonth(year: int, month: int)

  /** A calendar day; `month` 0-based, `day` 1-based. */
  datatype CalendarDate = CalendarDate(year: int, month: int, day: int)

  predicate ValidMonth(ym: YearMonth) {
    0 <= ym.month < 12
  }

  /** Months counted from January of year 0. */
  function MonthIndex(ym: YearMonth): int {
    ym.year * 12 + ym.month
  }

  /** The month with the given index. */
  function MonthAt(index: int): (r: YearMonth)
    ensures ValidMonth(r) && MonthIndex(r) == index
  {
    YearMonth(index / 12, index % 12)
  }

  /** Gregorian leap years. */
  predicate IsLeapYear(year: int) {
    year % 4 == 0 && (year % 100 != 0 || year % 400 == 0)
  }

  function DaysInMonth(ym: YearMonth): int
    requires ValidMonth(ym)
  {
    if ym.month == 1 then (if IsLeapYear(ym.year) then 29 else 28)
    else if ym.month == 3 || ym.month == 5 || ym.month == 8 || ym.month == 10 then 30
    else 31
  }

  predicate ValidDate(d: CalendarDate) {
    0 <= d.month < 12 && 1 <= d.day <= DaysInMonth(YearMonth(d.year, d.month))
  }

  /** The month of `today`. */
  function MonthOfDate(today: CalendarDate): YearMonth {
    MonthAt(today.year * 12 + today.month)
  }

  // ---------------------------------------------------------------------------
  // Which month each bucket counts
  // ---------------------------------------------------------------------------

  /** The month `back` months before the month of `today`: the bucket the loop
      iteration `i = back` is meant to count. */
  function BucketMonth(today: CalendarDate, back: int): (r: YearMonth)
    ensures ValidMonth(r)
    ensures MonthIndex(r) == MonthIndex(MonthOfDate(today)) - back
  {
    MonthAt(MonthIndex(MonthOfDate(today)) - back)
  }

  /** What `date.setMonth(today.getMonth() - back)` selects, `date` holding
      today's day of the month: a day past the end of the target month rolls
      over into the month after it. */
  function BucketMonthAsWritten(today: CalendarDate, back: int): (r: YearMonth)
    requires ValidDate(today)
    ensures ValidMonth(r)
    ensures today.day <= DaysInMonth(BucketMonth(today, back)) ==> r == BucketMonth(today, back)
    ensures today.day > DaysInMonth(BucketMonth(today, back)) ==>
      MonthIndex(r) == MonthIndex(BucketMonth(today, back)) + 1
  {
    var target := MonthAt(today.year * 12 + today.month - back);
    if today.day <= DaysInMonth(target) then target else MonthAt(MonthIndex(target) + 1)
  }

  /** The six buckets, oldest first (`for (let i = 5; i >= 0; i--)`). */
  function BucketMonths(today: CalendarDate): (r: seq<YearMonth>)
    ensures |r| == 6
  {
    seq(6, k requires 0 <= k < 6 => BucketMonth(today, 5 - k))
  }

  function BucketMonthsAsWritten(today: CalendarDate): (r: seq<YearMonth>)
    requires ValidDate(today)
    ensures |r| == 6
  {
    seq(6, k requires 0 <= k < 6 && ValidDate(today) => BucketMonthAsWritten(today, 5 - k))
  }

  /** Every month has at least 28 days, so up to the 28th of the month the
      loop's buckets are the intended ones. */
  lemma BucketMonthsAgreeEarly(today: CalendarDate)
    requires ValidDate(today) && today.day <= 28
    ensures BucketMonthsAsWritten(today) == BucketMonths(today)
  {
    var ms, intended := BucketMonthsAsWritten(today), BucketMonths(today);
    forall k | 0 <= k < 6 ensures ms[k] == intended[k] {
      assert DaysInMonth(BucketMonth(today, 5 - k)) >= 28;
    }
  }

  /** The corrected buckets are six consecutive months ending at today's,
      hence pairwise distinct. */
  lemma BucketMonthsConsecutive(today: CalendarDate)
    ensures var ms := BucketMonths(today);
      (forall k :: 0 <= k < 5 ==> MonthIndex(ms[k + 1]) == MonthIndex(ms[k]) + 1)
      && ms[5] == MonthOfDate(today)
      && NoDuplicates(ms)
  {
    var ms := BucketMonths(today);
    assert forall a, b :: 0 <= a < b < 6 ==> MonthIndex(ms[a]) < MonthIndex(ms[b]);
  }

  // ---------------------------------------------------------------------------
  // The series
  // ---------------------------------------------------------------------------

  /** One point of the chart: a month's short name and its incident count. */
  datatype SeriesPoint = SeriesPoint(monthName: string, count: nat)

  /** The short month names, as an English locale prints them. */
  const MONTH_LABELS: seq<string> :=
    ["Jan", "Feb", "Mar", "Apr", "May", "Jun", "Jul", "Aug", "Sep", "Oct", "Nov", "Dec"]

  /** The short name of a month. */
  function MonthName(ym: YearMonth): (r: string)
    requires ValidMonth(ym)
    ensures |r| == 3 && r in MONTH_LABELS
  {
    assert |MONTH_LABELS| == 12;
    MONTH_LABELS[ym.month]
  }

  /** The month index a short name stands for, or -1 for any other string. */
  function LabelIndex(name: string): (r: int)
    ensures -1 <= r < 12
  {
    if |name| != 3 then -1
    else if name == "Jan" then 0 else if name == "Feb" then 1
    else if name == "Mar" then 2 else if name == "Apr" then 3
    else if name == "May" then 4 else if name == "Jun" then 5
    else if name == "Jul" then 6 else if name == "Aug" then 7
    else if name == "Sep" then 8 else if name == "Oct" then 9
    else if name == "Nov" then 10 else if name == "Dec" then 11
    else -1
  }

  /** Reading a label back gives the month it was printed for. */
  lemma LabelIndexInvertsMonthName(ym: YearMonth)
    requires ValidMonth(ym)
    ensures LabelIndex(MonthName(ym)) == ym.month
  {
    var m := ym.month;
    assert MONTH_LABELS[0] == "Jan" && MONTH_LABELS[1] == "Feb" && MONTH_LABELS[2] == "Mar";
    assert MONTH_LABELS[3] == "Apr" && MONTH_LABELS[4] == "May" && MONTH_LABELS[5] == "Jun";
    assert MONTH_LABELS[6] == "Jul" && MONTH_LABELS[7] == "Aug" && MONTH_LABELS[8] == "Sep";
    assert MONTH_LABELS[9] == "Oct" && MONTH_LABELS[10] == "Nov" && MONTH_LABELS[11] == "Dec";
  }

  /** The labels tell months apart: two valid months share a label exactly
      when they are the same month of the year. */
  lemma MonthNameDistinguishes(a: YearMonth, b: YearMonth)
    requires ValidMonth(a) && ValidMonth(b)
    ensures MonthName(a) == MonthName(b) <==> a.month == b.month
  {
    LabelIndexInvertsMonthName(a);
    LabelIndexInvertsMonthName(b);
  }

  /** The fixed series shown for five incidents or fewer. */
  const DEMO_SERIES: seq<SeriesPoint> := [
    SeriesPoint("Jan", 2), SeriesPoint("Feb", 5), SeriesPoint("Mar", 3),
    SeriesPoint("Apr", 7), SeriesPoint("May", 4), SeriesPoint("Jun", 6)]

  /** The bucket test `getMonth()` and `getFullYear()` both equal. */
  function InMonth(monthOf: int -> YearMonth, ym: YearMonth): Incident -> bool {
    (i: Incident) => monthOf(i.reportedAt) == ym
  }

  /** The number of incidents reported in month `ym`. */
  function CountInMonth(incidents: seq<Incident>, monthOf: int -> YearMonth, ym: YearMonth): (r: nat)
    ensures r <= |incidents|
    ensures r == 0 <==> forall i :: i in incidents ==> monthOf(i.reportedAt) != ym
  {
    var inMonth := Filter(incidents, InMonth(monthOf, ym));
    FilterKeepsNone(incidents, InMonth(monthOf, ym));
    if forall i :: i in incidents ==> monthOf(i.reportedAt) != ym then
      |inMonth|
    else
      var j :| j in incidents && monthOf(j.reportedAt) == ym;
      assert j in inMonth;
      |inMonth|
  }

  /** One point per month, in the order given. */
  function Points(incidents: seq<Incident>, monthOf: int -> YearMonth, months: seq<YearMonth>): (r: seq<SeriesPoint>)
    requires forall k :: 0 <= k < |months| ==> ValidMonth(months[k])
    ensures |r| == |months|
    ensures forall k :: 0 <= k < |r| ==>
      r[k] == SeriesPoint(MonthName(months[k]), CountInMonth(incidents, monthOf, months[k]))
  {
    if |months| == 0 then []
    else
      [SeriesPoint(MonthName(months[0]), CountInMonth(incidents, monthOf, months[0]))]
        + Points(incidents, monthOf, months[1..])
  }

  /** `generateTimeSeriesData` with the buckets it is meant to count: for more
      than five incidents, point `k` counts the month `5 - k` months before
      the current one; otherwise the demo series. */
  function Series(incidents: seq<Incident>, today: CalendarDate, monthOf: int -> YearMonth): (r: seq<SeriesPoint>)
    ensures |r| == 6
    ensures |incidents| <= 5 ==> r == DEMO_SERIES
    ensures |incidents| > 5 ==> forall k :: 0 <= k < 6 ==>
      var m := MonthAt(MonthIndex(MonthOfDate(today)) - (5 - k));
      r[k] == SeriesPoint(MonthName(m), CountInMonth(incidents, monthOf, m))
  {
    if |incidents| > 5 then
      var months := BucketMonths(today);
      assert forall k :: 0 <= k < 6 ==> months[k] == MonthAt(MonthIndex(MonthOfDate(today)) - (5 - k));
      Points(incidents, monthOf, months)
    else
      DEMO_SERIES
  }

  /** `generateTimeSeriesData` as written: the buckets `setMonth` selects. */
  function SeriesAsWritten(incidents: seq<Incident>, today: CalendarDate, monthOf: int -> YearMonth): (r: seq<SeriesPoint>)
    requires ValidDate(today)
    ensures |r| == 6
    ensures |incidents| <= 5 ==> r == DEMO_SERIES
    ensures |incidents| > 5 ==> forall k :: 0 <= k < 6 ==>
      var m := BucketMonthAsWritten(today, 5 - k);
      r[k] == SeriesPoint(MonthName(m), CountInMonth(incidents, monthOf, m))
  {
    if |incidents| > 5 then
      var months := BucketMonthsAsWritten(today);
      assert forall k :: 0 <= k < 6 ==> months[k] == BucketMonthAsWritten(today, 5 - k);
      Points(incidents, monthOf, months)
    else
      DEMO_SERIES
  }

  /** Up to the 28th of the month the series as written is the intended one. */
  lemma SeriesAgreesEarly(incidents: seq<Incident>, today: CalendarDate, monthOf: int -> YearMonth)
    requires ValidDate(today) && today.day <= 28
    ensures SeriesAsWritten(incidents, today, monthOf) == Series(incidents, today, monthOf)
  {
    BucketMonthsAgreeEarly(today);
  }

  function SumCounts(points: seq<SeriesPoint>): nat {
    if |points| == 0 then 0 else points[0].count + SumCounts(points[1..])
  }

  /** The test "reported in one of `months`". */
  function InMonths(monthOf: int -> YearMonth, months: seq<YearMonth>): Incident -> bool {
    (i: Incident) => monthOf(i.reportedAt) in months
  }

  /** Over distinct months, the bucket counts add up to the number of incidents
      reported in any of them. */
  lemma {:induction false} SumOverDistinctMonths(incidents: seq<Incident>, monthOf: int -> YearMonth, months: seq<YearMonth>)
    requires forall k :: 0 <= k < |months| ==> ValidMonth(months[k])
    requires NoDuplicates(months)
    ensures SumCounts(Points(incidents, monthOf, months)) == |Filter(incidents, InMonths(monthOf, months))|
    decreases |months|
  {
    var ps := Points(incidents, monthOf, months);
    if |months| == 0 {
      FilterKeepsNone(incidents, InMonths(monthOf, months));
    } else {
      var m, rest := months[0], months[1..];
      assert ps[1..] == Points(incidents, monthOf, rest);
      SumOverDistinctMonths(incidents, monthOf, rest);
      assert m !in rest;
      FilterDisjointUnion(incidents, InMonth(monthOf, m), InMonths(monthOf, rest), InMonths(monthOf, months));
    }
  }

  /** Each incident lands in at most one bucket: the six counts add up to at
      most the number of incidents. */
  lemma SeriesTotalBounded(incidents: seq<Incident>, today: CalendarDate, monthOf: int -> YearMonth)
    requires |incidents| > 5
    ensures SumCounts(Series(incidents, today, monthOf)) <= |incidents|
  {
    BucketMonthsConsecutive(today);
    SumOverDistinctMonths(incidents, monthOf, BucketMonths(today));
  }

  // ---------------------------------------------------------------------------
  // The day-overflow discrepancy
  // ---------------------------------------------------------------------------

  /** On 31 March 2025 the loop's iteration for one month back asks for
      31 February, which rolls over to 3 March: March is counted twice and
      February never, and 31 November likewise becomes 1 December. */
  lemma BucketMonthsAsWrittenRepeat()
    ensures var today := CalendarDate(2025, 2, 31);
      ValidDate(today) &&
      BucketMonthsAsWritten(today) == [
        YearMonth(2024, 9), YearMonth(2024, 11), YearMonth(2024, 11),
        YearMonth(2025, 0), YearMonth(2025, 2), YearMonth(2025, 2)]
  {
    var today := CalendarDate(2025, 2, 31);
    assert MonthAt(24297) == YearMonth(2024, 9) && MonthAt(24298) == YearMonth(2024, 10);
    assert MonthAt(24299) == YearMonth(2024, 11) && MonthAt(24300) == YearMonth(2025, 0);
    assert MonthAt(24301) == YearMonth(2025, 1) && MonthAt(24302) == YearMonth(2025, 2);
    var ms := BucketMonthsAsWritten(today);
    assert ms[0] == BucketMonthAsWritten(today, 5) == YearMonth(2024, 9);
    assert ms[1] == BucketMonthAsWritten(today, 4) == YearMonth(2024, 11);
    assert ms[2] == BucketMonthAsWritten(today, 3) == YearMonth(2024, 11);
    assert ms[3] == BucketMonthAsWritten(today, 2) == YearMonth(2025, 0);
    assert ms[4] == BucketMonthAsWritten(today, 1) == YearMonth(2025, 2);
    assert ms[5] == BucketMonthAsWritten(today, 0) == YearMonth(2025, 2);
  }

  /** When every incident falls in one month, that month's bucket holds all
      of them and every other bucket none. */
  lemma CountsInOneMonth(incidents: seq<Incident>, monthOf: int -> YearMonth, only: YearMonth, ym: YearMonth)
    requires forall i :: i in incidents ==> monthOf(i.reportedAt) == only
    ensures CountInMonth(incidents, monthOf, ym) == if ym == only then |incidents| else 0
  {
    if ym == only {
      FilterKeepsAll(incidents, InMonth(monthOf, ym));
    } else {
      FilterKeepsNone(incidents, InMonth(monthOf, ym));
    }
  }

  /** A reading of timestamps that places every incident in March 2025. */
  function InMarch2025(t: int): YearMonth {
    YearMonth(2025, 2)
  }

  /** Six incidents all reported in March 2025, seen on 31 March 2025: as
      written the series counts twelve incidents. */
  lemma SeriesAsWrittenOvercounts(incidents: seq<Incident>)
    requires |incidents| == 6
    ensures var today := CalendarDate(2025, 2, 31);
      ValidDate(today)
      && SumCounts(SeriesAsWritten(incidents, today, InMarch2025)) == 12
  {
    var ps := SeriesAsWritten(incidents, CalendarDate(2025, 2, 31), InMarch2025);
    forall k | 0 <= k < 6
      ensures ps[k].count == if k >= 4 then 6 else 0
    {
      SeriesAsWrittenPoint(incidents, k);
    }
    SumSix(ps);
  }

  lemma SeriesAsWrittenPoint(incidents: seq<Incident>, k: nat)
    requires |incidents| == 6 && k < 6
    ensures ValidDate(CalendarDate(2025, 2, 31))
    ensures SeriesAsWritten(incidents, CalendarDate(2025, 2, 31), InMarch2025)[k].count
      == if k >= 4 then 6 else 0
  {
    var today := CalendarDate(2025, 2, 31);
    BucketMonthsAsWrittenRepeat();
    var m := BucketMonthAsWritten(today, 5 - k);
    assert m == BucketMonthsAsWritten(today)[k];
    CountsInOneMonth(incidents, InMarch2025, YearMonth(2025, 2), m);
  }

  /** The same six incidents on the same day: the corrected buckets count each
      incident once. */
  lemma SeriesCountsOnce(incidents: seq<Incident>)
    requires |incidents| == 6
    ensures SumCounts(Series(incidents, CalendarDate(2025, 2, 31), InMarch2025)) == 6
  {
    var ps := Series(incidents, CalendarDate(2025, 2, 31), InMarch2025);
    forall k | 0 <= k < 6
      ensures ps[k].count == if k == 5 then 6 else 0
    {
      SeriesPointOnce(incidents, k);
    }
    SumSix(ps);
  }

  lemma SeriesPointOnce(incidents: seq<Incident>, k: nat)
    requires |incidents| == 6 && k < 6
    ensures Series(incidents, CalendarDate(2025, 2, 31), InMarch2025)[k].count
      == if k == 5 then 6 else 0
  {
    var today := CalendarDate(2025, 2, 31);
    var monthOf := InMarch2025;
    var march := YearMonth(2025, 2);
    assert MonthIndex(MonthOfDate(today)) == 24302;
    var m := MonthAt(24297 + k);
    assert Series(incidents, today, monthOf)[k].count == CountInMonth(incidents, monthOf, m);
    assert m == march <==> k == 5;
    CountsInOneMonth(incidents, monthOf, march, m);
  }

  /** A six-point series unfolded. */
  lemma SumSix(ps: seq<SeriesPoint>)
    requires |ps| == 6
    ensures SumCounts(ps) == ps[0].count + ps[1].count + ps[2].count + ps[3].count + ps[4].count + ps[5].count
  {
    assert SumCounts(ps[5..]) == ps[5].count + SumCounts(ps[6..]);
    assert SumCounts(ps[4..]) == ps[4].count + SumCounts(ps[5..]);
    assert SumCounts(ps[3..]) == ps[3].count + SumCounts(ps[4..]);
    assert SumCounts(ps[2..]) == ps[2].count + SumCounts(ps[3..]);
    assert SumCounts(ps[1..]) == ps[1].count + SumCounts(ps[2..]);
  }
}
