/** Month names, Gregorian month lengths and the reporting periods of a job:
    `month_name_to_number`, `get_days_in_month` and `get_month_year_range`
    of the scraper worker. The current date is a parameter. */
module Calendar {
  import opened Wrappers
  import Seqs

  const MonthNames: seq<string> := [
    "January", "February", "March", "April", "May", "June",
    "July", "August", "September", "October", "November", "December"
  ]

  /** Day counts of a common year, January first (Python's `calendar.mdays`). */
  const CommonMonthDays: seq<int> := [31, 28, 31, 30, 31, 30, 31, 31, 30, 31, 30, 31]

  lemma MonthNamesDistinct()
    ensures Seqs.NoDuplicates(MonthNames)
  {
  }

  /** The number 1..12 of a full English month name; `None` where the
      worker's dictionary lookup raises `KeyError`. */
  function MonthNumber(name: string): (r: Option<int>)
    ensures r.Some? <==> name in MonthNames
    ensures r.Some? ==> 1 <= r.value <= 12 && MonthNames[r.value - 1] == name
  {
    match Seqs.IndexOf(MonthNames, name)
    case None => None
    case Some(i) => Some(i + 1)
  }

  /** Name and number are inverse to each other. */
  lemma MonthNumberOfName(m: int)
    requires 1 <= m <= 12
    ensures MonthNumber(MonthNames[m - 1]) == Some(m)
  {
    MonthNamesDistinct();
  }

  /** Gregorian leap year (Python's `calendar.isleap`; Dafny's `%` agrees
      with Python's for a positive divisor). */
  predicate IsLeap(year: int) {
    year % 4 == 0 && (year % 100 != 0 || year % 400 == 0)
  }

  /** `calendar.monthrange(year, month)[1]`. */
  function DaysInMonth(month: int, year: int): (d: int)
    requires 1 <= month <= 12
    ensures 28 <= d <= 31
    ensures d == 29 <==> month == 2 && IsLeap(year)
  {
    CommonMonthDays[month - 1] + (if month == 2 && IsLeap(year) then 1 else 0)
  }

  function DaysBeforeMonthEnd(month: int, year: int): int
    requires 0 <= month <= 12
  {
    if month == 0 then 0 else DaysBeforeMonthEnd(month - 1, year) + DaysInMonth(month, year)
  }

  /** The twelve month lengths add up to the length of the Gregorian year. */
  lemma YearLength(year: int)
    ensures DaysBeforeMonthEnd(12, year) == if IsLeap(year) then 366 else 365
  {
    var leap := if IsLeap(year) then 1 else 0;
    assert DaysBeforeMonthEnd(1, year) == 31;
    assert DaysBeforeMonthEnd(2, year) == 59 + leap;
    assert DaysBeforeMonthEnd(3, year) == 90 + leap;
    assert DaysBeforeMonthEnd(4, year) == 120 + leap;
    assert DaysBeforeMonthEnd(5, year) == 151 + leap;
    assert DaysBeforeMonthEnd(6, year) == 181 + leap;
    assert DaysBeforeMonthEnd(7, year) == 212 + leap;
    assert DaysBeforeMonthEnd(8, year) == 243 + leap;
    assert DaysBeforeMonthEnd(9, year) == 273 + leap;
    assert DaysBeforeMonthEnd(10, year) == 304 + leap;
    assert DaysBeforeMonthEnd(11, year) == 334 + leap;
  }

  datatype Date = Date(year: int, month: int, day: int)

  predicate ValidDate(d: Date) {
    1 <= d.month <= 12 && 1 <= d.day <= DaysInMonth(d.month, d.year)
  }

  /** Python's `date` ordering: by year, then month, then day. */
  predicate DateBefore(a: Date, b: Date) {
    a.year < b.year
    || (a.year == b.year && a.month < b.month)
    || (a.year == b.year && a.month == b.month && a.day < b.day)
  }

  /** A reporting period: a full month name and a year. */
  datatype Period = Period(monthName: string, year: int)

  /** Months since January of year 0: consecutive months have consecutive
      indices. */
  function MonthIndex(month: int, year: int): int {
    12 * year + month - 1
  }

  function PeriodAt(k: int): Period {
    Period(MonthNames[k % 12], k / 12)
  }

  lemma PeriodAtIndex(month: int, year: int)
    requires 1 <= month <= 12
    ensures PeriodAt(MonthIndex(month, year)) == Period(MonthNames[month - 1], year)
  {
    var k := MonthIndex(month, year);
    assert k == 12 * year + (month - 1);
    assert k / 12 == year && k % 12 == month - 1;
  }

  /** `p` is an earlier calendar month than `q`. */
  predicate Precedes(p: Period, q: Period) {
    var a := MonthNumber(p.monthName);
    var b := MonthNumber(q.monthName);
    a.Some? && b.Some? && (p.year < q.year || (p.year == q.year && a.value < b.value))
  }

  /** Every month from index `s` to index `e`, both included. */
  function PeriodRange(s: int, e: int): (r: seq<Period>)
    ensures |r| == if s <= e then e - s + 1 else 0
  {
    if s > e then [] else seq(e - s + 1, i requires 0 <= i < e - s + 1 => PeriodAt(s + i))
  }

  /** Later month indices give later periods. */
  lemma PeriodAtPrecedes(p: Period, q: Period, k1: int, k2: int)
    requires p == PeriodAt(k1) && q == PeriodAt(k2) && k1 < k2
    ensures Precedes(p, q) && p != q
  {
    MonthNumberOfName(k1 % 12 + 1);
    MonthNumberOfName(k2 % 12 + 1);
    assert k1 == 12 * (k1 / 12) + k1 % 12;
    assert k2 == 12 * (k2 / 12) + k2 % 12;
  }

  lemma PeriodRangeAt(s: int, e: int, i: int)
    requires 0 <= i < |PeriodRange(s, e)|
    ensures PeriodRange(s, e)[i] == PeriodAt(s + i)
  {
  }

  /** The period list is strictly chronological, hence free of duplicates. */
  lemma PeriodRangeChronological(s: int, e: int)
    ensures forall i, j :: 0 <= i < j < |PeriodRange(s, e)| ==>
              Precedes(PeriodRange(s, e)[i], PeriodRange(s, e)[j])
    ensures Seqs.NoDuplicates(PeriodRange(s, e))
  {
    var r := PeriodRange(s, e);
    forall i, j | 0 <= i < j < |r|
      ensures Precedes(r[i], r[j]) && r[i] != r[j]
    {
      var p := r[i];
      var q := r[j];
      PeriodRangeAt(s, e, i);
      PeriodRangeAt(s, e, j);
      PeriodAtPrecedes(p, q, s + i, s + j);
    }
  }

  /** The worker's loop condition compares month indices. */
  lemma LoopGuardIsIndexBound(month: int, year: int, endMonth: int, endYear: int)
    requires 1 <= month <= 12 && 1 <= endMonth <= 12
    ensures (year < endYear || (year == endYear && month <= endMonth))
            <==> MonthIndex(month, year) <= MonthIndex(endMonth, endYear)
  {
  }

  /** `get_month_year_range`: the inclusive list of (month name, year)
      periods from the start month to the end month. An unknown month name
      makes the lookup raise; the worker logs it and returns the empty list. */
  method MonthYearRange(startMonth: string, startYear: int, endMonth: string, endYear: int)
    returns (r: seq<Period>)
    ensures MonthNumber(startMonth).None? || MonthNumber(endMonth).None? ==> r == []
    ensures MonthNumber(startMonth).Some? && MonthNumber(endMonth).Some? ==>
              r == PeriodRange(MonthIndex(MonthNumber(startMonth).value, startYear),
                               MonthIndex(MonthNumber(endMonth).value, endYear))
  {
    var sm := MonthNumber(startMonth);
    var em := MonthNumber(endMonth);
    if sm.None? || em.None? {
      return [];
    }
    r := PeriodsBetween(sm.value, startYear, em.value, endYear);
  }

  /** The loop of `get_month_year_range`: appends the current period and
      steps to the next month, rolling over to January of the next year after
      December, while the current month is not later than the end month. The
      list holds 12·(endYear − startYear) + (endMonth − startMonth) + 1
      periods when the start is not later than the end, and none otherwise. */
  method PeriodsBetween(startMonth: int, startYear: int, endMonth: int, endYear: int)
    returns (r: seq<Period>)
    requires 1 <= startMonth <= 12 && 1 <= endMonth <= 12
    ensures r == PeriodRange(MonthIndex(startMonth, startYear), MonthIndex(endMonth, endYear))
    ensures |r| == if startYear < endYear || (startYear == endYear && startMonth <= endMonth)
                   then 12 * (endYear - startYear) + (endMonth - startMonth) + 1 else 0
  {
    var s := MonthIndex(startMonth, startYear);
    var e := MonthIndex(endMonth, endYear);
    r := [];
    var year := startYear;
    var month := startMonth;
    LoopGuardIsIndexBound(month, year, endMonth, endYear);
    while year < endYear || (year == endYear && month <= endMonth)
      invariant 1 <= month <= 12
      invariant MonthIndex(month, year) == s + |r|
      invariant s <= e + 1 ==> MonthIndex(month, year) <= e + 1
      invariant s > e ==> r == []
      invariant forall i :: 0 <= i < |r| ==> r[i] == PeriodAt(s + i)
      decreases e - MonthIndex(month, year)
    {
      LoopGuardIsIndexBound(month, year, endMonth, endYear);
      var p := Period(MonthNames[month - 1], year);
      PeriodAtIndex(month, year);
      r := r + [p];
      if month == 12 {
        month := 1;
        year := year + 1;
      } else {
        month := month + 1;
      }
      LoopGuardIsIndexBound(month, year, endMonth, endYear);
    }
    RangeByElements(r, s, e);
  }

  lemma RangeByElements(r: seq<Period>, s: int, e: int)
    requires |r| == if s <= e then e - s + 1 else 0
    requires forall i :: 0 <= i < |r| ==> r[i] == PeriodAt(s + i)
    ensures r == PeriodRange(s, e)
  {
    forall i | 0 <= i < |r|
      ensures r[i] == PeriodRange(s, e)[i]
    {
      PeriodRangeAt(s, e, i);
    }
  }

  /** Whether `p` is the month that contains `today`. */
  predicate IsCurrentMonth(p: Period, today: Date) {
    MonthNumber(p.monthName) == Some(today.month) && p.year == today.year
  }

  /** `get_days_in_month`: the last day to query for a period, which is
      today's day in the current month and the calendar length of the month
      otherwise; `None` for an unknown month name (the lookup raises). */
  function LastDayOfPeriod(p: Period, today: Date): (r: Option<int>)
    ensures r.None? <==> p.monthName !in MonthNames
  {
    match MonthNumber(p.monthName)
    case None => None
    case Some(m) =>
      if today.month == m && today.year == p.year then Some(today.day)
      else Some(DaysInMonth(m, p.year))
  }

  /** For a valid `today` the last day is a real day of the period's month:
      today's day when the period is the current month, and the month's full
      Gregorian length (29 for February of a leap year) otherwise. */
  lemma LastDayOfPeriodInMonth(p: Period, today: Date)
    requires ValidDate(today)
    requires p.monthName in MonthNames
    ensures var m := MonthNumber(p.monthName).value;
            var d := LastDayOfPeriod(p, today).value;
            && ValidDate(Date(p.year, m, d))
            && (IsCurrentMonth(p, today) ==> d == today.day)
            && (!IsCurrentMonth(p, today) ==> d == DaysInMonth(m, p.year))
            && (!IsCurrentMonth(p, today) && m == 2 ==> (d == 29 <==> IsLeap(p.year)))
  {
  }
}
