/** Proleptic Gregorian calendar dates and the date arithmetic that the date
    utilities borrow from their date library: a day number for every date
    (so that a difference in days is an integer subtraction), calendar
    addition of months and years with end-of-month clamping, and the
    whole-month and whole-year differences between two dates. */
module Calendar {

  /** A calendar day. `month` is zero-based (0 = January .. 11 = December),
      as the date library reports it; `day` is the day of the month. */
  datatype Date = Date(year: int, month: int, day: int)

  predicate IsLeapYear(y: int) {
    (y % 4 == 0 && y % 100 != 0) || y % 400 == 0
  }

  function DaysInYear(y: int): int {
    if IsLeapYear(y) then 366 else 365
  }

  function DaysInMonth(y: int, m: int): (n: int)
    requires 0 <= m < 12
    ensures 28 <= n <= 31
  {
    if m == 1 then (if IsLeapYear(y) then 29 else 28)
    else if m == 3 || m == 5 || m == 8 || m == 10 then 30
    else 31
  }

  predicate IsValid(d: Date) {
    0 <= d.month < 12 && 1 <= d.day <= DaysInMonth(d.year, d.month)
  }

  /** A date that exists in the calendar: what a successful parse yields. */
  type CivilDate = d: Date | IsValid(d) witness Date(1970, 0, 1)

  function Min(a: int, b: int): int {
    if a <= b then a else b
  }

  /** Number of days in the years 0 .. y-1 (negative for years before 0). */
  function DaysBeforeYear(y: int): int {
    365 * y + LeapYearsBefore(y)
  }

  /** Number of leap years among 0 .. y-1 (negative for years before 0):
      multiples of 4, less multiples of 100, plus multiples of 400. */
  function LeapYearsBefore(y: int): int {
    (y + 3) / 4 - (y + 99) / 100 + (y + 399) / 400
  }

  function DaysBeforeMonth(y: int, m: int): int
    requires 0 <= m < 12
  {
    [0, 31, 59, 90, 120, 151, 181, 212, 243, 273, 304, 334][m]
      + (if m >= 2 && IsLeapYear(y) then 1 else 0)
  }

  /** DaysBeforeYear(1970): day numbers count from 1 January 1970. */
  const EpochOffset: int := 719528

  /** Days from 1 January 1970 to `d` (negative before it). */
  function DayNumber(d: CivilDate): int {
    DaysBeforeYear(d.year) + DaysBeforeMonth(d.year, d.month) + d.day - 1 - EpochOffset
  }

  /** Months since January of year 0: the month count `year * 12 + month`. */
  function MonthIndex(d: Date): int {
    d.year * 12 + d.month
  }

  /** Length of the month with month index k. */
  function LengthOfMonth(k: int): int {
    DaysInMonth(k / 12, k % 12)
  }

  /** Day number of the first day of the month with month index k. */
  function MonthStart(k: int): int {
    DayNumber(Date(k / 12, k % 12, 1))
  }

  /** `a` is on or before `b` in the calendar, comparing year, then month, then day. */
  predicate OnOrBefore(a: Date, b: Date) {
    a.year < b.year
    || (a.year == b.year && (a.month < b.month || (a.month == b.month && a.day <= b.day)))
  }

  // ---------------------------------------------------------------------
  // Day numbers

  lemma EpochIsDayZero()
    ensures DaysBeforeYear(1970) == EpochOffset
    ensures DayNumber(Date(1970, 0, 1)) == 0
  {
  }

  /** How many multiples of k (4, 100 or 400) the year count passes when y grows by one. */
  lemma MultipleStep4(y: int)
    ensures (y + 4) / 4 - (y + 3) / 4 == if y % 4 == 0 then 1 else 0
  {
    var q, r := y / 4, y % 4;
    assert (y + 4) / 4 == q + 1;
    assert (y + 3) / 4 == if r == 0 then q else q + 1;
  }

  lemma MultipleStep100(y: int)
    ensures (y + 100) / 100 - (y + 99) / 100 == if y % 100 == 0 then 1 else 0
  {
    var q, r := y / 100, y % 100;
    assert (y + 100) / 100 == q + 1;
    assert (y + 99) / 100 == if r == 0 then q else q + 1;
  }

  lemma MultipleStep400(y: int)
    ensures (y + 400) / 400 - (y + 399) / 400 == if y % 400 == 0 then 1 else 0
  {
    var q, r := y / 400, y % 400;
    assert (y + 400) / 400 == q + 1;
    assert (y + 399) / 400 == if r == 0 then q else q + 1;
  }

  /** Every multiple of 400 is one of 100, and every multiple of 100 one of 4. */
  lemma MultiplesNest(y: int)
    ensures y % 400 == 0 ==> y % 100 == 0
    ensures y % 100 == 0 ==> y % 4 == 0
  {
    if y % 400 == 0 {
      FourHundredsAreHundreds(y / 400);
      assert y == 400 * (y / 400);
    }
    if y % 100 == 0 {
      HundredsAreFours(y / 100);
      assert y == 100 * (y / 100);
    }
  }

  lemma FourHundredsAreHundreds(k: int)
    ensures (400 * k) % 100 == 0
  {
    assert 400 * k == 100 * (4 * k);
  }

  lemma HundredsAreFours(k: int)
    ensures (100 * k) % 4 == 0
  {
    assert 100 * k == 4 * (25 * k);
  }

  /** Passing year y adds one leap year exactly when y is one. */
  lemma LeapYearsBeforeStep(y: int)
    ensures LeapYearsBefore(y + 1) == LeapYearsBefore(y) + (if IsLeapYear(y) then 1 else 0)
  {
    MultipleStep4(y);
    MultipleStep100(y);
    MultipleStep400(y);
    MultiplesNest(y);
  }

  /** Moving from 1 January of one year to the next takes that year's length. */
  lemma DaysBeforeYearStep(y: int)
    ensures DaysBeforeYear(y + 1) == DaysBeforeYear(y) + DaysInYear(y)
  {
    LeapYearsBeforeStep(y);
  }

  lemma MonthIndexFields(d: Date)
    requires 0 <= d.month < 12
    ensures MonthIndex(d) / 12 == d.year && MonthIndex(d) % 12 == d.month
  {
  }

  /** A date's day number is its month's first day number plus its day, less one. */
  lemma DayNumberInMonth(d: CivilDate)
    ensures DayNumber(d) == MonthStart(MonthIndex(d)) + d.day - 1
    ensures LengthOfMonth(MonthIndex(d)) == DaysInMonth(d.year, d.month)
  {
    MonthIndexFields(d);
  }

  /** The first day of the next month follows the last day of this one. */
  lemma MonthStartStep(k: int)
    ensures MonthStart(k + 1) == MonthStart(k) + LengthOfMonth(k)
  {
    var y, m := k / 12, k % 12;
    if m < 11 {
      assert (k + 1) / 12 == y && (k + 1) % 12 == m + 1;
      NextMonthStart(y, m);
    } else {
      assert (k + 1) / 12 == y + 1 && (k + 1) % 12 == 0;
      NextYearStart(y);
    }
  }

  /** Within a year, the next month starts a month's length later. */
  lemma NextMonthStart(y: int, m: int)
    requires 0 <= m < 11
    ensures DayNumber(Date(y, m + 1, 1)) == DayNumber(Date(y, m, 1)) + DaysInMonth(y, m)
  {
  }

  /** 1 January follows the 31 days of the previous December. */
  lemma NextYearStart(y: int)
    ensures DayNumber(Date(y + 1, 0, 1)) == DayNumber(Date(y, 11, 1)) + 31
  {
    DaysBeforeYearStep(y);
  }

  /** A later month starts after the end of an earlier one. */
  lemma MonthStartMonotone(j: int, k: int)
    requires j < k
    ensures MonthStart(j) + LengthOfMonth(j) <= MonthStart(k)
  {
    forall i: int
      ensures MonthStart(i + 1) == MonthStart(i) + LengthOfMonth(i)
      ensures LengthOfMonth(i) >= 0
    {
      MonthStartStep(i);
    }
    StepsAccumulate(MonthStart, LengthOfMonth, j, k);
  }

  /** Where each value is the one before plus a non-negative step, a later
      value is at least an earlier one plus its step. */
  lemma {:induction false} StepsAccumulate(f: int -> int, step: int -> int, j: int, k: int)
    requires j < k
    requires forall i {:trigger step(i)} :: f(i + 1) == f(i) + step(i)
    requires forall i :: step(i) >= 0
    ensures f(j) + step(j) <= f(k)
    decreases k - j
  {
    if j < k - 1 {
      StepsAccumulate(f, step, j, k - 1);
      assert f(k) == f(k - 1) + step(k - 1);
    }
  }

  /** Every day of an earlier month has a smaller day number than every day of a later one. */
  lemma EarlierMonthEarlierDay(a: CivilDate, b: CivilDate)
    requires MonthIndex(a) < MonthIndex(b)
    ensures DayNumber(a) < DayNumber(b)
  {
    DayNumberInMonth(a);
    DayNumberInMonth(b);
    MonthStartMonotone(MonthIndex(a), MonthIndex(b));
  }

  /** Day numbers order dates exactly as the calendar does, and tell dates apart. */
  lemma DayNumberOrder(a: CivilDate, b: CivilDate)
    ensures DayNumber(a) <= DayNumber(b) <==> OnOrBefore(a, b)
    ensures DayNumber(a) == DayNumber(b) <==> a == b
  {
    if MonthIndex(a) < MonthIndex(b) {
      EarlierMonthEarlierDay(a, b);
    } else if MonthIndex(b) < MonthIndex(a) {
      EarlierMonthEarlierDay(b, a);
    } else {
      DayNumberInMonth(a);
      DayNumberInMonth(b);
      MonthIndexFields(a);
      MonthIndexFields(b);
    }
  }

  /** Within one month, day numbers differ exactly as the days of the month do. */
  lemma SameMonthDayDifference(a: CivilDate, b: CivilDate)
    requires MonthIndex(a) == MonthIndex(b)
    ensures DayNumber(b) - DayNumber(a) == b.day - a.day
  {
    DayNumberInMonth(a);
    DayNumberInMonth(b);
  }

  // ---------------------------------------------------------------------
  // Calendar addition

  /** `d` moved by n calendar months; a day past the end of the target
      month is clamped to its last day (31 January + 1 month = 28 or 29 February). */
  function AddMonths(d: CivilDate, n: int): (r: CivilDate)
    ensures MonthIndex(r) == MonthIndex(d) + n
    ensures r.day == Min(d.day, DaysInMonth(r.year, r.month))
    ensures n == 0 ==> r == d
  {
    var k := MonthIndex(d) + n;
    MonthIndexFields(d);
    var y, m := k / 12, k % 12;
    assert MonthIndex(Date(y, m, 1)) == k;
    Date(y, m, Min(d.day, DaysInMonth(y, m)))
  }

  /** `d` moved by n calendar years, keeping the month; 29 February
      becomes 28 February in a common year. */
  function AddYears(d: CivilDate, n: int): (r: CivilDate)
    ensures r.year == d.year + n && r.month == d.month
    ensures r.day == Min(d.day, DaysInMonth(r.year, r.month))
  {
    Date(d.year + n, d.month, Min(d.day, DaysInMonth(d.year + n, d.month)))
  }

  /** Adding n years is adding 12n months. */
  lemma AddYearsIsTwelveMonths(d: CivilDate, n: int)
    ensures AddYears(d, n) == AddMonths(d, 12 * n)
  {
    var r := AddMonths(d, 12 * n);
    assert MonthIndex(r) == MonthIndex(Date(d.year + n, d.month, 1));
    MonthIndexFields(r);
    MonthIndexFields(Date(d.year + n, d.month, 1));
  }

  /** Adding more months never gives an earlier date; strictly more gives a later one. */
  lemma AddMonthsMonotone(d: CivilDate, i: int, j: int)
    requires i <= j
    ensures OnOrBefore(AddMonths(d, i), AddMonths(d, j))
    ensures i < j ==> !OnOrBefore(AddMonths(d, j), AddMonths(d, i))
  {
    if i < j {
      IndexOrder(AddMonths(d, i), AddMonths(d, j));
    }
  }

  /** A date in an earlier month comes strictly first in the calendar. */
  lemma IndexOrder(a: CivilDate, b: CivilDate)
    requires MonthIndex(a) < MonthIndex(b)
    ensures OnOrBefore(a, b) && !OnOrBefore(b, a)
  {
    MonthIndexFields(a);
    MonthIndexFields(b);
  }

  /** A day of the month that every month has is never clamped, so two
      additions of months compose into one. */
  lemma AddMonthsCompose(d: CivilDate, i: int, j: int, k: int)
    requires d.day <= 28 && k == i + j
    ensures AddMonths(AddMonths(d, i), j) == AddMonths(d, k)
  {
    var a, b := AddMonths(AddMonths(d, i), j), AddMonths(d, k);
    MonthIndexFields(a);
    MonthIndexFields(b);
  }

  // ---------------------------------------------------------------------
  // Whole-unit differences

  /** Months from `s`'s month to `e`'s month, ignoring the days. */
  function RawMonths(s: Date, e: Date): int {
    (e.year - s.year) * 12 + (e.month - s.month)
  }

  /** Whole years in a count of months, truncated toward zero (the library
      divides the fractional month count by 12 and drops the fraction). */
  function YearsInMonths(months: int): (y: int)
    ensures months >= 0 ==> 0 <= y && 12 * y <= months < 12 * (y + 1)
    ensures months < 0 ==> y <= 0 && 12 * (y - 1) < months <= 12 * y
  {
    if months >= 0 then months / 12 else -((-months) / 12)
  }

  /** Whole calendar months forward from `s` to a later `e`: the month count
      read off the fields, less one when `s` moved on by that many months
      (landing in `e`'s month, its day clamped) is still after `e`. */
  function MonthsForward(s: CivilDate, e: CivilDate): int {
    var raw := RawMonths(s, e);
    if Min(s.day, DaysInMonth(e.year, e.month)) > e.day then raw - 1 else raw
  }

  /** Whole calendar months from `s` to `e`, truncated toward zero. Like the
      library's month difference it is antisymmetric: for a start after `e`
      it is minus the whole months forward from `e` to the start. */
  function MonthDiff(s: CivilDate, e: CivilDate): (r: int)
    ensures OnOrBefore(s, e) ==> 0 <= r
    ensures !OnOrBefore(s, e) ==> r <= 0
    ensures RawMonths(s, e) - 1 <= r <= RawMonths(s, e) + 1
  {
    if OnOrBefore(s, e) then MonthsForward(s, e) else -MonthsForward(e, s)
  }

  /** Swapping the two dates negates the whole-month difference. */
  lemma MonthDiffAntisymmetric(s: CivilDate, e: CivilDate)
    ensures MonthDiff(s, e) == -MonthDiff(e, s)
  {
  }

  /** `s` moved by the field month count lands in `e`'s month on the clamped day. */
  lemma RawMonthsLanding(s: CivilDate, e: CivilDate)
    ensures AddMonths(s, RawMonths(s, e)) == Date(e.year, e.month, Min(s.day, DaysInMonth(e.year, e.month)))
  {
    var a := AddMonths(s, RawMonths(s, e));
    MonthIndexFields(a);
    MonthIndexFields(e);
  }

  /** Whole calendar years from `s` to `e`: the whole months divided by 12,
      truncated toward zero. */
  function YearDiff(s: CivilDate, e: CivilDate): (r: int)
    ensures OnOrBefore(s, e) ==> 0 <= r && 12 * r <= MonthDiff(s, e) < 12 * (r + 1)
    ensures !OnOrBefore(s, e) ==> r <= 0 && 12 * (r - 1) < MonthDiff(s, e) <= 12 * r
  {
    YearsInMonths(MonthDiff(s, e))
  }


  /** For a start on or before `e`, MonthDiff is the largest whole number
      of months that can be added to the start without passing `e`. */
  lemma MonthDiffPast(s: CivilDate, e: CivilDate, n: int)
    requires OnOrBefore(s, e) && n >= 0
    ensures MonthDiff(s, e) >= 0
    ensures OnOrBefore(AddMonths(s, n), e) <==> n <= MonthDiff(s, e)
  {
    var raw := RawMonths(s, e);
    RawMonthsLanding(s, e);
    if raw < 0 {
      IndexOrder(e, s);
    }
    if n < raw {
      IndexOrder(AddMonths(s, n), e);
    } else if n > raw {
      IndexOrder(e, AddMonths(s, n));
    }
  }

  /** For a start after `e`, minus MonthDiff is the largest whole number
      of months that can be added to `e` without passing the start. */
  lemma MonthDiffFuture(s: CivilDate, e: CivilDate, n: int)
    requires !OnOrBefore(s, e) && n >= 0
    ensures MonthDiff(s, e) <= 0
    ensures OnOrBefore(AddMonths(e, n), s) <==> n <= -MonthDiff(s, e)
  {
    MonthDiffAntisymmetric(s, e);
    MonthDiffPast(e, s, n);
  }

  /** MonthDiff is the largest whole number of months that can be added to
      `s` without passing `e`; for a start after `e`, minus the largest
      whole number of months that can be added to `e` without passing `s`. */
  lemma MonthDiffIsWholeMonths(s: CivilDate, e: CivilDate)
    ensures OnOrBefore(s, e) ==>
      MonthDiff(s, e) >= 0
      && forall n :: n >= 0 ==> (OnOrBefore(AddMonths(s, n), e) <==> n <= MonthDiff(s, e))
    ensures !OnOrBefore(s, e) ==>
      MonthDiff(s, e) <= 0
      && forall n :: n >= 0 ==> (OnOrBefore(AddMonths(e, n), s) <==> n <= -MonthDiff(s, e))
  {
    if OnOrBefore(s, e) {
      MonthDiffPast(s, e, 0);
      forall n | n >= 0
        ensures OnOrBefore(AddMonths(s, n), e) <==> n <= MonthDiff(s, e)
      {
        MonthDiffPast(s, e, n);
      }
    } else {
      MonthDiffFuture(s, e, 0);
      forall n | n >= 0
        ensures OnOrBefore(AddMonths(e, n), s) <==> n <= -MonthDiff(s, e)
      {
        MonthDiffFuture(s, e, n);
      }
    }
  }

  /** The whole months from a start on or before `e` land on or before `e`,
      and one more month passes it. */
  lemma MonthDiffBracketPast(s: CivilDate, e: CivilDate)
    requires OnOrBefore(s, e)
    ensures 0 <= MonthDiff(s, e)
    ensures OnOrBefore(AddMonths(s, MonthDiff(s, e)), e)
    ensures !OnOrBefore(AddMonths(s, MonthDiff(s, e) + 1), e)
  {
    MonthDiffPast(s, e, MonthDiff(s, e));
    MonthDiffPast(s, e, MonthDiff(s, e) + 1);
  }

  /** For a start after `e`: `e` moved on by minus MonthDiff months lands on
      or before the start, and one more month passes it. */
  lemma MonthDiffBracketFuture(s: CivilDate, e: CivilDate)
    requires !OnOrBefore(s, e)
    ensures MonthDiff(s, e) <= 0
    ensures OnOrBefore(AddMonths(e, -MonthDiff(s, e)), s)
    ensures !OnOrBefore(AddMonths(e, -MonthDiff(s, e) + 1), s)
  {
    MonthDiffFuture(s, e, -MonthDiff(s, e));
    MonthDiffFuture(s, e, -MonthDiff(s, e) + 1);
  }

  /** A start whose n-th month anniversary `e` has reached but whose next one
      it has not is exactly n whole months before `e`. */
  lemma MonthDiffBetweenAnniversaries(s: CivilDate, e: CivilDate, n: int)
    requires n >= 0
    requires OnOrBefore(AddMonths(s, n), e) && !OnOrBefore(AddMonths(s, n + 1), e)
    ensures MonthDiff(s, e) == n
  {
    AddMonthsMonotone(s, 0, n);
    OnOrBeforeTransitive(s, AddMonths(s, n), e);
    MonthDiffPast(s, e, n);
    MonthDiffPast(s, e, n + 1);
  }

  /** The mirror: a start that `e`'s n-th month anniversary has reached but
      its next one has not is exactly -n whole months from `e`. */
  lemma MonthDiffBetweenAnniversariesBack(s: CivilDate, e: CivilDate, n: int)
    requires n >= 0
    requires OnOrBefore(AddMonths(e, n), s) && !OnOrBefore(AddMonths(e, n + 1), s)
    ensures MonthDiff(s, e) == -n
  {
    MonthDiffBetweenAnniversaries(e, s, n);
    MonthDiffAntisymmetric(s, e);
  }

  lemma OnOrBeforeTransitive(a: Date, b: Date, c: Date)
    requires OnOrBefore(a, b) && OnOrBefore(b, c)
    ensures OnOrBefore(a, c)
  {
  }

  /** Swapping the two dates negates the whole-year difference. */
  lemma YearDiffAntisymmetric(s: CivilDate, e: CivilDate)
    ensures YearDiff(s, e) == -YearDiff(e, s)
  {
    MonthDiffAntisymmetric(s, e);
  }

  /** YearDiff is the largest whole number of years that can be added to
      `s` without passing `e`; for a start after `e`, minus the largest
      whole number of years that can be added to `e` without passing `s`. */
  lemma YearDiffIsWholeYears(s: CivilDate, e: CivilDate)
    ensures OnOrBefore(s, e) ==>
      YearDiff(s, e) >= 0
      && forall n :: n >= 0 ==> (OnOrBefore(AddYears(s, n), e) <==> n <= YearDiff(s, e))
    ensures !OnOrBefore(s, e) ==>
      YearDiff(s, e) <= 0
      && forall n :: n >= 0 ==> (OnOrBefore(AddYears(e, n), s) <==> n <= -YearDiff(s, e))
  {
    if OnOrBefore(s, e) {
      YearsForward(s, e);
    } else {
      YearsForward(e, s);
      YearDiffAntisymmetric(s, e);
    }
  }

  /** The past half of the above, for a start on or before `e`. */
  lemma YearsForward(s: CivilDate, e: CivilDate)
    requires OnOrBefore(s, e)
    ensures YearDiff(s, e) >= 0
    ensures forall n :: n >= 0 ==> (OnOrBefore(AddYears(s, n), e) <==> n <= YearDiff(s, e))
  {
    var m, y := MonthDiff(s, e), YearDiff(s, e);
    MonthDiffIsWholeMonths(s, e);
    forall n | n >= 0
      ensures OnOrBefore(AddYears(s, n), e) <==> n <= y
    {
      AddYearsIsTwelveMonths(s, n);
      assert 12 * n <= m <==> n <= y;
    }
  }
}
