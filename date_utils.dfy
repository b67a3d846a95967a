/** The elapsed-time helpers of the life calendar: full months, full weeks,
    and a years/months/days breakdown from a start date to "today". */
module DateUtils {
  import opened Calendar

  /** A date argument once the date library has looked at it: absent (a
      falsy value), not a real date, or a calendar day (time of day dropped). */
  datatype DateInput = Missing | Invalid | Valid(date: CivilDate)

  /** The years/months/days breakdown. */
  datatype Ymd = Ymd(years: int, months: int, days: int)

  function Abs(x: int): int {
    if x < 0 then -x else x
  }

  // ---------------------------------------------------------------------
  // Full months

  /** Full months from `s` to `t`: the month count read off the year and
      month fields, corrected by one toward zero while the day of the month
      has not been reached (two corrections applied one after the other). */
  function FullMonths(s: CivilDate, t: CivilDate): (r: int)
    ensures RawMonths(s, t) == 0 ==> r == 0
    ensures RawMonths(s, t) > 0 ==> RawMonths(s, t) - 1 <= r <= RawMonths(s, t)
    ensures RawMonths(s, t) < 0 ==> RawMonths(s, t) <= r <= RawMonths(s, t) + 1
    ensures r == RawMonths(s, t) - 1 <==> RawMonths(s, t) > 0 && t.day < s.day
    ensures r == RawMonths(s, t) + 1 <==> RawMonths(s, t) < 0 && t.day > s.day
  {
    var months := RawMonths(s, t);
    var months' := if months > 0 && t.day < s.day then months - 1 else months;
    if months' < 0 && t.day > s.day then months' + 1 else months'
  }

  /** Full months from `from` to `today`; 0 when either date is unusable. */
  function MonthsFromDateToToday(from: DateInput, today: DateInput): (r: int)
    ensures !from.Valid? || !today.Valid? ==> r == 0
    ensures from.Valid? && today.Valid? ==> r == FullMonths(from.date, today.date)
  {
    if from.Missing? then 0
    else if from.Invalid? || !today.Valid? then 0
    else FullMonths(from.date, today.date)
  }

  /** Moving "today" later never lowers the count of full months. */
  lemma FullMonthsMonotone(s: CivilDate, t1: CivilDate, t2: CivilDate)
    requires OnOrBefore(t1, t2)
    ensures FullMonths(s, t1) <= FullMonths(s, t2)
  {
    assert RawMonths(s, t1) <= RawMonths(s, t2);
    assert RawMonths(s, t1) == RawMonths(s, t2) ==> t1.day <= t2.day;
  }

  /** The field-based count equals the whole-month difference MonthDiff
      when the later date's month holds the earlier date's day of the month:
      the start's day in today's month for a start on or before today,
      today's day in the start's month for a start after today. */
  lemma FullMonthsIsWholeMonths(s: CivilDate, t: CivilDate)
    requires OnOrBefore(s, t) ==> s.day <= DaysInMonth(t.year, t.month)
    requires !OnOrBefore(s, t) ==> t.day <= DaysInMonth(s.year, s.month)
    ensures FullMonths(s, t) == MonthDiff(s, t)
  {
    MonthIndexFields(s);
    MonthIndexFields(t);
    if OnOrBefore(s, t) {
      assert MonthDiff(s, t) == MonthsForward(s, t);
    } else {
      assert MonthDiff(s, t) == -MonthsForward(t, s);
    }
  }

  /** Where the earlier date's day is clamped in the later date's month the
      two counts part, in both directions: from 30 January 2023 to 28
      February 2023 no full month has passed by the day fields, while adding
      one month to 30 January gives 28 February; and from a start on 28
      February 2023 back to 31 January 2023 the day fields give no full
      month, while one month after 31 January is 28 February. */
  lemma FullMonthsAtMonthEnd()
    ensures FullMonths(Date(2023, 0, 30), Date(2023, 1, 28)) == 0
    ensures MonthDiff(Date(2023, 0, 30), Date(2023, 1, 28)) == 1
    ensures AddMonths(Date(2023, 0, 30), 1) == Date(2023, 1, 28)
    ensures FullMonths(Date(2023, 1, 28), Date(2023, 0, 31)) == 0
    ensures MonthDiff(Date(2023, 1, 28), Date(2023, 0, 31)) == -1
    ensures AddMonths(Date(2023, 0, 31), 1) == Date(2023, 1, 28)
  {
    var s: CivilDate, t: CivilDate := Date(2023, 0, 30), Date(2023, 1, 28);
    assert AddMonths(s, 1) == t;
    assert AddMonths(Date(2023, 0, 31), 1) == t;
  }

  // ---------------------------------------------------------------------
  // Full weeks

  /** Full weeks from `s` to `t`: the exact day difference divided by 7 and
      truncated toward zero (floor when non-negative, ceiling when negative). */
  function FullWeeks(s: CivilDate, t: CivilDate): (w: int)
    ensures w == 0 || (w > 0 <==> DayNumber(t) - DayNumber(s) > 0)
    ensures 7 * Abs(w) <= Abs(DayNumber(t) - DayNumber(s)) < 7 * (Abs(w) + 1)
  {
    var days := DayNumber(t) - DayNumber(s);
    if days >= 0 then days / 7 else -((-days) / 7)
  }

  /** Full weeks from `from` to `today`; 0 when either date is unusable. */
  function WeeksFromDateToToday(from: DateInput, today: DateInput): (r: int)
    ensures !from.Valid? || !today.Valid? ==> r == 0
    ensures from.Valid? && today.Valid? ==> r == FullWeeks(from.date, today.date)
  {
    if from.Missing? then 0
    else if from.Invalid? || !today.Valid? then 0
    else FullWeeks(from.date, today.date)
  }

  /** Moving "today" later never lowers the count of full weeks. */
  lemma FullWeeksMonotone(s: CivilDate, t1: CivilDate, t2: CivilDate)
    requires DayNumber(t1) <= DayNumber(t2)
    ensures FullWeeks(s, t1) <= FullWeeks(s, t2)
  {
    var d1, d2 := DayNumber(t1) - DayNumber(s), DayNumber(t2) - DayNumber(s);
    var w1, w2 := FullWeeks(s, t1), FullWeeks(s, t2);
    if d1 >= 0 {
      assert 7 * w1 <= d1 <= d2 < 7 * (w2 + 1);
    } else if d2 < 0 {
      assert 7 * (w1 - 1) < d1 <= d2 <= 7 * w2;
    }
  }

  /** Whole 7-day blocks in a count of days, taken off one block at a time. */
  function SevenDayBlocks(days: nat): nat {
    if days < 7 then 0 else 1 + SevenDayBlocks(days - 7)
  }

  /** Taking off 7-day blocks one at a time counts the same as dividing by 7. */
  lemma {:induction false} SevenDayBlocksIsDivision(days: nat)
    ensures SevenDayBlocks(days) == days / 7
  {
    if days >= 7 {
      SevenDayBlocksIsDivision(days - 7);
    }
  }

  /** Full weeks are the whole 7-day blocks in the day difference, counted
      negative when the start is in the future. */
  lemma FullWeeksAreSevenDayBlocks(s: CivilDate, t: CivilDate)
    ensures DayNumber(s) <= DayNumber(t) ==>
      FullWeeks(s, t) == SevenDayBlocks(DayNumber(t) - DayNumber(s))
    ensures DayNumber(t) < DayNumber(s) ==>
      FullWeeks(s, t) == -(SevenDayBlocks(DayNumber(s) - DayNumber(t)) as int)
  {
    SevenDayBlocksIsDivision(Abs(DayNumber(t) - DayNumber(s)));
  }

  // ---------------------------------------------------------------------
  // Years, months and days

  /** The cascade: whole years, added back; whole months from there, added
      back; the days that remain. */
  function YmdBetween(s: CivilDate, t: CivilDate): (r: Ymd)
    ensures DayNumber(AddMonths(AddYears(s, r.years), r.months)) + r.days == DayNumber(t)
  {
    var years := YearDiff(s, t);
    var afterYears := AddYears(s, years);
    var months := MonthDiff(afterYears, t);
    var afterMonths := AddMonths(afterYears, months);
    Ymd(years, months, DayNumber(t) - DayNumber(afterMonths))
  }

  /** The breakdown from `from` to `today`, as the cascade computes it; all
      zero when either date is unusable. Years, then months, then days added
      back to the start reach today. */
  function YearsMonthsDaysFromDate(from: DateInput, today: DateInput): (r: Ymd)
    ensures !from.Valid? || !today.Valid? ==> r == Ymd(0, 0, 0)
    ensures from.Valid? && today.Valid? ==> r == YmdBetween(from.date, today.date)
    ensures from.Valid? && today.Valid? ==>
      DayNumber(AddMonths(AddYears(from.date, r.years), r.months)) + r.days == DayNumber(today.date)
  {
    if from.Missing? then Ymd(0, 0, 0)
    else if from.Invalid? || !today.Valid? then Ymd(0, 0, 0)
    else YmdBetween(from.date, today.date)
  }

  /** The cascade from its steps: `y` whole years land on `a`, `m` whole
      months from `a` land on `b`, and `d` days remain from `b` to today. */
  lemma CascadeFromSteps(s: CivilDate, t: CivilDate, y: int, a: CivilDate, m: int, b: CivilDate, d: int)
    requires YearDiff(s, t) == y && AddYears(s, y) == a
    requires MonthDiff(a, t) == m && AddMonths(a, m) == b
    requires DayNumber(t) - DayNumber(b) == d
    ensures YmdBetween(s, t) == Ymd(y, m, d)
  {
  }

  /** A breakdown of the cascade is the top-level result for valid dates. */
  lemma YearsMonthsDaysIsCascade(s: CivilDate, t: CivilDate, r: Ymd)
    requires YmdBetween(s, t) == r
    ensures YearsMonthsDaysFromDate(Valid(s), Valid(t)) == r
  {
  }

  /** For a start on or before today: the years are whole years, the months
      whole months after them (at most 12), and the days what is left, short
      of one more month. */
  lemma YmdPast(s: CivilDate, t: CivilDate)
    requires OnOrBefore(s, t)
    ensures var r := YmdBetween(s, t);
      && r.years >= 0 && 0 <= r.months <= 12 && r.days >= 0
      && OnOrBefore(AddYears(s, r.years), t) && !OnOrBefore(AddYears(s, r.years + 1), t)
      && !OnOrBefore(AddMonths(AddYears(s, r.years), r.months + 1), t)
  {
    var y := YearDiff(s, t);
    var mid := AddYears(s, y);
    YearDiffIsWholeYears(s, t);
    assert OnOrBefore(mid, t);
    assert !OnOrBefore(AddYears(s, y + 1), t);
    MonthDiffBracketPast(mid, t);
    DayNumberOrder(AddMonths(mid, MonthDiff(mid, t)), t);
    MonthsAfterYearsPast(s, t, y);
  }

  /** The whole months after whole years stop short of the next whole year. */
  lemma MonthsAfterYearsPast(s: CivilDate, t: CivilDate, y: int)
    requires OnOrBefore(AddYears(s, y), t) && !OnOrBefore(AddYears(s, y + 1), t)
    ensures MonthDiff(AddYears(s, y), t) <= 12
  {
    var mid := AddYears(s, y);
    AddYearsIsTwelveMonths(s, y);
    AddYearsIsTwelveMonths(s, y + 1);
    IndexOrder(AddYears(s, y + 1), AddMonths(mid, 13));
    MonthDiffPast(mid, t, 13);
    if MonthDiff(mid, t) >= 13 {
      OnOrBeforeTransitive(AddYears(s, y + 1), AddMonths(mid, 13), t);
    }
  }

  /** For a start after today, read from today's side: minus the years is
      the largest number of whole years that can be added to today without
      passing the start; where the start moved back by them is still after
      today, minus the months is the largest number of whole months that can
      be added to today without passing it (at most 12), and otherwise there
      are no months and the days left are not negative. */
  lemma YmdFuture(s: CivilDate, t: CivilDate)
    requires !OnOrBefore(s, t)
    ensures var r := YmdBetween(s, t); var a := AddYears(s, r.years);
      && r.years <= 0 && -12 <= r.months <= 0
      && OnOrBefore(AddYears(t, -r.years), s) && !OnOrBefore(AddYears(t, -r.years + 1), s)
      && (OnOrBefore(a, t) ==> r.months == 0 && r.days >= 0)
      && (!OnOrBefore(a, t) ==>
            OnOrBefore(AddMonths(t, -r.months), a) && !OnOrBefore(AddMonths(t, -r.months + 1), a))
  {
    var r := YmdBetween(s, t);
    FutureSteps(s, t, r.years, AddYears(s, r.years), r.months, r.days);
  }

  /** For a start after today, positive days come only from clamping at a
      month end: today moved on by minus the months then lands exactly on
      the start moved back by the years, while that date moved back by the
      months lands before today. */
  lemma YmdFuturePositiveDays(s: CivilDate, t: CivilDate)
    requires !OnOrBefore(s, t)
    requires !OnOrBefore(AddYears(s, YmdBetween(s, t).years), t)
    requires YmdBetween(s, t).days > 0
    ensures var r := YmdBetween(s, t);
      AddMonths(t, -r.months) == AddYears(s, r.years)
  {
    var r := YmdBetween(s, t);
    FutureSteps(s, t, r.years, AddYears(s, r.years), r.months, r.days);
    PositiveDaysLandOnStart(AddYears(s, r.years), t, r.months);
  }

  /** From a date `a` after today with m = MonthDiff(a, t): if `a` moved
      back by -m months is still before today, then today moved on by -m
      months is `a` itself. */
  lemma PositiveDaysLandOnStart(a: CivilDate, t: CivilDate, m: int)
    requires !OnOrBefore(a, t) && m == MonthDiff(a, t)
    requires DayNumber(AddMonths(a, m)) < DayNumber(t)
    ensures AddMonths(t, -m) == a
  {
    var b, c := AddMonths(t, -m), AddMonths(a, m);
    MonthDiffBracketFuture(a, t);
    DayNumberOrder(b, a);
    DayNumberOrder(t, c);
    MonthIndexFields(a);
    MonthIndexFields(b);
    MonthIndexFields(c);
    MonthIndexFields(t);
    assert MonthIndex(b) == MonthIndex(a) && MonthIndex(c) == MonthIndex(t);
    SameMonthDayDifference(b, a);
    SameMonthDayDifference(c, t);
  }

  /** The steps of the cascade for a start after today, named one by one. */
  lemma FutureSteps(s: CivilDate, t: CivilDate, y: int, a: CivilDate, m: int, d: int)
    requires !OnOrBefore(s, t)
    requires y == YearDiff(s, t) && a == AddYears(s, y) && m == MonthDiff(a, t)
    requires d == DayNumber(t) - DayNumber(AddMonths(a, m))
    ensures y <= 0 && -12 <= m <= 0
    ensures OnOrBefore(AddYears(t, -y), s) && !OnOrBefore(AddYears(t, -y + 1), s)
    ensures OnOrBefore(a, t) ==> m == 0 && d >= 0
    ensures !OnOrBefore(a, t) ==> OnOrBefore(AddMonths(t, -m), a) && !OnOrBefore(AddMonths(t, -m + 1), a)
  {
    YearsBackFuture(s, t);
    MonthsAfterYearsFuture(s, t, y, a);
    MonthsBackWithinAYear(a, t);
  }

  /** For a start after today, minus the whole years is the largest number
      of years that can be added to today without passing the start. */
  lemma YearsBackFuture(s: CivilDate, t: CivilDate)
    requires !OnOrBefore(s, t)
    ensures YearDiff(s, t) <= 0
    ensures OnOrBefore(AddYears(t, -YearDiff(s, t)), s)
    ensures !OnOrBefore(AddYears(t, -YearDiff(s, t) + 1), s)
  {
    YearDiffIsWholeYears(s, t);
    assert -YearDiff(s, t) >= 0;
  }

  /** Toward the past, the start moved back by whole years is in today's
      month or at most twelve months after it. */
  lemma MonthsAfterYearsFuture(s: CivilDate, t: CivilDate, y: int, a: CivilDate)
    requires a == AddYears(s, y)
    requires OnOrBefore(AddYears(t, -y), s) && !OnOrBefore(AddYears(t, -y + 1), s)
    ensures MonthIndex(t) <= MonthIndex(a) <= MonthIndex(t) + 12
  {
    var b, c := AddYears(t, -y), AddYears(t, -y + 1);
    AddYearsIsTwelveMonths(s, y);
    AddYearsIsTwelveMonths(t, -y);
    AddYearsIsTwelveMonths(t, -y + 1);
    if MonthIndex(s) < MonthIndex(b) {
      IndexOrder(s, b);
    }
    if MonthIndex(c) < MonthIndex(s) {
      IndexOrder(c, s);
    }
  }

  /** From a date in today's month or at most twelve months after it, the
      whole months back to today are between -12 and 0: none when the date
      is on or before today (leaving days that are not negative), and
      otherwise minus the largest number of whole months that can be added
      to today without passing the date. */
  lemma MonthsBackWithinAYear(a: CivilDate, t: CivilDate)
    requires MonthIndex(t) <= MonthIndex(a) <= MonthIndex(t) + 12
    ensures -12 <= MonthDiff(a, t) <= 0
    ensures OnOrBefore(a, t) ==>
      MonthDiff(a, t) == 0 && DayNumber(AddMonths(a, MonthDiff(a, t))) <= DayNumber(t)
    ensures !OnOrBefore(a, t) ==>
      OnOrBefore(AddMonths(t, -MonthDiff(a, t)), a) && !OnOrBefore(AddMonths(t, -MonthDiff(a, t) + 1), a)
  {
    assert RawMonths(a, t) == MonthIndex(t) - MonthIndex(a);
    assert RawMonths(t, a) == MonthIndex(a) - MonthIndex(t);
    if OnOrBefore(a, t) {
      assert AddMonths(a, 0) == a;
      DayNumberOrder(a, t);
    } else {
      MonthDiffBracketFuture(a, t);
    }
  }

  /** Less than a month either side of the start, the breakdown is days only;
      before the start those days are negative. */
  lemma YmdWithinAMonth(s: CivilDate, t: CivilDate)
    requires !OnOrBefore(AddMonths(s, 1), t) && !OnOrBefore(AddMonths(t, 1), s)
    ensures YmdBetween(s, t) == Ymd(0, 0, DayNumber(t) - DayNumber(s))
    ensures !OnOrBefore(s, t) ==> YmdBetween(s, t).days < 0
  {
    if OnOrBefore(s, t) {
      MonthDiffPast(s, t, 1);
    } else {
      MonthDiffFuture(s, t, 1);
      DayNumberOrder(s, t);
    }
    assert MonthDiff(s, t) == 0;
    AddYearsIsTwelveMonths(s, 0);
  }

  /** A leap day three years and 364 days back: the cascade takes three whole
      years (29 February 2020 + 4 years = 29 February 2024 is past today), lands
      on 28 February 2023, and from there counts twelve whole months. */
  lemma YmdTwelveMonths(s: CivilDate, t: CivilDate)
    requires s == Date(2020, 1, 29) && t == Date(2024, 1, 28)
    ensures YmdBetween(s, t) == Ymd(3, 12, 0)
  {
    Steps20200229To20240228();
  }

  /** The steps of the cascade from 29 February 2020 to 28 February 2024. */
  lemma Steps20200229To20240228()
    ensures MonthDiff(Date(2020, 1, 29), Date(2024, 1, 28)) == 47
    ensures AddMonths(Date(2020, 1, 29), 47) == Date(2024, 0, 29)
    ensures AddYears(Date(2020, 1, 29), 3) == Date(2023, 1, 28)
    ensures MonthDiff(Date(2023, 1, 28), Date(2024, 1, 28)) == 12
    ensures AddMonths(Date(2023, 1, 28), 12) == Date(2024, 1, 28)
  {
    Months20200229To20240228();
    Months20230228To20240228();
  }

  lemma Months20200229To20240228()
    ensures MonthDiff(Date(2020, 1, 29), Date(2024, 1, 28)) == 47
    ensures AddMonths(Date(2020, 1, 29), 47) == Date(2024, 0, 29)
  {
    assert AddMonths(Date(2020, 1, 29), 48) == Date(2024, 1, 29);
    MonthDiffBetweenAnniversaries(Date(2020, 1, 29), Date(2024, 1, 28), 47);
  }

  lemma Months20230228To20240228()
    ensures MonthDiff(Date(2023, 1, 28), Date(2024, 1, 28)) == 12
    ensures AddMonths(Date(2023, 1, 28), 12) == Date(2024, 1, 28)
  {
    assert AddMonths(Date(2023, 1, 28), 13) == Date(2024, 2, 28);
    MonthDiffBetweenAnniversaries(Date(2023, 1, 28), Date(2024, 1, 28), 12);
  }

  /** The breakdown with the months counted once from the start: whole
      months from `s`, split into years and months, then the days left. */
  function YmdBetweenCorrected(s: CivilDate, t: CivilDate): (r: Ymd)
    ensures DayNumber(AddMonths(s, 12 * r.years + r.months)) + r.days == DayNumber(t)
  {
    SplitMonths(s, t, MonthDiff(s, t))
  }

  /** A total of months from `s` split into whole years and the months
      left, with the days that remain from where the total lands to `t`. */
  function SplitMonths(s: CivilDate, t: CivilDate, total: int): (r: Ymd)
    ensures 12 * r.years + r.months == total
    ensures r.days == DayNumber(t) - DayNumber(AddMonths(s, total))
  {
    var years := YearsInMonths(total);
    Ymd(years, total - 12 * years, DayNumber(t) - DayNumber(AddMonths(s, total)))
  }

  /** For a start on or before today the corrected breakdown keeps the
      source's whole years, never shows twelve or more months, and leaves
      fewer days than one more month. */
  lemma YmdCorrectedPast(s: CivilDate, t: CivilDate)
    requires OnOrBefore(s, t)
    ensures var r := YmdBetweenCorrected(s, t);
      && r.years == YearDiff(s, t)
      && 0 <= r.months <= 11 && r.days >= 0
      && !OnOrBefore(AddMonths(s, 12 * r.years + r.months + 1), t)
  {
    var total := MonthDiff(s, t);
    MonthDiffBracketPast(s, t);
    DayNumberOrder(AddMonths(s, total), t);
    var r := YmdBetweenCorrected(s, t);
    assert 12 * r.years + r.months + 1 == total + 1;
  }

  /** For a start after today the corrected breakdown keeps the source's
      whole years, shows no more than eleven months back, and its total of
      months is minus the largest number of whole months that can be added
      to today without passing the start. */
  lemma YmdCorrectedFuture(s: CivilDate, t: CivilDate)
    requires !OnOrBefore(s, t)
    ensures var r := YmdBetweenCorrected(s, t);
      && r.years == YearDiff(s, t)
      && -11 <= r.months <= 0
      && OnOrBefore(AddMonths(t, -(12 * r.years + r.months)), s)
      && !OnOrBefore(AddMonths(t, -(12 * r.years + r.months) + 1), s)
  {
    var total := MonthDiff(s, t);
    MonthDiffBracketFuture(s, t);
    var r := YmdBetweenCorrected(s, t);
    assert 12 * r.years + r.months == total;
  }

  lemma YmdCorrectedLeapDay(s: CivilDate, t: CivilDate)
    requires s == Date(2020, 1, 29) && t == Date(2024, 1, 28)
    ensures YmdBetweenCorrected(s, t) == Ymd(3, 11, 30)
    ensures YearsMonthsDaysFromDate(Valid(s), Valid(t)) == Ymd(3, 12, 0)
  {
    YmdTwelveMonths(s, t);
    YearsMonthsDaysIsCascade(s, t, Ymd(3, 12, 0));
    Steps20200229To20240228();
    assert DayNumber(Date(2024, 0, 29)) + 30 == DayNumber(Date(2024, 1, 28)) by {
      MonthStartStep(MonthIndex(Date(2024, 0, 1)));
      DayNumberInMonth(Date(2024, 0, 29));
      DayNumberInMonth(Date(2024, 1, 28));
    }
  }

  /** The two breakdowns part for every leap-day start even when the months
      are in range. From 29 February of a leap year to 28 March of the next
      year the cascade lands on 28 February after one year and counts one
      more month: 29 February 2020 to 28 March 2021 gives (1, 1, 0). */
  lemma LeapDayToMarch(s: CivilDate, t: CivilDate)
    requires s.month == 1 && s.day == 29 && t == Date(s.year + 1, 2, 28)
    ensures YearsMonthsDaysFromDate(Valid(s), Valid(t)) == Ymd(1, 1, 0)
  {
    var a := LeapDayToMarchSteps(s, t);
    CascadeFromSteps(s, t, 1, a, 1, t, 0);
  }

  /** Counting months once from the start instead finds 12 whole months,
      which land on 28 February with 28 days left: (1, 0, 28). */
  lemma LeapDayToMarchCorrected(s: CivilDate, t: CivilDate)
    requires s.month == 1 && s.day == 29 && t == Date(s.year + 1, 2, 28)
    ensures YmdBetweenCorrected(s, t) == Ymd(1, 0, 28)
  {
    var a := LeapDayToMarchSteps(s, t);
    assert DayNumber(a) + 28 == DayNumber(t) by {
      MonthStartStep(MonthIndex(a));
      DayNumberInMonth(a);
      DayNumberInMonth(t);
      MonthIndexFields(t);
    }
  }

  /** The whole-month steps of both breakdowns from a leap day to 28 March
      of the next year, which is not a leap year; `a` is 28 February. */
  lemma LeapDayToMarchSteps(s: CivilDate, t: CivilDate) returns (a: CivilDate)
    requires s.month == 1 && s.day == 29 && t == Date(s.year + 1, 2, 28)
    ensures a == Date(s.year + 1, 1, 28) && !IsLeapYear(s.year + 1)
    ensures MonthDiff(s, t) == 12 && AddMonths(s, 12) == a
    ensures YearDiff(s, t) == 1 && AddYears(s, 1) == a
    ensures MonthDiff(a, t) == 1 && AddMonths(a, 1) == t
  {
    a := Date(s.year + 1, 1, 28);
    AddYearsIsTwelveMonths(s, 1);
    var b := AddMonths(s, 13);
    MonthIndexFields(b);
    assert b == Date(s.year + 1, 2, 29);
    MonthDiffBetweenAnniversaries(s, t, 12);
    var c := AddMonths(a, 1);
    MonthIndexFields(c);
    var d := AddMonths(a, 2);
    MonthIndexFields(d);
    MonthDiffBetweenAnniversaries(a, t, 1);
  }

  /** Past case of the agreement below: from `s` moved on by whole years
      that do not pass `t`, the whole months left are the rest of the total. */
  lemma MonthsLeftPast(s: CivilDate, t: CivilDate, y: int)
    requires s.day <= 28 && OnOrBefore(s, t)
    requires 0 <= 12 * y <= MonthDiff(s, t)
    ensures MonthDiff(AddMonths(s, 12 * y), t) == MonthDiff(s, t) - 12 * y
  {
    var total := MonthDiff(s, t);
    var n0 := total - 12 * y;
    MonthDiffBracketPast(s, t);
    AddMonthsCompose(s, 12 * y, n0, total);
    AddMonthsCompose(s, 12 * y, n0 + 1, total + 1);
    MonthDiffBetweenAnniversaries(AddMonths(s, 12 * y), t, n0);
  }

  /** Future case of the agreement below: when neither day of the month is
      ever clamped, the start moved back by the whole years is the same
      number of months nearer today as the whole years hold. */
  lemma MonthsLeftFuture(s: CivilDate, t: CivilDate, y: int)
    requires s.day <= 28 && t.day <= 28 && !OnOrBefore(s, t)
    requires 12 * (y - 1) < MonthDiff(s, t) <= 12 * y <= 0
    ensures MonthDiff(AddMonths(s, 12 * y), t) == MonthDiff(s, t) - 12 * y
  {
    var a := AddMonths(s, 12 * y);
    MonthIndexFields(a);
    MonthIndexFields(s);
    MonthIndexFields(t);
    assert a.day == s.day;
    assert MonthDiff(s, t) == -MonthsForward(t, s);
    if OnOrBefore(a, t) {
      assert MonthIndex(a) == MonthIndex(t) && a.day <= t.day;
      assert MonthDiff(a, t) == MonthsForward(a, t) == 0;
    } else {
      assert RawMonths(t, a) == RawMonths(t, s) + 12 * y;
      assert MonthDiff(a, t) == -MonthsForward(t, a);
    }
  }

  /** When no day of the month is clamped, the whole months the cascade
      counts after the whole years are the rest of the total whole months. */
  lemma CascadeMonthsWithoutClamping(s: CivilDate, t: CivilDate)
    requires s.day <= 28
    requires !OnOrBefore(s, t) ==> t.day <= 28
    ensures MonthDiff(AddYears(s, YearDiff(s, t)), t) == MonthDiff(s, t) - 12 * YearDiff(s, t)
  {
    var total := MonthDiff(s, t);
    var y := YearsInMonths(total);
    AddYearsIsTwelveMonths(s, y);
    if OnOrBefore(s, t) {
      MonthDiffPast(s, t, 0);
      MonthsLeftPast(s, t, y);
    } else {
      MonthsLeftFuture(s, t, y);
    }
  }

  /** When the start's day of the month exists in every month (and, for a
      start after today, today's day too), adding the whole years and then
      the whole months never clamps, and the cascade gives the same
      breakdown as counting the months once. */
  lemma CascadeAgreesWithoutClamping(s: CivilDate, t: CivilDate)
    requires s.day <= 28
    requires !OnOrBefore(s, t) ==> t.day <= 28
    ensures YmdBetween(s, t) == YmdBetweenCorrected(s, t)
  {
    var y := YearDiff(s, t);
    var m := MonthDiff(AddYears(s, y), t);
    CascadeMonthsWithoutClamping(s, t);
    AddYearsIsTwelveMonths(s, y);
    AddMonthsCompose(s, 12 * y, m, MonthDiff(s, t));
    assert YmdBetween(s, t).days == YmdBetweenCorrected(s, t).days;
  }

  // ---------------------------------------------------------------------
  // Documented cases

  /** The same day gives zero in every helper. */
  lemma SameDayIsZero(d: CivilDate)
    ensures MonthsFromDateToToday(Valid(d), Valid(d)) == 0
    ensures WeeksFromDateToToday(Valid(d), Valid(d)) == 0
    ensures YearsMonthsDaysFromDate(Valid(d), Valid(d)) == Ymd(0, 0, 0)
    ensures YmdBetween(d, d) == Ymd(0, 0, 0)
  {
    assert MonthDiff(d, d) == 0;
    AddYearsIsTwelveMonths(d, 0);
  }

  lemma MonthsExamples()
    ensures MonthsFromDateToToday(Valid(Date(2024, 1, 10)), Valid(Date(2024, 2, 10))) == 1
    ensures MonthsFromDateToToday(Valid(Date(2024, 1, 11)), Valid(Date(2024, 2, 10))) == 0
    ensures MonthsFromDateToToday(Valid(Date(2024, 3, 10)), Valid(Date(2024, 2, 10))) == -1
  {
  }

  lemma WeeksExamples()
    ensures WeeksFromDateToToday(Valid(Date(2024, 2, 3)), Valid(Date(2024, 2, 10))) == 1
    ensures WeeksFromDateToToday(Valid(Date(2024, 2, 4)), Valid(Date(2024, 2, 10))) == 0
    ensures WeeksFromDateToToday(Valid(Date(2024, 2, 17)), Valid(Date(2024, 2, 10))) == -1
  {
  }

  lemma YmdExampleYearsAgo(s: CivilDate, t: CivilDate)
    requires s == Date(2022, 0, 10) && t == Date(2024, 2, 15)
    ensures YmdBetween(s, t) == Ymd(2, 2, 5)
  {
    Steps20220110To20240315();
  }

  /** The steps of the cascade from 10 January 2022 to 15 March 2024. */
  lemma Steps20220110To20240315()
    ensures MonthDiff(Date(2022, 0, 10), Date(2024, 2, 15)) == 26
    ensures AddYears(Date(2022, 0, 10), 2) == Date(2024, 0, 10)
    ensures MonthDiff(Date(2024, 0, 10), Date(2024, 2, 15)) == 2
    ensures AddMonths(Date(2024, 0, 10), 2) == Date(2024, 2, 10)
    ensures DayNumber(Date(2024, 2, 15)) - DayNumber(Date(2024, 2, 10)) == 5
  {
    Months20220110To20240315();
    Months20240110To20240315();
    SameMonthDayDifference(Date(2024, 2, 10), Date(2024, 2, 15));
  }

  lemma Months20220110To20240315()
    ensures MonthDiff(Date(2022, 0, 10), Date(2024, 2, 15)) == 26
  {
    assert AddMonths(Date(2022, 0, 10), 26) == Date(2024, 2, 10);
    assert AddMonths(Date(2022, 0, 10), 27) == Date(2024, 3, 10);
    MonthDiffBetweenAnniversaries(Date(2022, 0, 10), Date(2024, 2, 15), 26);
  }

  lemma Months20240110To20240315()
    ensures MonthDiff(Date(2024, 0, 10), Date(2024, 2, 15)) == 2
    ensures AddMonths(Date(2024, 0, 10), 2) == Date(2024, 2, 10)
  {
    assert AddMonths(Date(2024, 0, 10), 3) == Date(2024, 3, 10);
    MonthDiffBetweenAnniversaries(Date(2024, 0, 10), Date(2024, 2, 15), 2);
  }

  lemma YmdExampleDaysAgo(s: CivilDate, t: CivilDate)
    requires s == Date(2024, 2, 10) && t == Date(2024, 2, 15)
    ensures YmdBetween(s, t) == Ymd(0, 0, 5)
  {
    assert DayNumber(s) == 19792 && DayNumber(t) == 19797;
    assert MonthDiff(s, t) == 0;
  }

  lemma YmdExampleDaysAhead(s: CivilDate, t: CivilDate)
    requires s == Date(2024, 2, 20) && t == Date(2024, 2, 15)
    ensures YmdBetween(s, t) == Ymd(0, 0, -5)
  {
    assert DayNumber(s) == 19802 && DayNumber(t) == 19797;
    assert MonthDiff(s, t) == 0;
  }

  /** The documented breakdowns, as the top-level function gives them. */
  lemma YearsMonthsDaysYearsAgo(s: CivilDate, t: CivilDate)
    requires s == Date(2022, 0, 10) && t == Date(2024, 2, 15)
    ensures YearsMonthsDaysFromDate(Valid(s), Valid(t)) == Ymd(2, 2, 5)
  {
    YmdExampleYearsAgo(s, t);
    YearsMonthsDaysIsCascade(s, t, Ymd(2, 2, 5));
  }

  lemma YearsMonthsDaysDaysAgo(s: CivilDate, t: CivilDate)
    requires s == Date(2024, 2, 10) && t == Date(2024, 2, 15)
    ensures YearsMonthsDaysFromDate(Valid(s), Valid(t)) == Ymd(0, 0, 5)
  {
    YmdExampleDaysAgo(s, t);
    YearsMonthsDaysIsCascade(s, t, Ymd(0, 0, 5));
  }

  lemma YearsMonthsDaysDaysAhead(s: CivilDate, t: CivilDate)
    requires s == Date(2024, 2, 20) && t == Date(2024, 2, 15)
    ensures YearsMonthsDaysFromDate(Valid(s), Valid(t)) == Ymd(0, 0, -5)
  {
    YmdExampleDaysAhead(s, t);
    YearsMonthsDaysIsCascade(s, t, Ymd(0, 0, -5));
  }

  /** For a start after today the days left can be positive. From a start
      on 28 February 2023 back to 31 January 2023 the cascade counts one
      whole month back, which lands on 28 January, and three days forward. */
  lemma YearsMonthsDaysEndOfJanuary(s: CivilDate, t: CivilDate)
    requires s == Date(2023, 1, 28) && t == Date(2023, 0, 31)
    ensures YearsMonthsDaysFromDate(Valid(s), Valid(t)) == Ymd(0, -1, 3)
  {
    var b := Date(2023, 0, 28);
    assert DaysInMonth(2023, 1) == 28 by {
      assert !IsLeapYear(2023);
    }
    assert MonthsForward(t, s) == 1;
    assert MonthDiff(s, t) == -1;
    assert YearDiff(s, t) == 0;
    assert AddMonths(s, -1) == b;
    SameMonthDayDifference(b, t);
    AddYearsIsTwelveMonths(s, 0);
    CascadeFromSteps(s, t, 0, s, -1, b, 3);
    YearsMonthsDaysIsCascade(s, t, Ymd(0, -1, 3));
  }

  /** From a start on 30 April 2024 back to 31 March 2024: one whole month
      back lands on 30 March, with one day forward. */
  lemma YearsMonthsDaysEndOfMarch(s: CivilDate, t: CivilDate)
    requires s == Date(2024, 3, 30) && t == Date(2024, 2, 31)
    ensures YearsMonthsDaysFromDate(Valid(s), Valid(t)) == Ymd(0, -1, 1)
  {
    var b := Date(2024, 2, 30);
    assert MonthDiff(s, t) == -1;
    assert AddMonths(s, -1) == b;
    SameMonthDayDifference(b, t);
    AddYearsIsTwelveMonths(s, 0);
    CascadeFromSteps(s, t, 0, s, -1, b, 1);
    YearsMonthsDaysIsCascade(s, t, Ymd(0, -1, 1));
  }

  /** From a start on 28 February 2025 back to the leap day 29 February
      2024: one whole year back lands on 28 February 2024, which is on or
      before today, so no months and one day forward. */
  lemma YearsMonthsDaysBackToLeapDay(s: CivilDate, t: CivilDate)
    requires s == Date(2025, 1, 28) && t == Date(2024, 1, 29)
    ensures YearsMonthsDaysFromDate(Valid(s), Valid(t)) == Ymd(-1, 0, 1)
  {
    var a := Date(2024, 1, 28);
    assert MonthDiff(s, t) == -12;
    assert YearDiff(s, t) == -1;
    assert AddYears(s, -1) == a;
    assert MonthDiff(a, t) == 0;
    SameMonthDayDifference(a, t);
    CascadeFromSteps(s, t, -1, a, 0, a, 1);
    YearsMonthsDaysIsCascade(s, t, Ymd(-1, 0, 1));
  }

  /** For a start after today whose today falls on a day of the month past
      28, the cascade and the single count part: from 28 February 2024 back
      to 30 July 2021 the cascade gives (-2, -7, 2) (two years back to 28
      February 2022, seven months back to 28 July 2021), while counting the
      30 whole months back once lands on 28 August 2021 and gives
      (-2, -6, -29). */
  lemma CascadePartsOnLateToday(s: CivilDate, t: CivilDate)
    requires s == Date(2024, 1, 28) && t == Date(2021, 6, 30)
    ensures YmdBetween(s, t) == Ymd(-2, -7, 2)
    ensures YmdBetweenCorrected(s, t) == Ymd(-2, -6, -29)
  {
    var a, b, c := Date(2022, 1, 28), Date(2021, 6, 28), Date(2021, 7, 28);
    assert MonthDiff(s, t) == -30;
    assert YearDiff(s, t) == -2;
    assert AddYears(s, -2) == a;
    assert MonthDiff(a, t) == -7;
    assert AddMonths(a, -7) == b;
    SameMonthDayDifference(b, t);
    CascadeFromSteps(s, t, -2, a, -7, b, 2);
    assert AddMonths(s, -30) == c;
    assert DayNumber(t) - DayNumber(c) == -29 by {
      MonthStartStep(MonthIndex(t));
      DayNumberInMonth(t);
      DayNumberInMonth(c);
    }
  }

  /** From a leap day to 28 February of the next year is one whole year:
      adding a year to the leap day clamps it to 28 February, and the
      top-level function gives (1, 0, 0). */
  lemma LeapDayAnniversary(s: CivilDate, t: CivilDate)
    requires s.month == 1 && s.day == 29 && t == Date(s.year + 1, 1, 28)
    ensures AddYears(s, 1) == t
    ensures YearsMonthsDaysFromDate(Valid(s), Valid(t)) == Ymd(1, 0, 0)
  {
    AddYearsIsTwelveMonths(s, 1);
    var b := AddMonths(s, 13);
    MonthIndexFields(b);
    var c := AddMonths(t, 1);
    MonthIndexFields(c);
    MonthDiffBetweenAnniversaries(s, t, 12);
    MonthDiffBetweenAnniversaries(t, t, 0);
    CascadeFromSteps(s, t, 1, t, 0, t, 0);
    YearsMonthsDaysIsCascade(s, t, Ymd(1, 0, 0));
  }
}
