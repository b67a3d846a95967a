# Life calendar: the calendar delta helpers

The life calendar turns a start date (a birthday, say) into elapsed units, measured
up to "today". Three helpers in `src/utils/date.js` do the arithmetic:

- `monthsFromDateToToday`: the number of full months;
- `weeksFromDateToToday`: the number of full weeks;
- `yearsMonthsDaysFromDate`: a years/months/days breakdown.

The month and week counts are zero or positive when the start lies in the past, and zero or negative when it lies in the future; a start less than a full month (or week) away gives 0. In the breakdown the years and months follow the same sign. For a start in the future, though, the days can be positive at month ends: from a start on 28 February 2023 back to 31 January 2023 the breakdown is (0, -1, 3).

The model has two modules.

- `Calendar` (`calendar.dfy`) stands in for the date library the helpers call. It contains:
  - proleptic Gregorian dates with zero-based months;
  - a day number for every date, counted from 1 January 1970, so that a difference in days is a subtraction;
  - calendar addition of months and years, which clamps the day to the end of the target month;
  - the whole-month and whole-year differences.

  Lemmas prove four things about it:
  - day numbers order dates exactly as the calendar fields do;
  - `MonthDiff` is antisymmetric, like the date library's month difference: swapping the dates negates it;
  - for a start on or before the end, `MonthDiff` is the largest whole number of months that can be added to the start without passing the end; for a start after the end, it is minus the largest whole number of months that can be added to the end without passing the start;
  - `YearDiff` is the same for years.
- `DateUtils` (`date_utils.dfy`) holds the three helpers, their neutral results on missing or invalid input, and the properties the code promises:
  - the ±1 month correction and its exact conditions;
  - weeks are the day difference truncated toward zero;
  - the breakdown adds back up to today;
  - monotonicity in "today";
  - the documented examples.

A date argument is a `DateInput`:
- `Missing` stands for a falsy value;
- `Invalid` for something the date library cannot parse;
- `Valid(d)` for a calendar day with the time of day dropped, as the library's `startOf("day")` gives.

"Today" is a parameter.

A full month would naturally be "the largest n such that adding n months to the start does not pass today". The code of `monthsFromDateToToday` does something else: it compares day-of-month fields only. The two differ at month ends. From 30 January 2023 to 28 February 2023 the code gives 0, while adding one month to 30 January 2023 gives 28 February 2023 (in a leap year it would give 29 February). The model follows the code, as `FullMonths`. `FullMonthsIsWholeMonths` proves the two agree whenever the later date's month holds the earlier date's day of the month, and `FullMonthsAtMonthEnd` shows where they part, in both directions.

## Model

| member | source | states |
|---|---|---|
| DateUtils.FullMonths | src/utils/date.js:30-34 | The raw count from the year and month fields is kept, or moved one step toward zero, and never flips sign. It goes down by one exactly when the raw count is positive and today's day is before the start's day. It goes up by one exactly when the raw count is negative and today's day is after the start's day. |
| DateUtils.MonthsFromDateToToday | src/utils/date.js:15-37 | 0 when the start is missing or invalid, or today is invalid; otherwise the full months. |
| DateUtils.FullMonthsMonotone | src/utils/date.js:30-34 | Moving today later never lowers the count of full months. |
| DateUtils.FullMonthsIsWholeMonths | src/utils/date.js:30-34 | The field-based count equals the whole-month difference `MonthDiff` when the later date's month holds the earlier date's day of the month: the start's day in today's month for a start on or before today, today's day in the start's month for a start after today. |
| DateUtils.FullMonthsAtMonthEnd | src/utils/date.js:32-33 | From 30 Jan 2023 to 28 Feb 2023 the code counts 0 full months, but adding one month to 30 Jan gives 28 Feb, so the whole-month difference is 1. In the other direction, from a start on 28 Feb 2023 back to 31 Jan 2023 the code counts 0, while one month after 31 Jan is 28 Feb, so the whole-month difference is -1. |
| DateUtils.FullWeeks | src/utils/date.js:58-61 | Weeks are the day difference truncated toward zero. The sign follows the day difference, and 7·\|w\| ≤ \|days\| < 7·(\|w\|+1). |
| DateUtils.WeeksFromDateToToday | src/utils/date.js:51-62 | 0 when the start is missing or invalid, or today is invalid; otherwise the full weeks. |
| DateUtils.FullWeeksMonotone | src/utils/date.js:58-61 | Moving today later never lowers the count of full weeks. |
| DateUtils.SevenDayBlocksIsDivision | src/utils/date.js:40 | Counting full 7-day blocks one at a time gives the day count divided by 7, by induction on the days. |
| DateUtils.FullWeeksAreSevenDayBlocks | src/utils/date.js:58-61 | Full weeks are the whole 7-day blocks in the day difference, negated when the start is in the future. |
| DateUtils.YmdBetween | src/utils/date.js:86-101 | The cascade as written. Adding the years, then the months, then the days back to the start reaches today exactly. YmdPast and YmdFuture state what each part is. |
| DateUtils.YmdPast | src/utils/date.js:91-99 | For a start on or before today: the years are whole years (a year more would pass today), the months are 0..12, the days are non-negative, and one more month would pass today. |
| DateUtils.MonthsAfterYearsPast | src/utils/date.js:91-95 | The months counted after the whole years are at most 12. |
| DateUtils.YmdFuture | src/utils/date.js:91-99 | For a start after today: years ≤ 0, and minus the years is the largest number of whole years that can be added to today without passing the start. Months are -12..0. When the start moved back by the years is still after today, minus the months is the largest number of whole months that can be added to today without passing it. Otherwise the months are 0 and the days are not negative. |
| DateUtils.YmdFuturePositiveDays | src/utils/date.js:91-99 | For a start after today whose start moved back by the years is still after today, positive days mean that today moved on by minus the months lands exactly on that moved start. |
| DateUtils.PositiveDaysLandOnStart | src/utils/date.js:95-99 | For a date after today: if moving it back by its whole months lands before today, then today moved on by those months is the date itself. |
| DateUtils.FutureSteps | src/utils/date.js:91-99 | The same, stated on the cascade's named steps: the years, the date they land on, the months and the days. |
| DateUtils.YearsBackFuture | src/utils/date.js:91 | For a start after today, minus the whole years is the largest number of years that can be added to today without passing the start. |
| DateUtils.MonthsAfterYearsFuture | src/utils/date.js:91-92 | Toward the past, the start moved back by the whole years is in today's month or at most 12 months after it. |
| DateUtils.MonthsBackWithinAYear | src/utils/date.js:95-96 | From a date in today's month or up to 12 months after it, the whole months to today are -12..0. They are 0 when the date is on or before today, with days left that are not negative. Otherwise minus them is the largest number of whole months that can be added to today without passing the date. |
| DateUtils.YmdWithinAMonth | src/utils/date.js:91-99 | When neither the start plus one month reaches today nor today plus one month reaches the start, the breakdown is (0, 0, day difference). For a start after today those days are negative. |
| DateUtils.YmdTwelveMonths | src/utils/date.js:91-99 | From 29 Feb 2020 to 28 Feb 2024 the cascade as written gives (3, 12, 0). The steps: there are 47 whole months in all, so 3 whole years; 3 years land on 28 Feb 2023; from there 12 whole months land on 28 Feb 2024. |
| DateUtils.YmdBetweenCorrected | src/utils/date.js:86-101 | An alternative breakdown (see Findings) that counts the months once from the start. Adding 12·years + months months, then the days, to the start reaches today. |
| DateUtils.YearsMonthsDaysFromDate | src/utils/date.js:76-102 | (0, 0, 0) when the start is missing or invalid, or today is invalid. Otherwise it is the cascade as written, and adding the years, then the months, then the days to the start reaches today. |
| DateUtils.YmdCorrectedPast | src/utils/date.js:91-99 | For a start on or before today, the alternative breakdown has the same whole years as the cascade, months 0..11, days ≥ 0, and one more month would pass today. |
| DateUtils.YmdCorrectedFuture | src/utils/date.js:91-99 | For a start after today, the alternative breakdown has the same whole years as the cascade and months -11..0. Minus its total of months is the largest number of whole months that can be added to today without passing the start. |
| DateUtils.YmdCorrectedLeapDay | src/utils/date.js:76-102 | From 29 Feb 2020 to 28 Feb 2024 the alternative breakdown gives (3, 11, 30), while the top-level function gives (3, 12, 0). |
| DateUtils.LeapDayToMarch | src/utils/date.js:76-102 | For every leap-day start, the top-level function gives (1, 1, 0) on 28 March of the next year: one year lands on 28 February, then one whole month. |
| DateUtils.LeapDayToMarchCorrected | src/utils/date.js:91-99 | For the same dates the alternative breakdown gives (1, 0, 28): the 12 whole months from the leap day land on 28 February, with 28 days left. |
| DateUtils.MonthsLeftPast | src/utils/date.js:92-95 | Without clamping, the whole months from the start moved on by whole years are the rest of the total whole months. |
| DateUtils.MonthsLeftFuture | src/utils/date.js:92-95 | The same toward the past, for a start after today when both days of the month are ≤ 28. |
| DateUtils.CascadeMonthsWithoutClamping | src/utils/date.js:91-95 | The cascade's months equal the total whole months less 12·years. This needs a start day ≤ 28 and, for a start after today, a day of today ≤ 28. |
| DateUtils.CascadeAgreesWithoutClamping | src/utils/date.js:91-99 | Under the same conditions, the cascade as written and the alternative breakdown are equal. |
| DateUtils.CascadePartsOnLateToday | src/utils/date.js:91-99 | Without the condition on today's day they can part: from a start on 28 Feb 2024 back to 30 Jul 2021 the cascade gives (-2, -7, 2) and the alternative gives (-2, -6, -29). |
| DateUtils.SameDayIsZero | src/utils/date.js:15-102 | The same day gives 0 months, 0 weeks and (0, 0, 0). |
| DateUtils.MonthsExamples | src/utils/date.js:6-9 | With today 2024-03-10: 2024-02-10 gives 1, 2024-02-11 gives 0, 2024-04-10 gives -1. |
| DateUtils.WeeksExamples | src/utils/date.js:42-45 | With today 2024-03-10: 2024-03-03 gives 1, 2024-03-04 gives 0, 2024-03-17 gives -1. |
| DateUtils.YmdExampleYearsAgo | src/utils/date.js:67-68 | The cascade from 2022-01-10 to 2024-03-15 gives (2, 2, 5). The steps: 26 whole months, so 2 years, landing on 2024-01-10; then 2 whole months, landing on 2024-03-10; then 5 days. |
| DateUtils.YmdExampleDaysAgo | src/utils/date.js:69 | The cascade from 2024-03-10 to 2024-03-15 gives (0, 0, 5). |
| DateUtils.YmdExampleDaysAhead | src/utils/date.js:70 | The cascade from 2024-03-20 to 2024-03-15 gives (0, 0, -5). |
| DateUtils.YearsMonthsDaysYearsAgo | src/utils/date.js:68 | The top-level function gives (2, 2, 5) from 2022-01-10 to 2024-03-15. |
| DateUtils.YearsMonthsDaysDaysAgo | src/utils/date.js:69 | The top-level function gives (0, 0, 5) from 2024-03-10 to 2024-03-15. |
| DateUtils.YearsMonthsDaysDaysAhead | src/utils/date.js:70 | The top-level function gives (0, 0, -5) from 2024-03-20 to 2024-03-15. |
| DateUtils.YearsMonthsDaysEndOfJanuary | src/utils/date.js:76-102 | From a start on 28 Feb 2023 back to 31 Jan 2023 the top-level function gives (0, -1, 3). One whole month back lands on 28 Jan, then there are three days forward. |
| DateUtils.YearsMonthsDaysEndOfMarch | src/utils/date.js:76-102 | From a start on 30 Apr 2024 back to 31 Mar 2024 it gives (0, -1, 1). |
| DateUtils.YearsMonthsDaysBackToLeapDay | src/utils/date.js:76-102 | From a start on 28 Feb 2025 back to 29 Feb 2024 it gives (-1, 0, 1). One year back lands on 28 Feb 2024, which is on or before today. |
| DateUtils.LeapDayAnniversary | src/utils/date.js:76-102 | For every leap-day start and 28 February of the next year: adding a year clamps the leap day to that 28 February, and the top-level function gives (1, 0, 0). |
| Calendar.DayNumber | src/utils/date.js:58 | Days from 1 January 1970, so that a day difference is a subtraction. What it means is stated by four lemmas: DayNumberOrder, SameMonthDayDifference, MonthStartStep (each month starts where the one before ends) and EpochIsDayZero (1 January 1970 is day 0). |
| Calendar.MonthStartStep | src/utils/date.js:58 | The first day of a month is the first day of the month before, plus that month's length. |
| Calendar.EpochIsDayZero | src/utils/date.js:58 | 1 January 1970 has day number 0. |
| Calendar.DayNumberOrder | src/utils/date.js:58 | A smaller or equal day number holds exactly when the date is on or before the other, by year, month and day; equal day numbers hold exactly for equal dates. |
| Calendar.SameMonthDayDifference | src/utils/date.js:99 | Within one month, the day difference is the difference of the days of the month. |
| Calendar.AddMonths | src/utils/date.js:96 | The result lies n months on, with the day clamped to the target month's length (`DaysInMonth`); adding 0 months changes nothing. |
| Calendar.DaysInMonth | src/utils/date.js:92-96 | The month length the clamping uses: 28 to 31 days (29 for February in a leap year, 30 for April, June, September and November). |
| Calendar.AddYears | src/utils/date.js:92 | Year + n, same month, and the day clamped to the target month's length. |
| Calendar.AddYearsIsTwelveMonths | src/utils/date.js:92 | Adding n years is adding 12·n months. |
| Calendar.AddMonthsMonotone | src/utils/date.js:96 | Adding more months never gives an earlier date; adding strictly more gives a strictly later one. |
| Calendar.AddMonthsCompose | src/utils/date.js:92-96 | For a day ≤ 28, adding i months and then j months is adding i + j months. |
| Calendar.RawMonths | src/utils/date.js:30 | Months between the two dates' month fields, ignoring the days. RawMonthsLanding states what it means. |
| Calendar.RawMonthsLanding | src/utils/date.js:30 | The start moved by the field month count lands in the end's month, on the clamped day. |
| Calendar.YearsInMonths | src/utils/date.js:91 | Whole years in a month count, truncated toward zero: 12y ≤ m < 12(y+1) for m ≥ 0, and 12(y-1) < m ≤ 12y for m < 0. |
| Calendar.MonthDiff | src/utils/date.js:95 | The whole months between two dates. It is ≥ 0 for a start on or before the end and ≤ 0 otherwise, and at most one from the raw month count. MonthDiffAntisymmetric and MonthDiffIsWholeMonths state what it means: an antisymmetric count of whole months, truncated toward zero. For a start on or before the end it is `MonthsForward`: the field month count, less one when the start's day, clamped to the end's month, is past the end's day. For a start after the end it is minus `MonthsForward` from the end to the start. |
| Calendar.MonthDiffAntisymmetric | src/utils/date.js:95 | Swapping the two dates negates the whole-month difference. |
| Calendar.YearDiffAntisymmetric | src/utils/date.js:91 | Swapping the two dates negates the whole-year difference. |
| Calendar.YearDiff | src/utils/date.js:91 | The whole years between two dates. 12·years brackets MonthDiff from below for a start on or before the end, and from above otherwise. YearDiffIsWholeYears states what it means. |
| Calendar.MonthDiffPast | src/utils/date.js:95 | For a start on or before the end and any n ≥ 0: the start plus n months is on or before the end exactly when n ≤ MonthDiff. |
| Calendar.MonthDiffFuture | src/utils/date.js:95 | For a start after the end and any n ≥ 0: MonthDiff ≤ 0, and the end plus n months is on or before the start exactly when n ≤ -MonthDiff. |
| Calendar.MonthDiffIsWholeMonths | src/utils/date.js:95 | Both characterisations above, for all n ≥ 0. |
| Calendar.MonthDiffBracketPast | src/utils/date.js:95-96 | The start plus MonthDiff months is on or before the end; one month more passes it. |
| Calendar.MonthDiffBracketFuture | src/utils/date.js:95-96 | For a start after the end: the end plus -MonthDiff months is on or before the start, and one month more passes it. |
| Calendar.MonthDiffBetweenAnniversaries | src/utils/date.js:95 | If the end has reached the n-th month anniversary but not the next, MonthDiff is n. |
| Calendar.MonthDiffBetweenAnniversariesBack | src/utils/date.js:95 | The mirror: if the start has reached the end's n-th month anniversary but not the next, MonthDiff is -n. |
| Calendar.YearDiffIsWholeYears | src/utils/date.js:91 | For a start on or before the end, YearDiff is the largest whole number of years that can be added to the start without passing the end. For a start after the end, it is minus the largest whole number of years that can be added to the end without passing the start. |
| Calendar.YearsForward | src/utils/date.js:91 | The first half of the above, for a start on or before the end. |

## Left out

- Parsing: turning strings, native dates and library date objects into dates (`dayjs(...)`, `isValid()`) is abstracted as `DateInput`. Time of day, time zones and daylight-saving shifts are not modelled: dates are calendar days, and a day difference is a calendar-day difference.
- The default `todayInput = new Date()` reads the clock, so "today" is a parameter instead. An omitted today is not represented. `Missing` for today gives the neutral result, as `dayjs(null)` is invalid.
- Falsy start values (`null`, `undefined`, `""`, `0`) are all `Missing`; which JavaScript values are falsy is not modelled.
- The date library's code is not part of this model. Its year/month difference computes a fractional month count, anchored on whichever date has the larger day of the month, and truncates it; its addition clamps to the month end. The model states these as whole-unit calendar definitions (`MonthDiff`, `YearDiff`, `AddMonths`, `AddYears`) with end-of-month clamping. `MonthDiff` is antisymmetric like the library's difference: for a start after the end it is minus the whole months from the end to the start. It does not model the library's fractional arithmetic, so it is not proved equal to the library's truncated fraction.
- YmdFuture: makes no claim on the sign of the days when the start moved back by the whole years is still after today. The days are then positive when that date's day is its month's last day and below today's day: moving it back by the months clamps to an earlier day of today's month, so it lands before today. Today moved on by minus the months lands exactly on that date, as `YmdFuturePositiveDays` proves. From 28 Feb 2023 back to 31 Jan 2023: 28 Feb 2023 less one month is 28 Jan 2023, three days before today, so the result is (0, -1, 3). The round trip in `YmdBetween` pins the days down instead.
- YmdCorrectedFuture: makes no claim on the sign of the days, for the same reason.
- FullWeeks: for a start 1 to 6 days in the future, `Math.ceil` on the negative fraction gives JavaScript's negative zero. It compares equal to 0, and the model gives 0.
- JavaScript numbers are floating point; all results here are small integers, so integers are unbounded in the model. The library's supported date range is not modelled either: every integer year is a proleptic Gregorian year.
- `src/composables/useTheme.js` (theme persistence) and `src/main.js` (application start-up) are not part of this model.

## Findings

| source | as written | input that shows it | evidently intended | confidence | as-written member | corrected member |
|---|---|---|---|---|---|---|
| src/utils/date.js:91-99 | Whole years first, then whole months from the date those years land on, then days. When the start is 29 February, the year step clamps to 28 February, and the months are then counted from the 28th. So the months can reach 12: from 29 Feb 2020 to 28 Feb 2024 the result is (3, 12, 0). | start 2020-02-29, today 2024-02-28 | Possibly months in 0..11. The documentation describes exactly this cascade, so counting the whole months once from the start and splitting them into years and months is an alternative convention, not a documented intent. It gives (3, 11, 30) here. It also differs for 29 February starts whose months are already in range: from 29 Feb 2020 to 28 Mar 2021 the cascade gives (1, 1, 0) and the alternative gives (1, 0, 28). The two agree when the start's day is at most 28 and, for a start after today, today's day is too. From a start on 28 Feb 2024 back to 30 Jul 2021 they part: (-2, -7, 2) against (-2, -6, -29). The alternative gives up the years-then-months round trip: 28 Feb 2023 plus 11 months plus 30 days is 27 Feb 2024. It keeps only the single-step round trip, start plus 12·years + months months. | not executed; depends on the library clamping 29 Feb + 3 years to 28 Feb, as its addition does | DateUtils.YmdTwelveMonths | DateUtils.YmdCorrectedPast |
