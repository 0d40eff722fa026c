/** Dates and times as the Python service layer handles them.

    A `date` is its proleptic Gregorian ordinal, the number `date.toordinal()`
    gives (0001-01-01 is day 1, 9999-12-31 is the last day). A `time` is the
    number of minutes since midnight. A civil (year, month, day) triple is
    only needed for the month range of the monthly report. */
module Calendar {
  import opened Wrappers

  const MinutesPerDay: int := 1440

  /** A time of day with minute resolution: 00:00 is 0, 23:59 is 1439. */
  type MinuteOfDay = m: int | 0 <= m < 1440

  const MinYear: int := 1
  const MaxYear: int := 9999

  /** `date.min.toordinal()` and `date.max.toordinal()`. */
  const MinOrdinal: int := 1
  const MaxOrdinal: int := 3652059

  type Date = d: int | MinOrdinal <= d <= MaxOrdinal witness MinOrdinal

  /** The minutes a `datetime` can lie after `datetime.min` (0001-01-01 00:00). */
  const DateTimeSpan: int := MaxOrdinal * MinutesPerDay

  function Clock(hour: int, minute: int): (t: MinuteOfDay)
    requires 0 <= hour < 24 && 0 <= minute < 60
    ensures t / 60 == hour && t % 60 == minute
  {
    hour * 60 + minute
  }

  /** The time of day `duration` minutes after `start`, computed as
      `(datetime.combine(date.min, start) + timedelta(minutes=duration)).time()`:
      it wraps past midnight, and it is None where that addition raises
      OverflowError (before `datetime.min` or after `datetime.max`). */
  function EndTime(start: MinuteOfDay, duration: int): (r: Option<MinuteOfDay>)
    ensures r.Some? <==> 0 <= start + duration < DateTimeSpan
    ensures r.Some? ==> (start + duration - r.value) % MinutesPerDay == 0
    ensures r.Some? && start + duration < MinutesPerDay ==> r.value == start + duration
  {
    if 0 <= start + duration < DateTimeSpan then Some((start + duration) % MinutesPerDay) else None
  }

  /** The lunch break during which no lesson may run: 12:10 to 13:00. */
  const LunchStart: MinuteOfDay := 730
  const LunchEnd: MinuteOfDay := 780

  predicate InLunch(t: int)
  {
    LunchStart <= t < LunchEnd
  }

  /** The slot test of `add_course_schedule`: it ends by 12:10 or starts at 13:00 or later. */
  predicate ClearOfLunch(start: MinuteOfDay, end: MinuteOfDay)
  {
    end <= LunchStart || start >= LunchEnd
  }

  /** For a slot of positive length that stays within one day, the test is
      exactly "no minute of the slot falls in the lunch break". */
  lemma ClearOfLunchIffNoLunchMinute(start: MinuteOfDay, duration: int)
    requires 0 < duration && start + duration < MinutesPerDay
    ensures ClearOfLunch(start, start + duration)
        <==> forall t :: start <= t < start + duration ==> !InLunch(t)
  {
    if !ClearOfLunch(start, start + duration) {
      var t := if start < LunchStart then LunchStart else start;
      assert start <= t < start + duration && InLunch(t);
    }
  }

  /** The test looks only at the wrapped end time: a 24-hour slot starting at
      noon ends "at noon" and is accepted although it covers the break. */
  lemma WrappedSlotPassesLunchTest()
    ensures EndTime(Clock(12, 0), MinutesPerDay) == Some(Clock(12, 0))
    ensures ClearOfLunch(Clock(12, 0), Clock(12, 0))
  {
  }

  /** In general: every slot that starts before 13:00 and runs past midnight
      to end by 12:10 on a later day is accepted, although some minute of it
      lies in the break. A slot from 12:30 lasting 1000 minutes ends at 05:10
      and is one of them. */
  lemma WrappedSlotsPassLunchTest(start: MinuteOfDay, duration: int)
    requires start < LunchEnd
    requires MinutesPerDay <= start + duration < DateTimeSpan
    requires (start + duration) % MinutesPerDay <= LunchStart
    ensures EndTime(start, duration).Some? && ClearOfLunch(start, EndTime(start, duration).value)
    ensures exists t :: start <= t < start + duration && InLunch(t)
  {
    var t := if start < LunchStart then LunchStart else start;
    assert start <= t < start + duration && InLunch(t);
  }

  /** `date.weekday()`: Monday is 0 and Sunday is 6. */
  function Weekday(d: int): (w: int)
    ensures 0 <= w < 7
  {
    (d + 6) % 7
  }

  /** The `day_map` of `get_courses_for_period`, indexed by weekday. */
  const DayNames: seq<string> := ["MON", "TUE", "WED", "THU", "FRI", "SAT", "SUN"]

  function DayName(d: int): (name: string)
    ensures name in DayNames
    ensures name == DayNames[Weekday(d)]
  {
    DayNames[Weekday(d)]
  }

  lemma FirstDayIsMonday()
    ensures DayName(MinOrdinal) == "MON"
  {
  }

  /** The next day is the next weekday, Sunday being followed by Monday. */
  lemma WeekdayNext(d: int)
    ensures Weekday(d + 1) == (Weekday(d) + 1) % 7
  {
  }

  // ---- civil dates, for the month range of the monthly report ----

  predicate IsLeapYear(y: int)
  {
    y % 4 == 0 && (y % 100 != 0 || y % 400 == 0)
  }

  function DaysInMonth(y: int, m: int): (n: int)
    requires 1 <= m <= 12
    ensures 28 <= n <= 31
    ensures m == 2 ==> (n == 29 <==> IsLeapYear(y))
  {
    if m == 2 then (if IsLeapYear(y) then 29 else 28)
    else if m == 4 || m == 6 || m == 9 || m == 11 then 30
    else 31
  }

  /** Days in the year before the first of month `m`, as CPython's `_days_before_month`. */
  function DaysBeforeMonth(y: int, m: int): int
    requires 1 <= m <= 12
  {
    [0, 31, 59, 90, 120, 151, 181, 212, 243, 273, 304, 334][m - 1]
      + (if m > 2 && IsLeapYear(y) then 1 else 0)
  }

  /** Days before January 1 of year `y`, as CPython's `_days_before_year`. */
  function DaysBeforeYear(y: int): int
  {
    var y1 := y - 1;
    y1 * 365 + y1 / 4 - y1 / 100 + y1 / 400
  }

  datatype CivilDate = CivilDate(year: int, month: int, day: int)

  /** A month and a day that exist in the calendar; the year is not bounded. */
  predicate WellFormed(c: CivilDate)
  {
    1 <= c.month <= 12 && 1 <= c.day <= DaysInMonth(c.year, c.month)
  }

  /** `date.toordinal()`. */
  function ToOrdinal(c: CivilDate): int
    requires 1 <= c.month <= 12
  {
    DaysBeforeYear(c.year) + DaysBeforeMonth(c.year, c.month) + c.day
  }

  function NextDay(c: CivilDate): (n: CivilDate)
    requires WellFormed(c)
    ensures WellFormed(n)
  {
    if c.day < DaysInMonth(c.year, c.month) then c.(day := c.day + 1)
    else if c.month < 12 then CivilDate(c.year, c.month + 1, 1)
    else CivilDate(c.year + 1, 1, 1)
  }

  function PrevDay(c: CivilDate): (p: CivilDate)
    requires WellFormed(c)
    ensures WellFormed(p)
  {
    if c.day > 1 then c.(day := c.day - 1)
    else if c.month > 1 then CivilDate(c.year, c.month - 1, DaysInMonth(c.year, c.month - 1))
    else CivilDate(c.year - 1, 12, 31)
  }

  /** `c + timedelta(days=n)`, one day at a time; the year bound is checked by the caller. */
  function AddDays(c: CivilDate, n: nat): (r: CivilDate)
    requires WellFormed(c)
    ensures WellFormed(r)
  {
    if n == 0 then c else NextDay(AddDays(c, n - 1))
  }

  /** The month after (y, m). */
  function NextMonth(y: int, m: int): CivilDate
    requires 1 <= m <= 12
  {
    if m < 12 then CivilDate(y, m + 1, 1) else CivilDate(y + 1, 1, 1)
  }

  /** Counting k days from the first of a month stays in that month while
      k is below its length and then continues into the next month. */
  lemma {:induction false} AddDaysFromFirst(y: int, m: int, k: nat)
    requires 1 <= m <= 12 && k <= 31
    ensures AddDays(CivilDate(y, m, 1), k)
         == if k < DaysInMonth(y, m) then CivilDate(y, m, 1 + k)
            else NextMonth(y, m).(day := 1 + k - DaysInMonth(y, m))
  {
    if k > 0 {
      AddDaysFromFirst(y, m, k - 1);
      var n := NextMonth(y, m);
      assert 28 <= DaysInMonth(n.year, n.month);
    }
  }

  /** The reporting range of `get_monthly_attendance_report` as ordinals: the
      first of the month, and `((first + 31 days).replace(day=1) - 1 day)`.
      None where `date(year, month, 1)` raises ValueError (year or month out of
      range) or the addition raises OverflowError (December of year 9999). */
  function MonthRange(year: int, month: int): (r: Option<(int, int)>)
    ensures r.Some? <==> MinYear <= year <= MaxYear && 1 <= month <= 12 && !(year == MaxYear && month == 12)
    ensures r.Some? ==> r.value.0 == ToOrdinal(CivilDate(year, month, 1))
    ensures r.Some? ==> r.value.1 == ToOrdinal(CivilDate(year, month, DaysInMonth(year, month)))
    ensures r.Some? ==> r.value.1 - r.value.0 + 1 == DaysInMonth(year, month)
  {
    if !(MinYear <= year <= MaxYear && 1 <= month <= 12) then None
    else
      var first := CivilDate(year, month, 1);
      var probe := AddDays(first, 31);
      AddDaysFromFirst(year, month, 31);
      if probe.year > MaxYear then None
      else
        var last := PrevDay(probe.(day := 1));
        Some((ToOrdinal(first), ToOrdinal(last)))
  }
}
