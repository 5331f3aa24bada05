/** Calendar points as the traffic ledger stores them: hour, day and month all count from zero. */
module Calendar {

  datatype StatTime = StatTime(hour: int, day: int, month: int, year: int)

  predicate IsLeap(year: int) {
    year % 4 == 0 && (year % 100 != 0 || year % 400 == 0)
  }

  function DaysIn(year: int, month: int): (days: int)
    ensures 28 <= days <= 31
  {
    if month == 1 then (if IsLeap(year) then 29 else 28)
    else if month == 3 || month == 5 || month == 8 || month == 10 then 30
    else 31
  }

  /** Every value that makeStatTime produces from a real clock is of this kind. */
  predicate Valid(t: StatTime) {
    && 1 <= t.year
    && 0 <= t.month < 12
    && 0 <= t.day < DaysIn(t.year, t.month)
    && 0 <= t.hour < 24
  }

  predicate LessEq(a: StatTime, b: StatTime) {
    || a.year < b.year
    || (a.year == b.year &&
        (|| a.month < b.month
         || (a.month == b.month && (a.day < b.day || (a.day == b.day && a.hour <= b.hour)))))
  }

  function MonthIndex(t: StatTime): int {
    12 * t.year + t.month
  }

  /** The day of the month that the Go library's Date reports for the possibly
      overflowing day number `day` (from one) of the month `month` (from zero). */
  function NormalisedDay(year: int, month: int, day: int): (d: int)
    requires 1 <= day
    ensures 1 <= d <= 31
    decreases day
  {
    if day <= DaysIn(year, month) then day
    else if month == 11 then NormalisedDay(year + 1, 0, day - DaysIn(year, month))
    else NormalisedDay(year, month + 1, day - DaysIn(year, month))
  }

  predicate IsLastDay(t: StatTime)
    requires 0 <= t.day
  {
    NormalisedDay(t.year, t.month, t.day + 1 + 1) == 1
  }

  /** The calendar day before that of t, at hour zero. */
  function Yesterday(t: StatTime): StatTime {
    if t.day > 0 then StatTime(0, t.day - 1, t.month, t.year)
    else if t.month > 0 then StatTime(0, DaysIn(t.year, t.month - 1) - 1, t.month - 1, t.year)
    else StatTime(0, DaysIn(t.year - 1, 11) - 1, 11, t.year - 1)
  }

  predicate SameDay(a: StatTime, b: StatTime) {
    a.year == b.year && a.month == b.month && a.day == b.day
  }

  /** The roll-over test of the ledger is the calendar's: across a month boundary,
      `now` falls on the day after `t` exactly when it is a first day and `t` a last one. */
  lemma {:induction false} LastDayMeetsFirst(t: StatTime, now: StatTime)
    requires Valid(t) && Valid(now) && MonthIndex(now) == MonthIndex(t) + 1
    ensures now.day == 0 && IsLastDay(t) <==> SameDay(Yesterday(now), t)
  {
    assert t.day + 2 > DaysIn(t.year, t.month) ==> t.day + 2 == DaysIn(t.year, t.month) + 1;
    assert t.day + 2 <= DaysIn(t.year, t.month) ==> NormalisedDay(t.year, t.month, t.day + 2) == t.day + 2;
  }
}
