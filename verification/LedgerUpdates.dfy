/** What one update does to each bucket, whatever the ledger held before: also to one that is not exact,
    because a month has been skipped. */
module LedgerUpdates {
  import opened Calendar
  import opened Ledger
  import opened LedgerTotals

  ghost predicate Usable(d: Data, now: StatTime) { Valid(d.date) && Valid(now) && LessEq(d.date, now) }

  /** The hit goes to the hour of the update, and everything else is as it was, but for the fields of the
      lemma at hand. */
  ghost predicate HoursAdd(u: Data, before: seq<Inst>, now: StatTime, x: Inst) {
    |before| == 24 && 0 <= now.hour < 24
    && forall k :: 0 <= k < 24 ==> u.cur.hours[k] == if k == now.hour then Plus(before[k], x) else before[k]
  }

  ghost predicate AllZero(s: seq<Inst>) { forall k :: 0 <= k < |s| ==> s[k] == ZERO }

  /** The previous hours are those of the last day up to its last hour if that was yesterday, or nothing. */
  ghost predicate PreviousHours(d: Data, now: StatTime, hours: Hours) {
    forall k :: 0 <= k < 24 ==>
      hours[k] == if SameDay(Yesterday(now), d.date) && k <= d.date.hour then d.cur.hours[k] else ZERO
  }

  /** The first update of a new ledger. */
  lemma {:induction false} FirstUpdate(now: StatTime, x: Inst)
    requires Valid(now)
    ensures var u := Updated(EMPTY, now, x);
      && HoursAdd(u, EMPTY.cur.hours, now, x)
      && u == EMPTY.(date := now, cur := EMPTY.cur.(hours := u.cur.hours))
  {
  }

  /** On the same day the hours in between are cleared. */
  lemma {:induction false} SameDayUpdate(d: Data, now: StatTime, x: Inst)
    requires Usable(d, now) && SameDay(d.date, now)
    ensures var u := Updated(d, now, x);
      && (forall k :: 0 <= k < 24 ==>
           u.cur.hours[k] == if k == now.hour then Plus(d.cur.hours[k], x)
             else if d.date.hour < k < now.hour then ZERO else d.cur.hours[k])
      && u == d.(date := now, cur := d.cur.(hours := u.cur.hours))
  {
  }

  lemma {:induction false} YesterdayInMonth(t: StatTime, now: StatTime)
    requires Valid(t) && Valid(now) && t.year == now.year && t.month == now.month
    ensures SameDay(Yesterday(now), t) <==> now.day == t.day + 1
  {
  }

  /** In the same month the day gets its total, and the days in between are cleared. */
  lemma {:induction false} NextDayUpdate(d: Data, now: StatTime, x: Inst)
    requires Usable(d, now) && d.date.year == now.year && d.date.month == now.month && d.date.day != now.day
    ensures var u := Updated(d, now, x);
      && HoursAdd(u, Zeros(24), now, x)
      && (forall k :: 0 <= k < 31 ==>
           u.cur.days[k] == if k == d.date.day then SumTo(d.cur.hours, d.date.hour + 1)
             else if d.date.day < k < now.day then ZERO else d.cur.days[k])
      && PreviousHours(d, now, u.prev.hours)
      && u == d.(date := now, cur := History(u.cur.hours, u.cur.days, d.cur.months),
                 prev := d.prev.(hours := u.prev.hours))
  {
    YesterdayInMonth(d.date, now);
  }

  /** In the next month the month gets its total with the last day's hours; the days before are kept up to
      the last one. */
  lemma {:induction false} NextMonthUpdate(d: Data, now: StatTime, x: Inst)
    requires Usable(d, now) && d.date.year == now.year && now.month == d.date.month + 1
    ensures var u := Updated(d, now, x);
      && HoursAdd(u, Zeros(24), now, x) && AllZero(u.cur.days)
      && (forall k :: 0 <= k < 12 ==>
           u.cur.months[k] == if k == d.date.month then Plus(SumTo(d.cur.days, d.date.day), SumTo(d.cur.hours, d.date.hour + 1))
             else d.cur.months[k])
      && PreviousHours(d, now, u.prev.hours)
      && (forall k :: 0 <= k < 31 ==> u.prev.days[k] == if k <= d.date.day then d.cur.days[k] else ZERO)
      && u == d.(date := now, accesses := map[], cur := u.cur,
                 prev := History(u.prev.hours, u.prev.days, d.prev.months))
  {
    LastDayMeetsFirst(d.date, now);
  }

  /** After skipped months the last month gets the total of its closed days; its last day's hours stay where
      they are and stand for the new day; the month before has no days, and the hours of the day before are
      what they were. */
  lemma {:induction false} SkippedMonthUpdate(d: Data, now: StatTime, x: Inst)
    requires Usable(d, now) && d.date.year == now.year && now.month > d.date.month + 1
    ensures var u := Updated(d, now, x);
      && HoursAdd(u, d.cur.hours, now, x) && AllZero(u.cur.days)
      && (forall k :: 0 <= k < 12 ==>
           u.cur.months[k] == if k == d.date.month then SumTo(d.cur.days, d.date.day)
             else if d.date.month < k < now.month then ZERO else d.cur.months[k])
      && AllZero(u.prev.days)
      && u == d.(date := now, accesses := map[], cur := u.cur, prev := d.prev.(days := u.prev.days))
  {
  }

  /** From December to January everything is closed. */
  lemma {:induction false} NewYearUpdate(d: Data, now: StatTime, x: Inst)
    requires Usable(d, now) && d.date.month == 11 && now.year == d.date.year + 1 && now.month == 0
    ensures var u := Updated(d, now, x);
      && HoursAdd(u, Zeros(24), now, x) && AllZero(u.cur.days) && AllZero(u.cur.months)
      && u.years == d.years[d.date.year :=
           Plus(Plus(SumTo(d.cur.months, 11), SumTo(d.cur.days, d.date.day + 1)), SumTo(d.cur.hours, d.date.hour + 1))]
      && PreviousHours(d, now, u.prev.hours)
      && (forall k :: 0 <= k < 31 ==> u.prev.days[k] == if k <= d.date.day then d.cur.days[k] else ZERO)
      && u.prev.months == d.cur.months
      && u == d.(date := now, years := u.years, cur := u.cur, prev := u.prev)
  {
    LastDayMeetsFirst(d.date, now);
    assert Updated(d, now, x).prev.months == d.cur.months;
  }

  /** Into any other month of the next year the year gets its total without the last day's hours, which stay;
      there is no month before, and the hours of the day before are what they were. */
  lemma {:induction false} LaterInNextYearUpdate(d: Data, now: StatTime, x: Inst)
    requires Usable(d, now) && now.year == d.date.year + 1 && !(d.date.month == 11 && now.month == 0)
    ensures var u := Updated(d, now, x);
      && HoursAdd(u, d.cur.hours, now, x) && AllZero(u.cur.days) && AllZero(u.cur.months)
      && u.years == d.years[d.date.year := Plus(SumTo(d.cur.months, d.date.month), SumTo(d.cur.days, d.date.day + 1))]
      && AllZero(u.prev.days)
      && (forall k :: 0 <= k < 12 ==> u.prev.months[k] == if k <= d.date.month then d.cur.months[k] else ZERO)
      && u == d.(date := now, years := u.years, cur := u.cur,
                 prev := History(d.prev.hours, u.prev.days, u.prev.months))
  {
  }

  /** After a skipped year its total is that of the closed months; the days and hours stay, and there is no
      year before. */
  lemma {:induction false} SkippedYearUpdate(d: Data, now: StatTime, x: Inst)
    requires Usable(d, now) && now.year > d.date.year + 1
    ensures var u := Updated(d, now, x);
      && HoursAdd(u, d.cur.hours, now, x) && AllZero(u.cur.months) && AllZero(u.prev.months)
      && u.years == d.years[d.date.year := SumTo(d.cur.months, d.date.month)]
      && u == d.(date := now, years := u.years, cur := u.cur.(days := d.cur.days),
                 prev := d.prev.(months := u.prev.months))
  {
  }
}
