/** What the ledger loses: along every run, also one that skips months, its buckets together hold the log's
    total less the buckets that an update has overwritten or cleared without adding them up. */
module LedgerLosses {
  import opened Calendar
  import opened Ledger
  import opened LedgerExact
  import opened LedgerTotals

  function Minus(a: Inst, b: Inst): Inst { Inst(a.hits - b.hits, a.bytes - b.bytes) }

  /** The entries from lo up to, not including, hi, added up. */
  function Between(s: seq<Inst>, lo: int, hi: int): Inst
    requires 0 <= lo <= |s| && 0 <= hi <= |s|
  {
    if lo < hi then Minus(SumTo(s, hi), SumTo(s, lo)) else ZERO
  }

  /** The buckets that an update at `now` overwrites or clears and does not add to a longer period. */
  function Dropped(d: Data, now: StatTime): Inst
    requires InRange(d.date) && InRange(now)
  {
    var t, c := d.date, d.cur;
    if t.year == 0 then ZERO
    else if t.year != now.year then
      Plus(Between(c.months, t.month, |c.months|),
        if !NextYear(d, now) then ZERO
        else Plus(Between(c.days, t.day + 1, |c.days|),
                  if NextMonthOfNextYear(d, now) then Between(c.hours, t.hour + 1, |c.hours|) else ZERO))
    else if t.month != now.month then
      Plus(Plus(Between(c.months, t.month, now.month), Between(c.days, t.day, |c.days|)),
           if now.month == t.month + 1 then Between(c.hours, t.hour + 1, |c.hours|) else ZERO)
    else if t.day != now.day then
      Plus(Between(c.days, t.day, now.day), Between(c.hours, t.hour + 1, |c.hours|))
    else Between(c.hours, t.hour + 1, now.hour)
  }

  // ---- sums of changed buckets ----

  lemma {:induction false} SumOfZeros(s: seq<Inst>, n: nat)
    requires n <= |s| && forall i :: 0 <= i < n ==> s[i] == ZERO
    ensures SumTo(s, n) == ZERO
  {
    if n > 0 {
      SumOfZeros(s, n - 1);
    }
  }

  lemma {:induction false} SumOfSame(s: seq<Inst>, r: seq<Inst>, n: nat)
    requires n <= |s| && n <= |r| && forall i :: 0 <= i < n ==> s[i] == r[i]
    ensures SumTo(s, n) == SumTo(r, n)
  {
    if n > 0 {
      SumOfSame(s, r, n - 1);
    }
  }

  lemma {:induction false} SumOfUpdate(s: seq<Inst>, i: nat, x: Inst, n: nat)
    requires i < |s| && n <= |s|
    ensures SumTo(s[i := x], n) == if i < n then Plus(Minus(SumTo(s, n), s[i]), x) else SumTo(s, n)
  {
    if n > 0 {
      SumOfUpdate(s, i, x, n - 1);
    }
  }

  lemma {:induction false} SumOfCleared(s: seq<Inst>, lo: nat, hi: nat, n: nat)
    requires lo <= hi <= |s| && n <= |s|
    ensures SumTo(Cleared(s, lo, hi), n) == Minus(SumTo(s, n), Between(s, lo, if n < hi then n else hi))
  {
    if n > 0 {
      SumOfCleared(s, lo, hi, n - 1);
    }
  }

  lemma {:induction false} NothingLeft(s: seq<Inst>)
    requires forall i :: 0 <= i < |s| ==> s[i] == ZERO
    ensures All(s) == ZERO
  {
    SumOfZeros(s, |s|);
  }

  // ---- the closed years ----

  lemma {:induction false} PlusNothing(x: Inst)
    ensures Plus(x, ZERO) == x
  {
  }

  lemma {:induction false} NothingBeyond(s: seq<Inst>, k: nat, n: nat)
    requires k <= n <= |s| && forall i :: k <= i < n ==> s[i] == ZERO
    ensures SumTo(s, n) == SumTo(s, k)
  {
    if k < n {
      NothingBeyond(s, k, n - 1);
      PlusNothing(SumTo(s, n - 1));
    }
  }

  lemma {:induction false} YearClosed(years: map<int, Inst>, lo: int, year: int, hi: int, x: Inst)
    requires lo <= year < hi && forall y :: y in years ==> y < year
    ensures ClosedYears(years[year := x], lo, hi) == Plus(ClosedYears(years, lo, year), x)
  {
    var k := year - lo;
    var before, after := YearsFrom(years, lo, k), YearsFrom(years[year := x], lo, hi - lo);
    SumOfSame(before, after, k);
    NothingBeyond(after, k + 1, |after|);
    assert after[k] == x && SumTo(after, k + 1) == Plus(SumTo(after, k), x);
  }

  // ---- one update ----

  ghost predicate Closing(d: Data, now: StatTime, lo: int) {
    && InRange(d.date) && InRange(now) && LessEq(d.date, now) && d.date.year != 0
    && lo <= d.date.year && forall y :: y in d.years ==> y < d.date.year
  }

  lemma {:induction false} Rest(s: seq<Inst>, k: nat)
    requires k <= |s|
    ensures All(s) == Plus(SumTo(s, k), Between(s, k, |s|))
  {
    if k < |s| {
      PlusMinus(SumTo(s, k), SumTo(s, |s|));
    } else {
      PlusNothing(SumTo(s, k));
    }
  }

  lemma {:induction false} PlusMinus(a: Inst, b: Inst)
    ensures Plus(a, Minus(b, a)) == b
  {
  }

  // What is closed and what is dropped make up what the buckets held.
  lemma {:induction false} YearParts(d: Data, now: StatTime)
    requires InRange(d.date) && InRange(now) && d.date.year != 0 && d.date.year != now.year
    ensures Plus(YearTotal(d, now), Dropped(d, now)) ==
      Plus(All(d.cur.months),
        if !NextYear(d, now) then ZERO
        else Plus(All(d.cur.days), if NextMonthOfNextYear(d, now) then All(d.cur.hours) else ZERO))
  {
    Rest(d.cur.months, d.date.month);
    Rest(d.cur.days, d.date.day + 1);
    Rest(d.cur.hours, d.date.hour + 1);
  }

  lemma {:induction false} YearLeaves(d: Data, now: StatTime)
    requires InRange(d.date) && InRange(now) && d.date.year != now.year
    ensures var c := RollYear(d, now).cur;
      && All(c.months) == ZERO
      && All(c.days) == (if NextYear(d, now) then ZERO else All(d.cur.days))
      && All(c.hours) == (if NextMonthOfNextYear(d, now) then ZERO else All(d.cur.hours))
  {
    var c := RollYear(d, now).cur;
    NothingLeft(c.months);
    if NextYear(d, now) {
      NothingLeft(c.days);
    }
    if NextMonthOfNextYear(d, now) {
      NothingLeft(c.hours);
    }
  }

  lemma {:induction false} YearMoves(d: Data, now: StatTime)
    requires InRange(d.date) && InRange(now) && d.date.year != 0 && d.date.year != now.year
    ensures var c := RollYear(d, now).cur;
      && All(c.months) == ZERO
      && Plus(Plus(YearTotal(d, now), Dropped(d, now)), Plus(All(c.days), All(c.hours)))
        == Plus(Plus(All(d.cur.months), All(d.cur.days)), All(d.cur.hours))
  {
    YearParts(d, now);
    YearLeaves(d, now);
    var c := RollYear(d, now).cur;
    ThreeParts(Plus(YearTotal(d, now), Dropped(d, now)), All(d.cur.months), All(d.cur.days), All(d.cur.hours),
               All(c.days), All(c.hours), NextYear(d, now), NextMonthOfNextYear(d, now));
  }

  // What is not kept is closed or dropped.
  lemma {:induction false} ThreeParts(
      gone: Inst, months: Inst, days: Inst, hours: Inst, days': Inst, hours': Inst, noDays: bool, noHours: bool)
    requires noHours ==> noDays
    requires gone == Plus(months, if !noDays then ZERO else Plus(days, if noHours then hours else ZERO))
    requires days' == (if noDays then ZERO else days) && hours' == (if noHours then ZERO else hours)
    ensures Plus(gone, Plus(days', hours')) == Plus(Plus(months, days), hours)
  {
  }

  lemma {:induction false} YearDrops(d: Data, now: StatTime, lo: int)
    requires Closing(d, now, lo) && d.date.year != now.year
    ensures GrandTotal(RollYear(d, now).(date := now), lo) == Minus(GrandTotal(d, lo), Dropped(d, now))
  {
    YearClosed(d.years, lo, d.date.year, now.year, YearTotal(d, now));
    YearMoves(d, now);
    var r := RollYear(d, now).(date := now);
    YearBalance(ClosedYears(d.years, lo, d.date.year), All(d.cur.months), All(d.cur.days), All(d.cur.hours),
                All(r.cur.days), All(r.cur.hours), YearTotal(d, now), Dropped(d, now));
    assert GrandTotal(r, lo) == Plus(Plus(Plus(ClosedYears(d.years, lo, d.date.year), YearTotal(d, now)), ZERO),
                                     Plus(All(r.cur.days), All(r.cur.hours)));
  }

  // The days and hours are kept, or they are closed or dropped.
  lemma {:induction false} YearBalance(
      years: Inst, months: Inst, days: Inst, hours: Inst, days': Inst, hours': Inst, total: Inst, dropped: Inst)
    requires Plus(Plus(total, dropped), Plus(days', hours')) == Plus(Plus(months, days), hours)
    ensures Plus(Plus(Plus(years, total), ZERO), Plus(days', hours'))
      == Minus(Plus(Plus(years, months), Plus(days, hours)), dropped)
  {
  }

  lemma {:induction false} MonthParts(d: Data, now: StatTime)
    requires InRange(d.date) && InRange(now) && d.date.year == now.year != 0 && d.date.month < now.month
    ensures var next := now.month == d.date.month + 1;
      Plus(MonthTotal(d, next), Dropped(d, now)) ==
        Plus(Between(d.cur.months, d.date.month, now.month), Plus(All(d.cur.days), if next then All(d.cur.hours) else ZERO))
  {
    Rest(d.cur.days, d.date.day);
    Rest(d.cur.hours, d.date.hour + 1);
  }

  lemma {:induction false} MonthLeaves(d: Data, now: StatTime)
    requires InRange(d.date) && InRange(now) && d.date.month < now.month
    ensures var c, next := RollMonth(d, now).cur, now.month == d.date.month + 1;
      && All(c.months) == Plus(Minus(All(d.cur.months), Between(d.cur.months, d.date.month, now.month)), MonthTotal(d, next))
      && All(c.days) == ZERO
      && All(c.hours) == (if next then ZERO else All(d.cur.hours))
  {
    var c, next := RollMonth(d, now).cur, now.month == d.date.month + 1;
    CloseBucket(d.cur.months, d.date.month, now.month, MonthTotal(d, next));
    NothingLeft(c.days);
    if next {
      NothingLeft(c.hours);
    }
  }

  lemma {:induction false} MonthDrops(d: Data, now: StatTime, lo: int)
    requires Closing(d, now, lo) && d.date.year == now.year && d.date.month != now.month
    ensures GrandTotal(RollMonth(d, now).(date := now), lo) == Minus(GrandTotal(d, lo), Dropped(d, now))
  {
    MonthParts(d, now);
    MonthLeaves(d, now);
    var next, r := now.month == d.date.month + 1, RollMonth(d, now).(date := now);
    MonthBalance(ClosedYears(d.years, lo, now.year), All(d.cur.months), All(d.cur.days), All(d.cur.hours),
                 All(r.cur.months), All(r.cur.hours), MonthTotal(d, next), Dropped(d, now),
                 Between(d.cur.months, d.date.month, now.month));
    assert GrandTotal(r, lo)
      == Plus(Plus(ClosedYears(d.years, lo, now.year), All(r.cur.months)), Plus(ZERO, All(r.cur.hours)));
  }

  lemma {:induction false} MonthBalance(
      years: Inst, months: Inst, days: Inst, hours: Inst, months': Inst, hours': Inst, total: Inst, dropped: Inst,
      between: Inst)
    requires months' == Plus(Minus(months, between), total)
    requires Plus(Plus(total, dropped), hours') == Plus(Plus(between, days), hours)
    ensures Plus(Plus(years, months'), Plus(ZERO, hours'))
      == Minus(Plus(Plus(years, months), Plus(days, hours)), dropped)
  {
  }

  // A closed bucket takes its total, and those up to the present one are cleared.
  lemma {:induction false} CloseBucket(s: seq<Inst>, k: nat, now: nat, total: Inst)
    requires k < now < |s|
    ensures SumTo(Cleared(s[k := total], k + 1, now), |s|) == Plus(Minus(SumTo(s, |s|), Between(s, k, now)), total)
  {
    var r := s[k := total];
    SumOfCleared(r, k + 1, now, |s|);
    SumOfUpdate(s, k, total, |s|);
    SumOfUpdate(s, k, total, now);
    SumOfUpdate(s, k, total, k + 1);
  }

  lemma {:induction false} DayDrops(d: Data, now: StatTime, lo: int)
    requires Closing(d, now, lo)
    requires d.date.year == now.year && d.date.month == now.month && d.date.day != now.day
    ensures GrandTotal(RollDay(d, now).(date := now), lo) == Minus(GrandTotal(d, lo), Dropped(d, now))
  {
    var r := RollDay(d, now).(date := now);
    CloseBucket(d.cur.days, d.date.day, now.day, SumTo(d.cur.hours, d.date.hour + 1));
    NothingLeft(r.cur.hours);
  }

  lemma {:induction false} HourDrops(d: Data, now: StatTime, lo: int)
    requires Closing(d, now, lo)
    requires d.date.year == now.year && d.date.month == now.month && d.date.day == now.day
    ensures GrandTotal(Rolled(d, now).(date := now), lo) == Minus(GrandTotal(d, lo), Dropped(d, now))
  {
    var r := Rolled(d, now).(date := now);
    if d.date.hour != now.hour {
      SumOfCleared(d.cur.hours, d.date.hour + 1, now.hour, |d.cur.hours|);
    }
  }

  /** An update adds its hits to the grand total and takes off what it drops. */
  lemma {:induction false} UpdateDrops(d: Data, now: StatTime, x: Inst, lo: int)
    requires Closing(d, now, lo)
    ensures GrandTotal(Updated(d, now, x), lo) == Plus(Minus(GrandTotal(d, lo), Dropped(d, now)), x)
  {
    if d.date.year != now.year {
      YearDrops(d, now, lo);
    } else if d.date.month != now.month {
      MonthDrops(d, now, lo);
    } else if d.date.day != now.day {
      DayDrops(d, now, lo);
    } else {
      HourDrops(d, now, lo);
    }
    AddHits(Rolled(d, now).(date := now), now, x, Updated(d, now, x), lo);
  }

  lemma {:induction false} AddHits(r: Data, now: StatTime, x: Inst, e: Data, lo: int)
    requires InRange(now) && r.date == now && lo <= now.year
    requires e == r.(cur := r.cur.(hours := r.cur.hours[now.hour := Plus(r.cur.hours[now.hour], x)]))
    ensures GrandTotal(e, lo) == Plus(GrandTotal(r, lo), x)
  {
    SumOfUpdate(r.cur.hours, now.hour, Plus(r.cur.hours[now.hour], x), |r.cur.hours|);
  }

  // ---- whole runs ----

  /** What the ledger holds after each number of events. */
  ghost function Held(log: seq<Event>): seq<Inst>
    requires ValidLog(log) && log != []
  {
    seq(|log| + 1, k requires 0 <= k <= |log| => GrandTotal(Run(log, k), log[0].t.year))
  }

  /** What the update at each event drops. */
  ghost function Drops(log: seq<Event>): seq<Inst>
    requires ValidLog(log)
  {
    seq(|log|, k requires 0 <= k < |log| => Dropped(Run(log, k), log[k].t))
  }

  function Logged(log: seq<Event>): seq<Inst> {
    seq(|log|, k requires 0 <= k < |log| => log[k].x)
  }

  lemma {:induction false} TotalIsSum(log: seq<Event>, logged: seq<Inst>, n: nat)
    requires logged == Logged(log) && n <= |log|
    ensures Total(log, n, Ever) == SumTo(logged, n)
  {
    if n > 0 {
      TotalIsSum(log, logged, n - 1);
    }
  }

  lemma {:induction false} RunIsClosing(log: seq<Event>, n: nat)
    requires ValidLog(log) && 0 < n <= |log|
    ensures forall y :: y in Run(log, n).years ==> y < Run(log, n).date.year
    ensures n < |log| ==> Closing(Run(log, n), log[n].t, log[0].t.year)
  {
    assert Run(log, n).date == log[n - 1].t && LessEq(log[0].t, log[n - 1].t);
    if n > 1 {
      RunIsClosing(log, n - 1);
      assert LessEq(log[n - 2].t, log[n - 1].t);
    }
    if n < |log| {
      assert LessEq(log[n - 1].t, log[n].t);
    }
  }

  lemma {:induction false} NothingDropped(d: Data, now: StatTime)
    requires InRange(d.date) && InRange(now) && d.date.year == 0
    ensures Dropped(d, now) == ZERO
  {
  }

  lemma {:induction false} NothingHeld(d: Data, lo: int)
    requires d.years == map[] && d.date.year <= lo && forall i :: 0 <= i < 12 ==> d.cur.months[i] == ZERO
    requires forall i :: 0 <= i < 31 ==> d.cur.days[i] == ZERO
    requires forall i :: 0 <= i < 24 ==> d.cur.hours[i] == ZERO
    ensures GrandTotal(d, lo) == ZERO
  {
    NothingLeft(d.cur.months);
    NothingLeft(d.cur.days);
    NothingLeft(d.cur.hours);
  }

  predicate Empty(d: Data) {
    && d.date.year == 0 && d.years == map[]
    && (forall i :: 0 <= i < 12 ==> d.cur.months[i] == ZERO)
    && (forall i :: 0 <= i < 31 ==> d.cur.days[i] == ZERO)
    && (forall i :: 0 <= i < 24 ==> d.cur.hours[i] == ZERO)
  }

  lemma {:induction false} FirstUpdate(d: Data, t: StatTime, x: Inst)
    requires Empty(d) && InRange(d.date) && InRange(t)
    ensures GrandTotal(Updated(d, t, x), t.year) == Plus(ZERO, x)
  {
    NothingHeld(d.(date := t), t.year);
    AddHits(d.(date := t), t, x, Updated(d, t, x), t.year);
  }

  lemma {:induction false} FirstTotal(log: seq<Event>, n: nat)
    requires ValidLog(log) && n == 1 <= |log|
    ensures GrandTotal(Run(log, n), log[0].t.year) == Plus(ZERO, log[0].x)
  {
    assert Empty(EMPTY);
    FirstUpdate(Run(log, n - 1), log[n - 1].t, log[n - 1].x);
  }

  lemma {:induction false} RunDrops(log: seq<Event>, n: nat, d: Data, e: Data)
    requires ValidLog(log) && 1 < n <= |log| && d == Run(log, n - 1) && e == Run(log, n)
    ensures GrandTotal(e, log[0].t.year)
      == Plus(Minus(GrandTotal(d, log[0].t.year), Dropped(d, log[n - 1].t)), log[n - 1].x)
  {
    RunIsClosing(log, n - 1);
    UpdateDrops(d, log[n - 1].t, log[n - 1].x, log[0].t.year);
  }

  // The ledger goes on by what is logged and what is dropped.
  predicate GoesOn(held: seq<Inst>, drops: seq<Inst>, logged: seq<Inst>, k: nat) {
    && 0 < k <= |drops| == |logged| < |held|
    && held[k] == Plus(Minus(held[k - 1], drops[k - 1]), logged[k - 1])
  }

  lemma {:induction false} HeldNext(log: seq<Event>, held: seq<Inst>, drops: seq<Inst>, logged: seq<Inst>, n: nat)
    requires ValidLog(log) && 1 < n <= |log| && held == Held(log) && drops == Drops(log) && logged == Logged(log)
    ensures GoesOn(held, drops, logged, n)
  {
    RunDrops(log, n, Run(log, n - 1), Run(log, n));
  }

  lemma {:induction false} HeldFirst(log: seq<Event>, held: seq<Inst>, drops: seq<Inst>, logged: seq<Inst>, n: nat)
    requires ValidLog(log) && n == 1 <= |log| && held == Held(log) && drops == Drops(log) && logged == Logged(log)
    ensures held[0] == ZERO && GoesOn(held, drops, logged, n)
  {
    FirstTotal(log, n);
    NothingDropped(EMPTY, log[0].t);
    assert Run(log, n - 1) == EMPTY;
    NothingHeld(EMPTY, log[0].t.year);
  }

  lemma {:induction false} Telescope(held: seq<Inst>, drops: seq<Inst>, logged: seq<Inst>, n: nat)
    requires n <= |drops| == |logged| < |held| && held[0] == ZERO
    requires forall k :: 0 < k <= n ==> GoesOn(held, drops, logged, k)
    ensures held[n] == Minus(SumTo(logged, n), SumTo(drops, n))
  {
    if n > 0 {
      Telescope(held, drops, logged, n - 1);
      assert GoesOn(held, drops, logged, n);
      Sums(held[n - 1], SumTo(logged, n - 1), SumTo(drops, n - 1), drops[n - 1], logged[n - 1]);
    }
  }

  /** Conservation with its losses: after every run the buckets together hold the log's total less what the
      updates have dropped. */
  lemma {:induction false} GrandTotalIsLogLessDrops(log: seq<Event>, n: nat)
    requires ValidLog(log) && 0 < n <= |log|
    ensures Held(log)[n] == Minus(Total(log, n, Ever), SumTo(Drops(log), n))
  {
    var held, drops, logged := Held(log), Drops(log), Logged(log);
    HeldFirst(log, held, drops, logged, 1);
    forall k | 0 < k <= n
      ensures GoesOn(held, drops, logged, k)
    {
      if k > 1 {
        HeldNext(log, held, drops, logged, k);
      }
    }
    Telescope(held, drops, logged, n);
    TotalIsSum(log, logged, n);
  }

  lemma {:induction false} Sums(before: Inst, total: Inst, losses: Inst, dropped: Inst, x: Inst)
    requires before == Minus(total, losses)
    ensures Plus(Minus(before, dropped), x) == Minus(Plus(total, x), Plus(losses, dropped))
  {
  }

  // ---- nothing is counted twice ----

  ghost predicate NotNegative(s: seq<Inst>) { forall i :: 0 <= i < |s| ==> s[i].hits >= 0 }

  ghost predicate HistoryNotNegative(h: History) {
    NotNegative(h.hours) && NotNegative(h.days) && NotNegative(h.months)
  }

  lemma {:induction false} SumNotNegative(s: seq<Inst>, lo: nat, hi: nat)
    requires NotNegative(s) && lo <= hi <= |s|
    ensures 0 <= SumTo(s, lo).hits <= SumTo(s, hi).hits
  {
    if lo < hi {
      SumNotNegative(s, lo, hi - 1);
    } else if lo > 0 {
      SumNotNegative(s, lo - 1, lo - 1);
    }
  }

  lemma {:induction false} BetweenNotNegative(s: seq<Inst>, lo: nat, hi: nat)
    requires NotNegative(s) && lo <= |s| && hi <= |s|
    ensures Between(s, lo, hi).hits >= 0
  {
    if lo < hi {
      SumNotNegative(s, lo, hi);
    }
  }

  lemma {:induction false} DroppedNotNegative(d: Data, now: StatTime)
    requires InRange(d.date) && InRange(now) && HistoryNotNegative(d.cur)
    ensures Dropped(d, now).hits >= 0
  {
    var t, c := d.date, d.cur;
    BetweenNotNegative(c.months, t.month, |c.months|);
    BetweenNotNegative(c.months, t.month, now.month);
    BetweenNotNegative(c.days, t.day + 1, |c.days|);
    BetweenNotNegative(c.days, t.day, |c.days|);
    BetweenNotNegative(c.days, t.day, now.day);
    BetweenNotNegative(c.hours, t.hour + 1, |c.hours|);
    BetweenNotNegative(c.hours, t.hour + 1, now.hour);
  }

  lemma {:induction false} RolledNotNegative(d: Data, now: StatTime)
    requires InRange(d.date) && InRange(now) && HistoryNotNegative(d.cur)
    ensures HistoryNotNegative(Rolled(d, now).cur)
  {
    SumNotNegative(d.cur.hours, d.date.hour + 1, d.date.hour + 1);
    SumNotNegative(d.cur.days, d.date.day, d.date.day);
  }

  lemma {:induction false} RunNotNegative(log: seq<Event>, n: nat)
    requires ValidLog(log) && n <= |log|
    ensures HistoryNotNegative(Run(log, n).cur)
  {
    if n > 0 {
      RunNotNegative(log, n - 1);
      RolledNotNegative(Run(log, n - 1), log[n - 1].t);
    }
  }

  lemma {:induction false} DropsNotNegative(log: seq<Event>)
    requires ValidLog(log)
    ensures NotNegative(Drops(log))
  {
    forall k | 0 <= k < |log|
      ensures Drops(log)[k].hits >= 0
    {
      RunNotNegative(log, k);
      DroppedNotNegative(Run(log, k), log[k].t);
    }
  }

  lemma {:induction false} SumIsZeroExactly(s: seq<Inst>, n: nat)
    requires NotNegative(s) && n <= |s|
    ensures SumTo(s, n).hits >= 0
    ensures SumTo(s, n).hits == 0 <==> forall k :: 0 <= k < n ==> s[k].hits == 0
  {
    if n > 0 {
      SumIsZeroExactly(s, n - 1);
    }
  }

  /** No run counts a hit twice, and all hits are still there exactly if no update has dropped one. */
  lemma {:induction false} HitsConservedExactly(log: seq<Event>, n: nat)
    requires ValidLog(log) && 0 < n <= |log|
    ensures Held(log)[n].hits <= Total(log, n, Ever).hits
    ensures Held(log)[n].hits == Total(log, n, Ever).hits <==> forall k :: 0 <= k < n ==> Drops(log)[k].hits == 0
  {
    GrandTotalIsLogLessDrops(log, n);
    DropsNotNegative(log);
    SumIsZeroExactly(Drops(log), n);
  }

  /** A run that skips no month drops none. */
  lemma {:induction false} ContiguousRunDropsNoHits(log: seq<Event>)
    requires ValidLog(log) && NoMonthSkipped(log)
    ensures forall k :: 0 <= k < |log| ==> Drops(log)[k].hits == 0
  {
    if log != [] {
      GrandTotalConserved(log, |log|);
      HitsConservedExactly(log, |log|);
    }
  }
}
