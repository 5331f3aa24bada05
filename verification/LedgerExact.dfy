/** The ledger refines "filter the timestamped event log by period and sum it up". */
module LedgerExact {
  import opened Calendar
  import opened Ledger

  datatype Event = Event(t: StatTime, x: Inst)

  datatype Period =
    | Hour(year: int, month: int, day: int, hour: int)
    | Day(year: int, month: int, day: int)
    | Month(year: int, month: int)
    | Year(year: int)
    | Ever

  predicate In(t: StatTime, p: Period) {
    match p
    case Hour(y, m, d, h) => t.year == y && t.month == m && t.day == d && t.hour == h
    case Day(y, m, d) => t.year == y && t.month == m && t.day == d
    case Month(y, m) => t.year == y && t.month == m
    case Year(y) => t.year == y
    case Ever => true
  }

  /** The specification: add up those of the first n events that fall in p. */
  ghost function Total(log: seq<Event>, n: nat, p: Period): Inst
    requires n <= |log|
  {
    if n == 0 then ZERO
    else
      var r, g := Total(log, n - 1, p), Gain(log[n - 1], p);
      Inst(r.hits + g.hits, r.bytes + g.bytes)
  }

  // x when b holds, otherwise nothing.
  function When(b: bool, x: Inst): Inst {
    Inst(if b then x.hits else 0, if b then x.bytes else 0)
  }

  function Gain(e: Event, p: Period): Inst {
    When(In(e.t, p), e.x)
  }

  /** Real time points in order; every event counts at least one hit. */
  ghost predicate ValidLog(log: seq<Event>) {
    && (forall i :: 0 <= i < |log| ==> Valid(log[i].t) && log[i].x.hits > 0)
    && (forall i, j :: 0 <= i <= j < |log| ==> LessEq(log[i].t, log[j].t))
  }

  /** No calendar month passes without an event between two consecutive ones. */
  ghost predicate NoMonthSkipped(log: seq<Event>) {
    forall i :: 0 < i < |log| ==> MonthIndex(log[i].t) <= MonthIndex(log[i - 1].t) + 1
  }

  /** The ledger after the first n events. */
  ghost function Run(log: seq<Event>, n: nat): (d: Data)
    requires ValidLog(log) && n <= |log|
    ensures InRange(d.date)
    ensures if n == 0 then d == EMPTY else d.date == log[n - 1].t
  {
    if n == 0 then EMPTY else Updated(Run(log, n - 1), log[n - 1].t, log[n - 1].x)
  }

  /** The day of the last event in the month with the given index; -1 when it has none. */
  ghost function LastActiveDay(log: seq<Event>, n: nat, monthIndex: int): int
    requires n <= |log|
  {
    if n == 0 then -1
    else if MonthIndex(log[n - 1].t) == monthIndex then log[n - 1].t.day
    else LastActiveDay(log, n - 1, monthIndex)
  }

  function MonthBefore(t: StatTime): Period {
    if t.month > 0 then Month(t.year, t.month - 1) else Month(t.year - 1, 11)
  }

  function Part(p: Period, k: int): Period
    requires p.Day? || p.Month? || p.Year?
  {
    match p
    case Day(y, m, d) => Hour(y, m, d, k)
    case Month(y, m) => Day(y, m, k)
    case Year(y) => Month(y, k)
  }

  function PartIndex(t: StatTime, p: Period): int
    requires p.Day? || p.Month? || p.Year?
  {
    match p
    case Day(_, _, _) => t.hour
    case Month(_, _) => t.day
    case Year(_) => t.month
  }

  function DayOf(t: StatTime): Period { Day(t.year, t.month, t.day) }
  function MonthOf(t: StatTime): Period { Month(t.year, t.month) }
  function YearOf(t: StatTime): Period { Year(t.year) }

  /** Entry k of s is the total of the k-th part of p for all k below `closed`, and zero beyond. */
  ghost predicate Holds(s: seq<Inst>, closed: int, log: seq<Event>, n: nat, p: Period)
    requires n <= |log|
    requires p.Day? || p.Month? || p.Year?
  {
    forall k :: 0 <= k < |s| ==> s[k] == if k < closed then Total(log, n, Part(p, k)) else ZERO
  }

  /** The buckets of the current day, month and year are the log's sums. */
  ghost predicate CurrentExact(d: Data, log: seq<Event>, n: nat)
    requires 0 < n <= |log|
  {
    var t := log[n - 1].t;
    && d.date == t
    && Holds(d.cur.hours, t.hour + 1, log, n, DayOf(t))
    && Holds(d.cur.days, t.day, log, n, MonthOf(t))
    && Holds(d.cur.months, t.month, log, n, YearOf(t))
    && (forall y :: y in d.years <==> log[0].t.year <= y < t.year)
    && (forall y :: y in d.years ==> d.years[y] == Total(log, n, Year(y)))
  }

  /** Prev.Hours is calendar yesterday; Prev.Days is the month before, without its last
      active day; Prev.Months is the year before, without December. */
  ghost predicate PreviousExact(d: Data, log: seq<Event>, n: nat)
    requires 0 < n <= |log|
  {
    var t := log[n - 1].t;
    && Holds(d.prev.hours, 24, log, n, DayOf(Yesterday(t)))
    && Holds(d.prev.days, LastActiveDay(log, n, MonthIndex(t) - 1), log, n, MonthBefore(t))
    && Holds(d.prev.months, 11, log, n, Year(t.year - 1))
  }

  ghost predicate Exact(d: Data, log: seq<Event>, n: nat)
    requires n <= |log|
  {
    if n == 0 then d == EMPTY else CurrentExact(d, log, n) && PreviousExact(d, log, n)
  }

  ghost predicate AlwaysExact(log: seq<Event>)
    requires ValidLog(log)
  {
    forall n: nat :: n <= |log| ==> Exact(Run(log, n), log, n)
  }

  // ---- Facts about Total ----

  lemma {:induction false} TotalNone(log: seq<Event>, n: nat, p: Period)
    requires n <= |log|
    requires forall i :: 0 <= i < n ==> !In(log[i].t, p)
    ensures Total(log, n, p) == ZERO
  {
    if n > 0 {
      TotalNone(log, n - 1, p);
    }
  }

  lemma {:induction false} TotalCounts(log: seq<Event>, n: nat, p: Period)
    requires ValidLog(log) && n <= |log|
    ensures Total(log, n, p).hits >= 0
    ensures n > 0 && In(log[n - 1].t, p) ==> Total(log, n, p).hits > 0
  {
    if n > 0 {
      TotalCounts(log, n - 1, p);
    }
  }

  ghost function SumParts(log: seq<Event>, n: nat, p: Period, k: nat): Inst
    requires n <= |log|
    requires p.Day? || p.Month? || p.Year?
  {
    if k == 0 then ZERO
    else
      var r, g := SumParts(log, n, p, k - 1), Total(log, n, Part(p, k - 1));
      Inst(r.hits + g.hits, r.bytes + g.bytes)
  }

  lemma {:induction false} InPart(t: StatTime, p: Period, k: int)
    requires p.Day? || p.Month? || p.Year?
    ensures In(t, Part(p, k)) <==> In(t, p) && PartIndex(t, p) == k
  {
    match p
    case Day(_, _, _) =>
    case Month(_, _) =>
    case Year(_) =>
  }

  lemma {:induction false} SumPartsStep(log: seq<Event>, n: nat, p: Period, k: nat)
    requires 0 < n <= |log|
    requires p.Day? || p.Month? || p.Year?
    requires PartIndex(log[n - 1].t, p) >= 0
    ensures var now, was := SumParts(log, n, p, k), SumParts(log, n - 1, p, k);
            var g := When(In(log[n - 1].t, p) && PartIndex(log[n - 1].t, p) < k, log[n - 1].x);
            now.hits == was.hits + g.hits && now.bytes == was.bytes + g.bytes
  {
    if k > 0 {
      SumPartsStep(log, n, p, k - 1);
      InPart(log[n - 1].t, p, k - 1);
    }
  }

  lemma {:induction false} SumPartsNone(log: seq<Event>, p: Period, k: nat)
    requires p.Day? || p.Month? || p.Year?
    ensures SumParts(log, 0, p, k) == ZERO
  {
    if k > 0 {
      SumPartsNone(log, p, k - 1);
    }
  }

  /** A period is the sum of its first k parts once none of its events lies beyond them. */
  lemma {:induction false} PeriodIsSumOfParts(log: seq<Event>, n: nat, p: Period, k: nat)
    requires n <= |log|
    requires p.Day? || p.Month? || p.Year?
    requires forall i :: 0 <= i < n ==> Valid(log[i].t)
    requires forall i :: 0 <= i < n && In(log[i].t, p) ==> PartIndex(log[i].t, p) < k
    ensures SumParts(log, n, p, k) == Total(log, n, p)
  {
    if n == 0 {
      SumPartsNone(log, p, k);
    } else {
      PeriodIsSumOfParts(log, n - 1, p, k);
      SumPartsStep(log, n, p, k);
    }
  }

  lemma {:induction false} SumToParts(s: seq<Inst>, closed: int, log: seq<Event>, n: nat, p: Period, k: nat)
    requires n <= |log|
    requires p.Day? || p.Month? || p.Year?
    requires Holds(s, closed, log, n, p)
    requires k <= closed && k <= |s|
    ensures SumTo(s, k) == SumParts(log, n, p, k)
  {
    if k > 0 {
      SumToParts(s, closed, log, n, p, k - 1);
    }
  }

  // ---- What closing a day, a month and a year stores ----

  lemma {:induction false} OpenDayTotal(d: Data, log: seq<Event>, n: nat)
    requires ValidLog(log) && 0 < n <= |log| && CurrentExact(d, log, n)
    ensures SumTo(d.cur.hours, d.date.hour + 1) == Total(log, n, DayOf(d.date))
  {
    var t := log[n - 1].t;
    SumToParts(d.cur.hours, t.hour + 1, log, n, DayOf(t), t.hour + 1);
    forall i | 0 <= i < n && In(log[i].t, DayOf(t)) ensures log[i].t.hour < t.hour + 1 {
      assert LessEq(log[i].t, log[n - 1].t);
    }
    PeriodIsSumOfParts(log, n, DayOf(t), t.hour + 1);
  }

  lemma {:induction false} OpenMonthTotal(d: Data, log: seq<Event>, n: nat)
    requires ValidLog(log) && 0 < n <= |log| && CurrentExact(d, log, n)
    ensures OpenMonth(d) == Total(log, n, MonthOf(d.date))
  {
    var t := log[n - 1].t;
    OpenDayTotal(d, log, n);
    SumToParts(d.cur.days, t.day, log, n, MonthOf(t), t.day);
    forall i | 0 <= i < n && In(log[i].t, MonthOf(t)) ensures log[i].t.day < t.day + 1 {
      assert LessEq(log[i].t, log[n - 1].t);
    }
    PeriodIsSumOfParts(log, n, MonthOf(t), t.day + 1);
  }

  lemma {:induction false} OpenYearTotal(d: Data, log: seq<Event>, n: nat)
    requires ValidLog(log) && 0 < n <= |log| && CurrentExact(d, log, n)
    ensures OpenYear(d) == Total(log, n, YearOf(d.date))
  {
    var t := log[n - 1].t;
    OpenMonthTotal(d, log, n);
    SumToParts(d.cur.months, t.month, log, n, YearOf(t), t.month);
    forall i | 0 <= i < n && In(log[i].t, YearOf(t)) ensures log[i].t.month < t.month + 1 {
      assert LessEq(log[i].t, log[n - 1].t);
    }
    PeriodIsSumOfParts(log, n, YearOf(t), t.month + 1);
  }

  // ---- One update ----

  // p lies after the time point t.
  predicate After(t: StatTime, p: Period) {
    match p
    case Hour(y, m, d, h) => !LessEq(StatTime(h, d, m, y), t)
    case Day(y, m, d) => !LessEq(StatTime(0, d, m, y), t.(hour := 0))
    case Month(y, m) => y > t.year || (y == t.year && m > t.month)
    case Year(y) => y > t.year
    case Ever => false
  }

  lemma {:induction false} NothingAfter(log: seq<Event>, n: nat, p: Period)
    requires ValidLog(log) && n <= |log|
    requires n > 0 ==> After(log[n - 1].t, p)
    ensures Total(log, n, p) == ZERO
  {
    forall i | 0 <= i < n ensures !In(log[i].t, p) {
      assert LessEq(log[i].t, log[n - 1].t);
    }
    TotalNone(log, n, p);
  }

  /** The rolled ledger before the event at `now` is added: exact with respect to `now`. */
  ghost predicate Ready(r: Data, log: seq<Event>, n: nat)
    requires n < |log|
  {
    var now := log[n].t;
    && Holds(r.cur.hours, now.hour + 1, log, n, DayOf(now))
    && Holds(r.cur.days, now.day, log, n, MonthOf(now))
    && Holds(r.cur.months, now.month, log, n, YearOf(now))
    && (forall y :: y in r.years <==> log[0].t.year <= y < now.year)
    && (forall y :: y in r.years ==> r.years[y] == Total(log, n, Year(y)))
    && Holds(r.prev.hours, 24, log, n, DayOf(Yesterday(now)))
    && Holds(r.prev.days, LastActiveDay(log, n, MonthIndex(now) - 1), log, n, MonthBefore(now))
    && Holds(r.prev.months, 11, log, n, Year(now.year - 1))
  }

  lemma {:induction false} AddEvent(d: Data, log: seq<Event>, n: nat)
    requires ValidLog(log) && n < |log| && InRange(d.date)
    requires Ready(Rolled(d, log[n].t), log, n)
    ensures Exact(Updated(d, log[n].t, log[n].x), log, n + 1)
  {
    var now := log[n].t;
    var r := Updated(d, now, log[n].x);
    assert forall k :: In(now, Part(DayOf(now), k)) <==> k == now.hour;
    assert Holds(r.cur.hours, now.hour + 1, log, n + 1, DayOf(now));
  }

  lemma {:induction false} FirstEvent(log: seq<Event>)
    requires ValidLog(log) && log != []
    ensures Ready(Rolled(EMPTY, log[0].t), log, 0)
  {
  }

  // The history of the days and months before does not depend on the hour.
  lemma {:induction false} SameDayReady(d: Data, log: seq<Event>, n: nat)
    requires ValidLog(log) && 0 < n < |log|
    requires Exact(d, log, n) && SameDay(log[n - 1].t, log[n].t)
    ensures Ready(Rolled(d, log[n].t), log, n)
  {
    var t, now := log[n - 1].t, log[n].t;
    assert LessEq(t, now);
    forall k | t.hour < k <= now.hour ensures Total(log, n, Part(DayOf(now), k)) == ZERO {
      NothingAfter(log, n, Part(DayOf(now), k));
    }
  }

  // A day without events before it in its period sums to nothing, in every part.
  lemma {:induction false} FreshParts(log: seq<Event>, n: nat, p: Period, closed: int)
    requires ValidLog(log) && 0 < n <= |log|
    requires p.Day? || p.Month? || p.Year?
    requires forall k :: 0 <= k < closed ==> After(log[n - 1].t, Part(p, k))
    ensures forall k :: 0 <= k < closed ==> Total(log, n, Part(p, k)) == ZERO
  {
    forall k | 0 <= k < closed ensures Total(log, n, Part(p, k)) == ZERO {
      NothingAfter(log, n, Part(p, k));
    }
  }

  // Yesterday's hours, right after the roll-over from t to a later day.
  lemma {:induction false} YesterdayReady(d: Data, log: seq<Event>, n: nat)
    requires ValidLog(log) && 0 < n < |log|
    requires CurrentExact(d, log, n) && !SameDay(log[n - 1].t, log[n].t)
    ensures var t, now := log[n - 1].t, log[n].t;
      Holds(RollHours(d, SameDay(Yesterday(now), t)), 24, log, n, DayOf(Yesterday(now)))
  {
    var t, now := log[n - 1].t, log[n].t;
    var y := Yesterday(now);
    assert LessEq(t, now);
    if SameDay(y, t) {
      assert DayOf(y) == DayOf(t);
      forall k | t.hour < k < 24 ensures Total(log, n, Part(DayOf(t), k)) == ZERO {
        NothingAfter(log, n, Part(DayOf(t), k));
      }
    } else {
      FreshParts(log, n, DayOf(y), 24);
    }
  }

  lemma {:induction false} NextDayReady(d: Data, log: seq<Event>, n: nat)
    requires ValidLog(log) && 0 < n < |log|
    requires Exact(d, log, n)
    requires MonthIndex(log[n - 1].t) == MonthIndex(log[n].t) && !SameDay(log[n - 1].t, log[n].t)
    ensures Ready(Rolled(d, log[n].t), log, n)
  {
    var t, now := log[n - 1].t, log[n].t;
    assert LessEq(t, now);
    OpenDayTotal(d, log, n);
    YesterdayReady(d, log, n);
    FreshParts(log, n, DayOf(now), now.hour + 1);
    forall k | t.day < k < now.day ensures Total(log, n, Part(MonthOf(now), k)) == ZERO {
      NothingAfter(log, n, Part(MonthOf(now), k));
    }
  }

  lemma {:induction false} ClosedMonthReady(d: Data, log: seq<Event>, n: nat)
    requires ValidLog(log) && 0 < n < |log|
    requires CurrentExact(d, log, n)
    requires MonthIndex(log[n].t) == MonthIndex(log[n - 1].t) + 1
    ensures var t, now := log[n - 1].t, log[n].t;
      && Holds(RollHours(d, now.day == 0 && IsLastDay(t)), 24, log, n, DayOf(Yesterday(now)))
      && Holds(Cleared(d.cur.days, t.day + 1, 31), LastActiveDay(log, n, MonthIndex(now) - 1), log, n, MonthBefore(now))
      && Holds(Zeros(24), now.hour + 1, log, n, DayOf(now))
      && Holds(Zeros(31), now.day, log, n, MonthOf(now))
  {
    var t, now := log[n - 1].t, log[n].t;
    YesterdayReady(d, log, n);
    LastDayMeetsFirst(t, now);
    FreshParts(log, n, DayOf(now), now.hour + 1);
    FreshParts(log, n, MonthOf(now), now.day);
    assert MonthBefore(now) == MonthOf(t);
    assert LastActiveDay(log, n, MonthIndex(now) - 1) == t.day;
  }

  lemma {:induction false} MonthsReady(d: Data, log: seq<Event>, n: nat)
    requires ValidLog(log) && 0 < n < |log|
    requires CurrentExact(d, log, n)
    requires MonthIndex(log[n].t) == MonthIndex(log[n - 1].t) + 1 && log[n].t.month > 0
    ensures var now := log[n].t;
      Holds(Cleared(d.cur.months[d.date.month := OpenMonth(d)], d.date.month + 1, now.month), now.month, log, n, YearOf(now))
  {
    OpenMonthTotal(d, log, n);
  }

  lemma {:induction false} NextMonthReady(d: Data, log: seq<Event>, n: nat)
    requires ValidLog(log) && 0 < n < |log|
    requires Exact(d, log, n)
    requires MonthIndex(log[n].t) == MonthIndex(log[n - 1].t) + 1 && log[n].t.month > 0
    ensures Ready(Rolled(d, log[n].t), log, n)
  {
    ClosedMonthReady(d, log, n);
    MonthsReady(d, log, n);
  }

  lemma {:induction false} NextYearReady(d: Data, log: seq<Event>, n: nat)
    requires ValidLog(log) && 0 < n < |log|
    requires Exact(d, log, n)
    requires MonthIndex(log[n].t) == MonthIndex(log[n - 1].t) + 1 && log[n].t.month == 0
    ensures Ready(Rolled(d, log[n].t), log, n)
  {
    var t, now := log[n - 1].t, log[n].t;
    ClosedMonthReady(d, log, n);
    OpenYearTotal(d, log, n);
    assert LessEq(log[0].t, t);
    FreshParts(log, n, YearOf(now), now.month);
  }

  /** The whole ledger stays exact across an update that does not skip a month ... */
  lemma {:induction false} StepExact(d: Data, log: seq<Event>, n: nat)
    requires ValidLog(log) && n < |log| && Exact(d, log, n)
    requires n > 0 ==> MonthIndex(log[n].t) <= MonthIndex(log[n - 1].t) + 1
    ensures Exact(Updated(d, log[n].t, log[n].x), log, n + 1)
  {
    if n == 0 {
      FirstEvent(log);
    } else {
      var t, now := log[n - 1].t, log[n].t;
      assert LessEq(t, now);
      if SameDay(t, now) {
        SameDayReady(d, log, n);
      } else if MonthIndex(t) == MonthIndex(now) {
        NextDayReady(d, log, n);
      } else if now.month > 0 {
        NextMonthReady(d, log, n);
      } else {
        NextYearReady(d, log, n);
      }
    }
    AddEvent(d, log, n);
  }

  /** ... and never across one that does: the hours of the old day are not cleared. */
  lemma {:induction false} StepBroken(d: Data, log: seq<Event>, n: nat)
    requires ValidLog(log) && 0 < n < |log| && Exact(d, log, n)
    requires MonthIndex(log[n].t) > MonthIndex(log[n - 1].t) + 1
    ensures !Exact(Updated(d, log[n].t, log[n].x), log, n + 1)
  {
    var t, now := log[n - 1].t, log[n].t;
    var r := Updated(d, now, log[n].x);
    TotalCounts(log, n, Part(DayOf(t), t.hour));
    assert d.cur.hours[t.hour].hits > 0;
    assert Rolled(d, now).cur.hours == d.cur.hours;
    NothingAfter(log, n, Part(DayOf(now), t.hour));
    var expected := if t.hour <= now.hour then Total(log, n + 1, Part(DayOf(now), t.hour)) else ZERO;
    assert r.cur.hours[t.hour].hits > expected.hits;
  }

  /** Main result: along a run, the ledger is the log's sums after every event
      if and only if no whole month passes between two events. */
  lemma {:induction false} LedgerRefinesLog(log: seq<Event>)
    requires ValidLog(log)
    ensures AlwaysExact(log) <==> NoMonthSkipped(log)
  {
    if NoMonthSkipped(log) {
      forall n: nat | n <= |log| ensures Exact(Run(log, n), log, n) {
        RunExact(log, n);
      }
    } else {
      var i: nat :| 0 < i < |log| && MonthIndex(log[i].t) > MonthIndex(log[i - 1].t) + 1;
      if AlwaysExact(log) {
        assert Exact(Run(log, i), log, i) && Exact(Run(log, i + 1), log, i + 1);
        StepBroken(Run(log, i), log, i);
        assert false;
      }
    }
  }

  lemma {:induction false} RunExact(log: seq<Event>, n: nat)
    requires ValidLog(log) && NoMonthSkipped(log) && n <= |log|
    ensures Exact(Run(log, n), log, n)
  {
    if n > 0 {
      RunExact(log, n - 1);
      StepExact(Run(log, n - 1), log, n - 1);
    }
  }
}
