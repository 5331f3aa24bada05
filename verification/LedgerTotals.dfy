/** Consequences of exactness: what the previous-period copies leave out, and conservation. */
module LedgerTotals {
  import opened Calendar
  import opened Ledger
  import opened LedgerExact

  function Plus(a: Inst, b: Inst): Inst {
    Inst(a.hits + b.hits, a.bytes + b.bytes)
  }

  lemma {:induction false} TailIsZero(s: seq<Inst>, closed: nat, log: seq<Event>, n: nat, p: Period)
    requires n <= |log|
    requires p.Day? || p.Month? || p.Year?
    requires Holds(s, closed, log, n, p) && closed <= |s|
    ensures SumTo(s, |s|) == SumTo(s, closed)
  {
    var k := |s|;
    while k > closed
      invariant closed <= k <= |s|
      invariant SumTo(s, |s|) == SumTo(s, k)
    {
      k := k - 1;
    }
  }

  lemma {:induction false} LastActive(log: seq<Event>, n: nat, m: int)
    requires ValidLog(log) && n <= |log|
    ensures -1 <= LastActiveDay(log, n, m) < 31
    ensures forall i :: 0 <= i < n && MonthIndex(log[i].t) == m ==> log[i].t.day <= LastActiveDay(log, n, m)
  {
    if n > 0 {
      LastActive(log, n - 1, m);
      forall i | 0 <= i < n && MonthIndex(log[i].t) == m && MonthIndex(log[n - 1].t) == m
        ensures log[i].t.day <= log[n - 1].t.day
      {
        assert LessEq(log[i].t, log[n - 1].t);
      }
    }
  }

  /** Prev.Days omits exactly the last active day of the month before. */
  lemma {:induction false} PreviousMonthTotal(d: Data, log: seq<Event>, n: nat)
    requires ValidLog(log) && 0 < n <= |log| && Exact(d, log, n)
    ensures var m, last := MonthBefore(d.date), LastActiveDay(log, n, MonthIndex(d.date) - 1);
      Total(log, n, m) == Plus(SumTo(d.prev.days, 31), Total(log, n, Part(m, last)))
  {
    var m, last := MonthBefore(d.date), LastActiveDay(log, n, MonthIndex(d.date) - 1);
    LastActive(log, n, MonthIndex(d.date) - 1);
    if last < 0 {
      TailIsZero(d.prev.days, 0, log, n, m);
      TotalNone(log, n, m);
      TotalNone(log, n, Part(m, last));
    } else {
      TailIsZero(d.prev.days, last, log, n, m);
      SumToParts(d.prev.days, last, log, n, m, last);
      PeriodIsSumOfParts(log, n, m, last + 1);
    }
  }

  /** Prev.Months omits exactly December of the year before. */
  lemma {:induction false} PreviousYearTotal(d: Data, log: seq<Event>, n: nat)
    requires ValidLog(log) && 0 < n <= |log| && Exact(d, log, n)
    ensures var y := d.date.year - 1;
      Total(log, n, Year(y)) == Plus(SumTo(d.prev.months, 12), Total(log, n, Month(y, 11)))
  {
    var p := Year(d.date.year - 1);
    TailIsZero(d.prev.months, 11, log, n, p);
    SumToParts(d.prev.months, 11, log, n, p, 11);
    PeriodIsSumOfParts(log, n, p, 12);
    assert SumParts(log, n, p, 12) == Plus(SumParts(log, n, p, 11), Total(log, n, Part(p, 11)));
  }

  ghost function SumYears(log: seq<Event>, n: nat, lo: int, hi: int): Inst
    requires n <= |log|
    decreases hi - lo
  {
    if hi <= lo then Inst(0, 0) else
    var before, year := SumYears(log, n, lo, hi - 1), Total(log, n, Year(hi - 1));
    Inst(before.hits + year.hits, before.bytes + year.bytes)
  }

  lemma {:induction false} SumYearsStep(log: seq<Event>, n: nat, lo: int, hi: int)
    requires 0 < n <= |log| && lo <= log[n - 1].t.year
    ensures var sum, before, e := SumYears(log, n, lo, hi), SumYears(log, n - 1, lo, hi), log[n - 1];
      && sum.hits == before.hits + (if e.t.year < hi then e.x.hits else 0)
      && sum.bytes == before.bytes + (if e.t.year < hi then e.x.bytes else 0)
    decreases hi - lo
  {
    if lo < hi {
      SumYearsStep(log, n, lo, hi - 1);
      assert Total(log, n, Year(hi - 1)).hits
        == Total(log, n - 1, Year(hi - 1)).hits + (if log[n - 1].t.year == hi - 1 then log[n - 1].x.hits else 0);
    }
  }

  lemma {:induction false} SumYearsNone(log: seq<Event>, lo: int, hi: int)
    ensures SumYears(log, 0, lo, hi) == ZERO
    decreases hi - lo
  {
    if lo < hi {
      SumYearsNone(log, lo, hi - 1);
    }
  }

  lemma {:induction false} EverIsSumOfYears(log: seq<Event>, n: nat, lo: int, hi: int)
    requires n <= |log|
    requires forall i :: 0 <= i < n ==> lo <= log[i].t.year < hi
    ensures SumYears(log, n, lo, hi) == Total(log, n, Ever)
  {
    if n == 0 {
      SumYearsNone(log, lo, hi);
    } else {
      EverIsSumOfYears(log, n - 1, lo, hi);
      SumYearsStep(log, n, lo, hi);
    }
  }

  function YearAt(years: map<int, Inst>, y: int): Inst { if y in years then years[y] else ZERO }

  function YearsFrom(years: map<int, Inst>, lo: int, n: nat): (s: seq<Inst>)
    ensures |s| == n && forall i :: 0 <= i < n ==> s[i] == YearAt(years, lo + i)
  {
    seq(n, i requires 0 <= i < n => YearAt(years, lo + i))
  }

  function All(s: seq<Inst>): Inst { SumTo(s, |s|) }

  /** Closed years, added up; a year without an event is not there. */
  function ClosedYears(years: map<int, Inst>, lo: int, hi: int): Inst {
    if lo < hi then All(YearsFrom(years, lo, hi - lo)) else ZERO
  }

  lemma {:induction false} YearsUpTo(d: Data, log: seq<Event>, n: nat, closed: seq<Inst>, k: nat)
    requires 0 < n <= |log| && CurrentExact(d, log, n) && k <= |closed| <= d.date.year - log[0].t.year
    requires closed == YearsFrom(d.years, log[0].t.year, |closed|)
    ensures SumTo(closed, k) == SumYears(log, n, log[0].t.year, log[0].t.year + k)
  {
    if k > 0 {
      YearsUpTo(d, log, n, closed, k - 1);
      assert closed[k - 1] == YearAt(d.years, log[0].t.year + (k - 1));
    }
  }

  lemma {:induction false} ClosedYearsExact(d: Data, log: seq<Event>, n: nat, hi: int)
    requires 0 < n <= |log| && CurrentExact(d, log, n) && hi <= d.date.year
    ensures ClosedYears(d.years, log[0].t.year, hi) == SumYears(log, n, log[0].t.year, hi)
  {
    if log[0].t.year < hi {
      var k := hi - log[0].t.year;
      YearsUpTo(d, log, n, YearsFrom(d.years, log[0].t.year, k), k);
    }
  }

  /** Everything the ledger holds in its year, month, day and hour buckets. */
  ghost function GrandTotal(d: Data, firstYear: int): Inst {
    Plus(Plus(ClosedYears(d.years, firstYear, d.date.year), All(d.cur.months)), Plus(All(d.cur.days), All(d.cur.hours)))
  }

  lemma {:induction false} OpenBuckets(d: Data, log: seq<Event>, n: nat)
    requires ValidLog(log) && 0 < n <= |log| && CurrentExact(d, log, n)
    ensures var open, year := Plus(Plus(All(d.cur.months), All(d.cur.days)), All(d.cur.hours)), Year(d.date.year);
      open.hits == Total(log, n, year).hits && open.bytes == Total(log, n, year).bytes
  {
    var t := log[n - 1].t;
    TailIsZero(d.cur.hours, t.hour + 1, log, n, DayOf(t));
    TailIsZero(d.cur.days, t.day, log, n, MonthOf(t));
    TailIsZero(d.cur.months, t.month, log, n, YearOf(t));
    OpenYearTotal(d, log, n);
  }

  // The years of the log, closed and open, are all of it.
  lemma {:induction false} AllYears(log: seq<Event>, n: nat)
    requires ValidLog(log) && 0 < n <= |log|
    ensures var y := log[n - 1].t.year; var closed, open, all := SumYears(log, n, log[0].t.year, y), Total(log, n, Year(y)), Total(log, n, Ever);
      closed.hits + open.hits == all.hits && closed.bytes + open.bytes == all.bytes
  {
    var y := log[n - 1].t.year;
    forall i | 0 <= i < n ensures log[0].t.year <= log[i].t.year < y + 1 {
      assert LessEq(log[0].t, log[i].t) && LessEq(log[i].t, log[n - 1].t);
    }
    EverIsSumOfYears(log, n, log[0].t.year, y + 1);
  }

  /** Conservation: no hit is lost or counted twice, over years of operation. */
  lemma {:induction false} GrandTotalConserved(log: seq<Event>, n: nat)
    requires ValidLog(log) && NoMonthSkipped(log) && 0 < n <= |log|
    ensures var d := Run(log, n);
      && (forall y :: log[0].t.year <= y < d.date.year ==> y in d.years)
      && GrandTotal(d, log[0].t.year) == Total(log, n, Ever)
  {
    RunExact(log, n);
    var d := Run(log, n);
    OpenBuckets(d, log, n);
    ClosedYearsExact(d, log, n, d.date.year);
    AllYears(log, n);
  }
}
