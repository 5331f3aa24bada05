/** The rolling traffic ledger: hits fold into hour, day, month and year buckets, and each
    bucket is the sum of the logged events of its period. */
module Ledger {
  import opened Calendar

  datatype Inst = Inst(hits: int, bytes: int)

  const ZERO := Inst(0, 0)

  type Hours = s: seq<Inst> | |s| == 24 witness seq(24, _ => ZERO)
  type Days = s: seq<Inst> | |s| == 31 witness seq(31, _ => ZERO)
  type Months = s: seq<Inst> | |s| == 12 witness seq(12, _ => ZERO)

  datatype History = History(hours: Hours, days: Days, months: Months)

  /** A snapshot of all fields of a StatData object. */
  datatype Data = Data(date: StatTime, cur: History, prev: History,
                       years: map<int, Inst>, accesses: map<string, int>)

  function Zeros(n: nat): (s: seq<Inst>)
    ensures |s| == n && forall i :: 0 <= i < n ==> s[i] == ZERO
  {
    seq(n, _ => ZERO)
  }

  const NO_HISTORY := History(Zeros(24), Zeros(31), Zeros(12))
  const EMPTY := Data(StatTime(0, 0, 0, 0), NO_HISTORY, NO_HISTORY, map[], map[])

  predicate InRange(t: StatTime) {
    0 <= t.month < 12 && 0 <= t.day < 31 && 0 <= t.hour < 24
  }

  function SumTo(s: seq<Inst>, n: int): Inst
    requires 0 <= n <= |s|
  {
    if n == 0 then ZERO
    else Inst(SumTo(s, n - 1).hits + s[n - 1].hits, SumTo(s, n - 1).bytes + s[n - 1].bytes)
  }

  /** s with the entries from lo up to, not including, hi set to zero. */
  function Cleared(s: seq<Inst>, lo: int, hi: int): (r: seq<Inst>)
    ensures |r| == |s|
    ensures forall i :: 0 <= i < |s| ==> r[i] == if lo <= i < hi then ZERO else s[i]
  {
    seq(|s|, i requires 0 <= i < |s| => if lo <= i < hi then ZERO else s[i])
  }

  // ---- What one update does, as a function of the old snapshot ----

  function RollHours(d: Data, adjacent: bool): Hours
    requires InRange(d.date)
  {
    if adjacent then Cleared(d.cur.hours, d.date.hour + 1, 24) else Zeros(24)
  }

  predicate NextYear(d: Data, now: StatTime) {
    now.year == d.date.year + 1
  }

  predicate NextMonthOfNextYear(d: Data, now: StatTime) {
    NextYear(d, now) && now.month == 0 && d.date.month + 1 == 12
  }

  function OpenYear(d: Data): Inst
    requires InRange(d.date)
  {
    var m := SumTo(d.cur.months, d.date.month);
    var d' := SumTo(d.cur.days, d.date.day + 1);
    var h := SumTo(d.cur.hours, d.date.hour + 1);
    Inst(m.hits + d'.hits + h.hits, m.bytes + d'.bytes + h.bytes)
  }

  function YearTotal(d: Data, now: StatTime): Inst
    requires InRange(d.date)
  {
    var m, d' := SumTo(d.cur.months, d.date.month), SumTo(d.cur.days, d.date.day + 1);
    if NextMonthOfNextYear(d, now) then OpenYear(d)
    else if NextYear(d, now) then Inst(m.hits + d'.hits, m.bytes + d'.bytes)
    else m
  }

  function RollYear(d: Data, now: StatTime): Data
    requires InRange(d.date) && InRange(now)
  {
    var closed := d.(years := d.years[d.date.year := YearTotal(d, now)]);
    if NextMonthOfNextYear(d, now) then
      closed.(prev := History(RollHours(d, now.day == 0 && IsLastDay(d.date)),
                              Cleared(d.cur.days, d.date.day + 1, 31),
                              Cleared(d.cur.months, d.date.month + 1, 12)),
              cur := NO_HISTORY)
    else if NextYear(d, now) then
      closed.(prev := History(d.prev.hours, Zeros(31), Cleared(d.cur.months, d.date.month + 1, 12)),
              cur := History(d.cur.hours, Zeros(31), Zeros(12)))
    else
      closed.(prev := d.prev.(months := Zeros(12)), cur := d.cur.(months := Zeros(12)))
  }

  function OpenMonth(d: Data): Inst
    requires InRange(d.date)
  {
    var d', h := SumTo(d.cur.days, d.date.day), SumTo(d.cur.hours, d.date.hour + 1);
    Inst(d'.hits + h.hits, d'.bytes + h.bytes)
  }

  function MonthTotal(d: Data, next: bool): Inst
    requires InRange(d.date)
  {
    if next then OpenMonth(d) else SumTo(d.cur.days, d.date.day)
  }

  function RollMonth(d: Data, now: StatTime): Data
    requires InRange(d.date) && InRange(now)
  {
    var next := now.month == d.date.month + 1;
    var total := MonthTotal(d, next);
    d.(accesses := map[],
       prev := History(
         if next then RollHours(d, now.day == 0 && IsLastDay(d.date)) else d.prev.hours,
         if next then Cleared(d.cur.days, d.date.day + 1, 31) else Zeros(31),
         d.prev.months),
       cur := History(
         if next then Zeros(24) else d.cur.hours,
         Zeros(31),
         Cleared(d.cur.months[d.date.month := total], d.date.month + 1, now.month)))
  }

  function RollDay(d: Data, now: StatTime): Data
    requires InRange(d.date) && InRange(now)
  {
    var total := SumTo(d.cur.hours, d.date.hour + 1);
    d.(prev := d.prev.(hours := RollHours(d, now.day == d.date.day + 1)),
       cur := History(
         Zeros(24),
         Cleared(d.cur.days[d.date.day := total], d.date.day + 1, now.day),
         d.cur.months))
  }

  function Rolled(d: Data, now: StatTime): Data
    requires InRange(d.date) && InRange(now)
  {
    if d.date.year == 0 then d
    else if d.date.year != now.year then RollYear(d, now)
    else if d.date.month != now.month then RollMonth(d, now)
    else if d.date.day != now.day then RollDay(d, now)
    else if d.date.hour != now.hour then
      d.(cur := d.cur.(hours := Cleared(d.cur.hours, d.date.hour + 1, now.hour)))
    else d
  }

  function Updated(d: Data, now: StatTime, x: Inst): Data
    requires InRange(d.date) && InRange(now)
  {
    var r := Rolled(d, now);
    var bucket := r.cur.hours[now.hour];
    var bucket := Inst(bucket.hits + x.hits, bucket.bytes + x.bytes);
    r.(date := now, cur := r.cur.(hours := r.cur.hours[now.hour := bucket]))
  }

  // ---- The object ----

  method SumFirst(s: seq<Inst>, n: int) returns (total: Inst)
    requires 0 <= n <= |s|
    ensures total == SumTo(s, n)
  {
    total := ZERO;
    for i := 0 to n
      invariant total == SumTo(s, i)
    {
      total := Inst(total.hits + s[i].hits, total.bytes + s[i].bytes);
    }
  }

  method ClearBetween(s: seq<Inst>, lo: int, hi: int) returns (r: seq<Inst>)
    requires 0 <= lo && hi <= |s|
    ensures r == Cleared(s, lo, hi)
  {
    r := s;
    var i := lo;
    while i < hi
      invariant lo <= i && (i <= hi || i == lo)
      invariant r == Cleared(s, lo, i)
    {
      r := r[i := ZERO];
      i := i + 1;
    }
    assert r == Cleared(s, lo, hi);
  }

  /** Go's fixed arrays are values that an assignment copies, as are the sequences here. */
  class StatData {
    var date: StatTime
    var hours: Hours
    var days: Days
    var months: Months
    var prevHours: Hours
    var prevDays: Days
    var prevMonths: Months
    var years: map<int, Inst>
    var accesses: map<string, int>

    ghost predicate Valid()
      reads this
    {
      InRange(date)
    }

    ghost function Snapshot(): Data
      reads this
    {
      Data(date, History(hours, days, months), History(prevHours, prevDays, prevMonths), years, accesses)
    }

    constructor ()
      ensures Valid() && Snapshot() == EMPTY
    {
      date := StatTime(0, 0, 0, 0);
      hours, days, months := Zeros(24), Zeros(31), Zeros(12);
      prevHours, prevDays, prevMonths := Zeros(24), Zeros(31), Zeros(12);
      years, accesses := map[], map[];
    }

    method Update(now: StatTime, x: Inst)
      requires Valid() && InRange(now)
      modifies this
      ensures Valid() && Snapshot() == Updated(old(Snapshot()), now, x)
    {
      if date.year != 0 {
        if date.year != now.year {
          CloseYear(now);
        } else if date.month != now.month {
          CloseMonth(now);
        } else if date.day != now.day {
          CloseDay(now);
        } else if date.hour != now.hour {
          hours := ClearBetween(hours, date.hour + 1, now.hour);
        }
      }
      var bucket := hours[now.hour];
      hours := hours[now.hour := Inst(bucket.hits + x.hits, bucket.bytes + x.bytes)];
      date := now;
    }

    method CopyHours(adjacent: bool)
      requires Valid()
      modifies this`prevHours
      ensures prevHours == RollHours(Snapshot(), adjacent)
    {
      if adjacent {
        prevHours := ClearBetween(hours, date.hour + 1, 24);
      } else {
        prevHours := Zeros(24);
      }
    }

    method SumYear(now: StatTime) returns (total: Inst)
      requires Valid()
      ensures total == YearTotal(Snapshot(), now)
    {
      total := SumFirst(months, date.month);
      if now.year == date.year + 1 {
        var part := SumFirst(days, date.day + 1);
        total := Inst(total.hits + part.hits, total.bytes + part.bytes);
        if now.month == 0 && date.month + 1 == |months| {
          part := SumFirst(hours, date.hour + 1);
          total := Inst(total.hits + part.hits, total.bytes + part.bytes);
        }
      }
    }

    method CloseYear(now: StatTime)
      requires Valid() && InRange(now)
      modifies this
      ensures Valid() && Snapshot() == RollYear(old(Snapshot()), now)
    {
      var total := SumYear(now);
      years := years[date.year := total];
      if now.year == date.year + 1 {
        if now.month == 0 && date.month + 1 == |months| {
          CopyHours(now.day == 0 && IsLastDay(date));
          hours := Zeros(24);
          prevDays := ClearBetween(days, date.day + 1, 31);
        } else {
          prevDays := Zeros(31);
        }
        days := Zeros(31);
        prevMonths := ClearBetween(months, date.month + 1, 12);
      } else {
        prevMonths := Zeros(12);
      }
      months := Zeros(12);
    }

    method SumMonth(next: bool) returns (total: Inst)
      requires Valid()
      ensures total == MonthTotal(Snapshot(), next)
    {
      total := SumFirst(days, date.day);
      if next {
        var part := SumFirst(hours, date.hour + 1);
        total := Inst(total.hits + part.hits, total.bytes + part.bytes);
      }
    }

    method CloseMonth(now: StatTime)
      requires Valid() && InRange(now)
      modifies this
      ensures Valid() && Snapshot() == RollMonth(old(Snapshot()), now)
    {
      var next := now.month == date.month + 1;
      var total := SumMonth(next);
      months := months[date.month := total];
      months := ClearBetween(months, date.month + 1, now.month);
      accesses := map[];
      if next {
        CopyHours(now.day == 0 && IsLastDay(date));
        hours := Zeros(24);
        prevDays := ClearBetween(days, date.day + 1, 31);
      } else {
        prevDays := Zeros(31);
      }
      days := Zeros(31);
    }

    method CloseDay(now: StatTime)
      requires Valid() && InRange(now)
      modifies this
      ensures Valid() && Snapshot() == RollDay(old(Snapshot()), now)
    {
      var total := SumFirst(hours, date.hour + 1);
      days := days[date.day := total];
      days := ClearBetween(days, date.day + 1, now.day);
      CopyHours(now.day == date.day + 1);
      hours := Zeros(24);
    }
  }
}
