/** The status polls that the keep-alive makes, and what they mean for the daily reports. */
module ReportPolls {
  import opened Common
  import opened DailyReport

  const QUARTER := 900_000_000_000
  const HALF := 1_800_000_000_000

  /** A quarter of an hour, rounded from eight minutes ahead, and half an hour on. */
  function NextAfter(now: int): (t: int)
    ensures now + 23 * MINUTE < t <= now + 38 * MINUTE
    ensures t % QUARTER == 0
  {
    var ahead := now + 8 * MINUTE;
    assert ahead - ahead % QUARTER == ahead / QUARTER * QUARTER;
    ahead - ahead % QUARTER + HALF
  }

  /** The calls of the keep-alive that become polls. */
  function Polls(calls: seq<int>): seq<int> {
    if calls == [] then [] else
    var polls, now := Polls(calls[..|calls| - 1]), calls[|calls| - 1];
    if polls != [] && now < NextAfter(polls[|polls| - 1]) then polls else polls + [now]
  }

  class Manager {
    var nextReportAfter: Option<int>
    ghost var calls: seq<int>

    ghost predicate Valid()
      reads this
    {
      var polls := Polls(calls);
      nextReportAfter == if polls == [] then None else Some(NextAfter(polls[|polls| - 1]))
    }

    constructor ()
      ensures Valid() && calls == []
    {
      nextReportAfter, calls := None, [];
    }

    /** Whether this call sends the reports. */
    method OnReportStatus(now: int) returns (poll: bool)
      requires Valid()
      modifies this
      ensures Valid() && calls == old(calls) + [now]
      ensures Polls(calls) == if poll then Polls(old(calls)) + [now] else Polls(old(calls))
    {
      calls := calls + [now];
      assert calls[..|calls| - 1] == old(calls);
      if nextReportAfter.Some? && now < nextReportAfter.value {
        return false;
      }
      nextReportAfter := Some(now + 8 * MINUTE - (now + 8 * MINUTE) % QUARTER + HALF);
      poll := true;
    }
  }

  // ---- the polls stand on a grid ----

  /** Where the k-th poll is due: half an hour after the one before, from the quarter that the first sets. */
  function Mark(first: int, k: nat): int
    requires k > 0
  {
    NextAfter(first) + (k - 1) * HALF
  }

  lemma {:induction false} MarkIsQuarter(first: int, k: nat)
    requires k > 0
    ensures Mark(first, k) % QUARTER == 0
  {
    var q := NextAfter(first) / QUARTER;
    assert Mark(first, k) == (q + 2 * (k - 1)) * QUARTER;
  }

  // Polls less than seven minutes after a quarter keep to the quarters.
  lemma {:induction false} NextMark(mark: int, now: int)
    requires mark % QUARTER == 0 && mark <= now < mark + 7 * MINUTE
    ensures NextAfter(now) == mark + HALF
  {
    var q := mark / QUARTER;
    assert now + 8 * MINUTE == q * QUARTER + (now - mark + 8 * MINUTE);
    assert (now + 8 * MINUTE) / QUARTER == q;
  }

  /** Every poll after the first comes less than c after its mark. */
  ghost predicate OnGrid(polls: seq<int>, c: int) {
    forall k: nat :: 0 < k < |polls| ==> Mark(polls[0], k) <= polls[k] < Mark(polls[0], k) + c
  }

  lemma {:induction false} DueAt(polls: seq<int>, c: int)
    requires polls != [] && OnGrid(polls, c) && c <= 7 * MINUTE
    ensures NextAfter(polls[|polls| - 1]) == Mark(polls[0], |polls|)
  {
    var k := |polls| - 1;
    if k > 0 {
      MarkIsQuarter(polls[0], k);
      assert Mark(polls[0], k) <= polls[k] < Mark(polls[0], k) + c;
      NextMark(Mark(polls[0], k), polls[k]);
    }
  }

  lemma {:induction false} PollsOnGrid(calls: seq<int>, polls: seq<int>, c: int)
    requires Gaps(calls, c) && calls != [] && polls == Polls(calls) && c <= 7 * MINUTE
    ensures polls != [] && OnGrid(polls, c)
    ensures polls[|polls| - 1] == calls[|calls| - 1] || calls[|calls| - 1] < Mark(polls[0], |polls|)
    ensures polls[0] == calls[0]
  {
    var n := |calls| - 1;
    if n > 0 {
      var earlier, prev, now := Polls(calls[..n]), calls[n - 1], calls[n];
      PollsOnGrid(calls[..n], earlier, c);
      DueAt(earlier, c);
      assert calls[..n][n - 1] == prev < now <= prev + c && calls[..n][0] == calls[0];
      if now >= NextAfter(earlier[|earlier| - 1]) {
        PollAfter(earlier, prev, now, c);
      }
    }
  }

  lemma {:induction false} PollAfter(earlier: seq<int>, prev: int, now: int, c: int)
    requires earlier != [] && OnGrid(earlier, c) && c <= 7 * MINUTE
    requires prev < now <= prev + c && now >= Mark(earlier[0], |earlier|)
    requires earlier[|earlier| - 1] == prev || prev < Mark(earlier[0], |earlier|)
    ensures OnGrid(earlier + [now], c)
  {
    DueAt(earlier, c);
    assert prev < Mark(earlier[0], |earlier|);
    var polls := earlier + [now];
    forall k: nat | 0 < k < |polls|
      ensures Mark(polls[0], k) <= polls[k] < Mark(polls[0], k) + c
    {
      if k < |earlier| {
        assert polls[k] == earlier[k];
      }
    }
  }

  // ---- once a day ----

  /** After its first report among these polls a subscriber gets exactly one a day, at the first poll at or
      after the scheduled minute. */
  ghost predicate OnceADay(s: Schedule, polls: seq<int>) {
    forall j: nat, k: nat :: j < k < |polls| && Reports(s, polls, j) ==>
      (Reports(s, polls, k) <==> FirstOfDay(s, polls, k))
  }

  /** The schedules that open no later than half past eleven in the evening. */
  predicate Early(s: Schedule) { s.hour < 23 || s.minute <= 30 }

  lemma {:induction false} LastQuarter(mark: int, d: int)
    requires mark % QUARTER == 0 && mark < d * DAY + 23 * HOUR + 30 * MINUTE
    ensures mark <= d * DAY + 23 * HOUR + 15 * MINUTE
  {
    var q := mark / QUARTER;
    assert mark == q * QUARTER;
    assert q < 96 * d + 94;
  }

  // Half-hourly polls do not miss the window of an early schedule.
  lemma {:induction false} GridCatches(s: Schedule, mark: int, prev: int, now: int, c: int)
    requires ValidSchedule(s) && Early(s) && mark % QUARTER == 0 && c <= 7 * MINUTE
    requires mark <= prev < mark + c && mark + HALF <= now < mark + HALF + c
    ensures Catches(s, prev, now)
  {
    forall d | prev < Opening(s, d) <= now
      ensures now < Opening(s, d) + Slack(s)
    {
      if s.hour == 23 {
        LastQuarter(mark, d);
      }
    }
  }

  // Nor does the poll after the first, if the first was in the window.
  lemma {:induction false} FirstCatches(s: Schedule, first: int, now: int)
    requires ValidSchedule(s) && Opens(s) <= first % DAY < Closes(s) && first < now < first + 45 * MINUTE
    ensures Catches(s, first, now)
  {
    var e := first / DAY;
    assert Opening(s, e) <= first < Opening(s, e) + 3 * HOUR;
    forall d
      ensures Opening(s, d) <= first || now < Opening(s, d)
    {
      if d > e {
        assert Opening(s, d) >= Opening(s, e) + DAY;
      }
    }
  }

  lemma {:induction false} PollPairCatches(s: Schedule, polls: seq<int>, c: int, k: nat)
    requires ValidSchedule(s) && Early(s) && OnGrid(polls, c) && 0 < c <= 7 * MINUTE && 1 < k < |polls|
    ensures Catches(s, polls[k - 1], polls[k])
  {
    MarkIsQuarter(polls[0], k - 1);
    assert Mark(polls[0], k - 1) <= polls[k - 1] < Mark(polls[0], k - 1) + c;
    assert Mark(polls[0], k) <= polls[k] < Mark(polls[0], k) + c;
    GridCatches(s, Mark(polls[0], k - 1), polls[k - 1], polls[k], c);
  }

  lemma {:induction false} EarlyIsOnceADay(s: Schedule, all: seq<int>, from: nat, c: int)
    requires ValidSchedule(s) && Early(s) && OnGrid(all, c) && 0 < c <= 7 * MINUTE && from <= |all|
    ensures OnceADay(s, all[from..])
  {
    var polls := all[from..];
    forall j: nat, k: nat | j < k < |polls| && Reports(s, polls, j)
      ensures Reports(s, polls, k) <==> FirstOfDay(s, polls, k)
    {
      var i := FirstReport(s, polls, j + 1);
      forall m | i < m <= k
        ensures Catches(s, polls[m - 1], polls[m])
      {
        if from + m > 1 {
          PollPairCatches(s, all, c, from + m);
        } else {
          ReadyInWindow(s, None, polls[0]);
          assert Mark(all[0], 1) <= all[1] < Mark(all[0], 1) + c;
          FirstCatches(s, polls[0], polls[1]);
        }
      }
      var d := DayHolds(s, polls, i, k);
    }
  }

  // ---- the later schedules ----

  // Polls half an hour apart on the second and fourth quarters do not miss a window that opens by 23:45.
  lemma {:induction false} LateCatches(s: Schedule, mark: int, prev: int, now: int)
    requires ValidSchedule(s) && !Early(s) && s.minute <= 45 && mark % HALF == QUARTER
    requires mark <= prev && mark + HALF <= now < mark + HALF + MINUTE
    requires prev < now
    ensures Catches(s, prev, now)
  {
    var h := mark / HALF;
    assert mark == h * HALF + QUARTER;
    forall d | prev < Opening(s, d) <= now
      ensures now < Opening(s, d) + Slack(s)
    {
      assert h < 48 * d + 47;
    }
  }

  // At the first report of a late schedule the polls are on those quarters, or it comes at the node's first poll.
  lemma {:induction false} LateFirst(s: Schedule, all: seq<int>, c: int, k: nat)
    requires ValidSchedule(s) && !Early(s) && OnGrid(all, c) && 0 < c <= MINUTE && k < |all|
    requires ReadySince(s, None, all[k]) && (k == 0 ==> !Missed(s, all[0]))
    ensures s.minute <= 45 && NextAfter(all[0]) % HALF == QUARTER
    ensures k == 0 ==> Opens(s) <= all[0] % DAY < Closes(s)
  {
    if k == 0 {
      ReadyInWindow(s, None, all[0]);
      QuartersAreHalves(NextAfter(all[0]));
    } else {
      MarkIsQuarter(all[0], k);
      assert Mark(all[0], k) <= all[k] < Mark(all[0], k) + c;
      LateWindow(s, Mark(all[0], k), all[k]);
      MarkPhase(all[0], k);
      QuarterPhase(Mark(all[0], k));
    }
  }

  lemma {:induction false} QuartersAreHalves(t: int)
    requires t % QUARTER == 0
    ensures t % HALF == 0 || t % HALF == QUARTER
  {
    var q := t / QUARTER;
    assert t == q / 2 * HALF + q % 2 * QUARTER;
  }

  lemma {:induction false} LatePair(s: Schedule, all: seq<int>, c: int, k: nat)
    requires ValidSchedule(s) && !Early(s) && OnGrid(all, c) && 0 < c <= MINUTE && 1 < k < |all|
    requires s.minute <= 45 && NextAfter(all[0]) % HALF == QUARTER
    ensures Catches(s, all[k - 1], all[k])
  {
    MarkPhase(all[0], k - 1);
    assert Mark(all[0], k - 1) <= all[k - 1] < Mark(all[0], k - 1) + c;
    assert Mark(all[0], k) <= all[k] < Mark(all[0], k) + c;
    LateCatches(s, Mark(all[0], k - 1), all[k - 1], all[k]);
  }

  lemma {:induction false} LateIsOnceADay(s: Schedule, all: seq<int>, from: nat, c: int)
    requires ValidSchedule(s) && !Early(s) && OnGrid(all, c) && 0 < c <= MINUTE && from <= |all|
    requires from == 0 && all != [] ==> !Missed(s, all[0])
    ensures OnceADay(s, all[from..])
  {
    var polls := all[from..];
    forall j: nat, k: nat | j < k < |polls| && Reports(s, polls, j)
      ensures Reports(s, polls, k) <==> FirstOfDay(s, polls, k)
    {
      var i := FirstReport(s, polls, j + 1);
      LateFirst(s, all, c, from + i);
      forall m | i < m <= k
        ensures Catches(s, polls[m - 1], polls[m])
      {
        if from + m > 1 {
          LatePair(s, all, c, from + m);
        } else {
          assert Mark(all[0], 1) <= all[1] < Mark(all[0], 1) + c;
          FirstCatches(s, polls[0], polls[1]);
        }
      }
      var d := DayHolds(s, polls, i, k);
    }
  }

  /** The node's first poll falls in the window of a schedule that none of the polls of the next day hits: these
      keep to the full and half hours, or the schedule opens after a quarter to midnight. */
  predicate Missed(s: Schedule, first: int) {
    !Early(s) && Opens(s) <= first % DAY && (s.minute >= 46 || NextAfter(first) % HALF == 0)
  }

  // The next poll is then due at midnight or in the half hour after it.
  lemma {:induction false} NextAfterMidnight(s: Schedule, first: int, midnight: int)
    requires ValidSchedule(s) && Missed(s, first) && midnight == (first / DAY + 1) * DAY
    ensures midnight - DAY + Opens(s) <= first < midnight
    ensures var t := NextAfter(first);
      t == midnight || t == midnight + HALF || (t == midnight + QUARTER && s.minute >= 46)
  {
    assert first == first / DAY * DAY + first % DAY;
    QuarterNear(NextAfter(first), first / DAY + 1);
  }

  lemma {:induction false} QuarterNear(t: int, day: int)
    requires t % QUARTER == 0 && day * DAY - 6 * MINUTE < t <= day * DAY + 38 * MINUTE
    ensures t == day * DAY || t == day * DAY + HALF || (t == day * DAY + QUARTER && t % HALF != 0)
  {
    var q := t / QUARTER;
    assert t == q * QUARTER;
    assert 96 * day <= q <= 96 * day + 2;
    if q == 96 * day + 1 {
      assert t == 48 * day * HALF + QUARTER;
    }
  }

  /** The poll that the day's age of the first report forces. */
  function Forced(first: int, midnight: int): nat { if NextAfter(first) == midnight + HALF then 48 else 49 }

  lemma {:induction false} MissedPolls(s: Schedule, polls: seq<int>, c: int, midnight: int, m: nat)
    requires ValidSchedule(s) && OnGrid(polls, c) && 0 < c <= MINUTE && 0 < m < |polls|
    requires Missed(s, polls[0]) && midnight == (polls[0] / DAY + 1) * DAY
    ensures m < Forced(polls[0], midnight) ==> midnight <= polls[m] < midnight + Opens(s)
    ensures m == Forced(polls[0], midnight) ==> midnight + DAY <= polls[m] < midnight + DAY + 16 * MINUTE
  {
    NextAfterMidnight(s, polls[0], midnight);
    assert Mark(polls[0], m) <= polls[m] < Mark(polls[0], m) + c;
    assert Mark(polls[0], m) == NextAfter(polls[0]) + m * HALF - HALF;
  }

  lemma {:induction false} MissedIsForced(s: Schedule, polls: seq<int>, c: int)
    requires ValidSchedule(s) && OnGrid(polls, c) && 0 < c <= MINUTE && |polls| >= 50 && Missed(s, polls[0])
    ensures !OnceADay(s, polls)
  {
    var first := polls[0];
    var day := first / DAY + 1;
    var midnight := day * DAY;
    var k := Forced(first, midnight);
    NextAfterMidnight(s, first, midnight);
    ReadyInWindow(s, None, first);
    forall m | 0 < m < k
      ensures !ReadySince(s, Some(first), polls[m])
    {
      MissedPolls(s, polls, c, midnight, m);
      TodOf(polls[m], day, polls[m] - midnight);
      ReadyInWindow(s, Some(first), polls[m]);
    }
    Quiet(s, polls, 0, k);
    MissedPolls(s, polls, c, midnight, k);
    DueAfterDay(s, first, polls[k]);
    TodOf(polls[k], day + 1, polls[k] - midnight - DAY);
    TooEarly(s, polls, k);
    assert Reports(s, polls, 0) && Reports(s, polls, k) && !FirstOfDay(s, polls, k);
  }

  /** The exact condition, for every run of calls up to a minute apart that makes polls for a day: a subscriber
      who is there for the polls from a given one on gets one report a day at its time, once it has had one,
      unless it was there at the node's first poll, that poll fell in the window of its schedule, and no poll
      of the next day does. */
  lemma {:induction false} ReportsOnceADayExactly(s: Schedule, calls: seq<int>, c: int, from: nat)
    requires ValidSchedule(s) && Gaps(calls, c) && 0 < c <= MINUTE && |Polls(calls)| >= 50 && from <= |Polls(calls)|
    ensures OnceADay(s, Polls(calls)[from..]) <==> !(from == 0 && Missed(s, calls[0]))
  {
    var polls := Polls(calls);
    assert calls != [];
    PollsOnGrid(calls, polls, c);
    if from == 0 && Missed(s, polls[0]) {
      MissedIsForced(s, polls, c);
      assert polls[0..] == polls;
    } else if Early(s) {
      EarlyIsOnceADay(s, polls, from, c);
    } else {
      LateIsOnceADay(s, polls, from, c);
    }
  }

  // ---- which schedules are safe for every run ----

  /** Once a day for all calls up to c apart and whenever the subscriber joins. */
  ghost predicate OnceADayPolled(s: Schedule, c: int) {
    forall calls: seq<int>, from: nat :: Gaps(calls, c) && from <= |Polls(calls)| ==> OnceADay(s, Polls(calls)[from..])
  }

  // The node starts at a minute to midnight, and its calls come every g.
  function Calls(n: nat, g: nat): seq<int> { seq(n, i requires i >= 0 => DAY - MINUTE + i * g) }

  lemma {:induction false} CallsAreSpaced(n: nat, g: nat)
    requires g > 0
    ensures Gaps(Calls(n, g), g)
  {
    forall k | 0 < k < n
      ensures Calls(n, g)[k - 1] < Calls(n, g)[k] == Calls(n, g)[k - 1] + g
    {
      assert k * g == (k - 1) * g + g;
    }
  }

  // Polls go on as long as the calls do.
  lemma {:induction false} PollsGoOn(calls: seq<int>, c: int)
    requires Gaps(calls, c) && calls != [] && 0 < c <= MINUTE && calls[|calls| - 1] >= calls[0] + 2 * DAY
    ensures |Polls(calls)| >= 50
  {
    var polls := Polls(calls);
    PollsOnGrid(calls, polls, c);
    var k := |polls| - 1;
    if k > 0 {
      assert Mark(polls[0], k) <= polls[k] < Mark(polls[0], k) + c;
    }
  }

  lemma {:induction false} StartBeforeMidnight(s: Schedule)
    requires ValidSchedule(s) && !Early(s)
    ensures Missed(s, DAY - MINUTE)
  {
    NextMark(DAY, DAY);
    assert NextAfter(DAY - MINUTE) == DAY + HALF;
    assert (DAY + HALF) / HALF == 49;
  }

  /** So for calls up to c apart, c at most seven minutes, every subscriber is served once a day exactly if its
      schedule opens by 23:30; for a later one it fails whatever the gap of the calls up to a minute. */
  lemma {:induction false} KeepAliveReportsOnceADay(s: Schedule, c: int)
    requires ValidSchedule(s) && 0 < c <= 7 * MINUTE
    ensures OnceADayPolled(s, c) <==> Early(s)
  {
    if Early(s) {
      forall calls: seq<int>, from: nat | Gaps(calls, c) && from <= |Polls(calls)|
        ensures OnceADay(s, Polls(calls)[from..])
      {
        if calls != [] {
          PollsOnGrid(calls, Polls(calls), c);
          EarlyIsOnceADay(s, Polls(calls), from, c);
        }
      }
    } else {
      LateIsNotOnceADay(s, Min(c, 59 * SECOND), 2 * DAY + 1);
    }
  }

  lemma {:induction false} LateIsNotOnceADay(s: Schedule, g: int, n: nat)
    requires ValidSchedule(s) && !Early(s) && 0 < g <= MINUTE && n == 2 * DAY + 1
    ensures exists calls :: Gaps(calls, g) && !OnceADay(s, Polls(calls)[0..])
  {
    var calls := Calls(n, g);
    CallsAreSpaced(n, g);
    AtLeast(2 * DAY, g);
    assert calls[0] == DAY - MINUTE;
    PollsGoOn(calls, g);
    StartBeforeMidnight(s);
    ReportsOnceADayExactly(s, calls, g, 0);
  }

  lemma {:induction false} AtLeast(i: nat, g: int)
    requires g >= 1
    ensures i * g >= i
  {
    assert i * (g - 1) >= 0;
  }

  // ---- who never gets a first report ----

  // The evening's quarters at or after a late schedule: only a quarter to midnight.
  lemma {:induction false} LateWindow(s: Schedule, mark: int, poll: int)
    requires ValidSchedule(s) && !Early(s) && mark % QUARTER == 0 && mark <= poll < mark + MINUTE
    ensures ReadySince(s, None, poll) <==> s.minute <= 45 && mark % DAY == 23 * HOUR + 45 * MINUTE
  {
    ReadyInWindow(s, None, poll);
    var q := mark / QUARTER;
    var d, r := q / 96, q % 96;
    assert q == 96 * d + r;
    assert mark == d * DAY + r * QUARTER && poll == d * DAY + (r * QUARTER + (poll - mark));
    TodOf(mark, d, r * QUARTER);
    TodOf(poll, d, r * QUARTER + (poll - mark));
  }

  lemma {:induction false} TodOf(t: int, d: int, tod: int)
    requires t == d * DAY + tod && 0 <= tod < DAY
    ensures t % DAY == tod
  {
    assert t / DAY == d;
  }

  // Half-hourly marks keep to one half of the quarters.
  lemma {:induction false} MarkPhase(first: int, k: nat)
    requires k > 0
    ensures Mark(first, k) % HALF == NextAfter(first) % HALF
  {
    if k > 1 {
      MarkPhase(first, k - 1);
      var mark := Mark(first, k - 1);
      assert Mark(first, k) == mark + HALF && (mark + HALF) / HALF == mark / HALF + 1;
    }
  }

  /** With calls up to a minute apart, a subscriber with a schedule after 23:30 that has had no report gets its
      first at a poll after the node's first exactly if its schedule opens by 23:45 and the poll is the one of a
      quarter to midnight. From 23:46 on no such poll will do, and from 23:31 on none if the polls keep to the
      full and half hours. */
  lemma {:induction false} LateFirstReport(s: Schedule, calls: seq<int>, c: int, k: nat)
    requires ValidSchedule(s) && !Early(s) && Gaps(calls, c) && 0 < c <= MINUTE && 0 < k < |Polls(calls)|
    ensures var poll, mark := Polls(calls)[k], Mark(Polls(calls)[0], k);
      && mark <= poll < mark + c
      && (ReadySince(s, None, poll) <==> s.minute <= 45 && mark % DAY == 23 * HOUR + 45 * MINUTE)
      && (s.minute >= 46 || NextAfter(Polls(calls)[0]) % HALF == 0 ==> !ReadySince(s, None, poll))
  {
    var polls := Polls(calls);
    PollsOnGrid(calls, polls, c);
    MarkIsQuarter(polls[0], k);
    assert Mark(polls[0], k) <= polls[k] < Mark(polls[0], k) + c;
    LateWindow(s, Mark(polls[0], k), polls[k]);
    MarkPhase(polls[0], k);
    if Mark(polls[0], k) % DAY == 23 * HOUR + 45 * MINUTE {
      QuarterPhase(Mark(polls[0], k));
    }
  }

  lemma {:induction false} QuarterPhase(mark: int)
    requires mark % DAY == 23 * HOUR + 45 * MINUTE
    ensures mark % HALF == QUARTER
  {
    var d := mark / DAY;
    assert mark == (48 * d + 47) * HALF + QUARTER;
  }
}
