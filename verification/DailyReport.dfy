/** When the status report polls run, and when a subscriber's daily report is due. Times are
    nanoseconds since some midnight UTC. */
module DailyReport {
  import opened Common

  const MINUTE := 60_000_000_000
  const HOUR := 3_600_000_000_000
  const DAY := 86_400_000_000_000

  datatype Schedule = Schedule(hour: int, minute: int)

  predicate ValidSchedule(s: Schedule) { 0 <= s.hour < 24 && 0 <= s.minute < 60 }

  /** Without a last report the schedule alone decides. */
  function ReadySince(s: Schedule, last: Option<int>, now: int): bool {
    var last := if last.None? then now - DAY + 1 else last.value;
    if now < last + 12 * HOUR then false
    else if now >= last + DAY then true
    else
      var hour, min := now % DAY / HOUR, now % HOUR / MINUTE;
      s.hour < hour < s.hour + 3 || (s.hour == hour && s.minute <= min)
  }

  // The part of a day in which the schedule says yes; it does not reach into the next day.
  function Opens(s: Schedule): int { s.hour * HOUR + s.minute * MINUTE }

  function Closes(s: Schedule): int { (if s.hour < 21 then s.hour + 3 else 24) * HOUR }

  function Window(s: Schedule): int { Closes(s) - Opens(s) }

  lemma {:induction false} ReadyInWindow(s: Schedule, last: Option<int>, now: int)
    requires ValidSchedule(s)
    ensures ReadySince(s, last, now) <==>
      || (last.Some? && now >= last.value + DAY)
      || ((last.Some? ==> now >= last.value + 12 * HOUR) && Opens(s) <= now % DAY < Closes(s))
  {
    assert now % DAY % HOUR == now % HOUR;
  }

  /** The last report before poll k; a report is recorded at the time of its poll. */
  function Last(s: Schedule, polls: seq<int>, k: nat): Option<int>
    requires k <= |polls|
    decreases k, 0
  {
    if k == 0 then None
    else if Reports(s, polls, k - 1) then Some(polls[k - 1])
    else Last(s, polls, k - 1)
  }

  predicate Reports(s: Schedule, polls: seq<int>, k: nat)
    requires k < |polls|
    decreases k, 1
  {
    ReadySince(s, Last(s, polls, k), polls[k])
  }

  ghost predicate Gaps(times: seq<int>, g: int) {
    forall k :: 0 < k < |times| ==> times[k - 1] < times[k] <= times[k - 1] + g
  }

  // ---- spacing ----

  lemma {:induction false} LastIsEarlier(s: Schedule, polls: seq<int>, g: int, j: nat, k: nat)
    requires Gaps(polls, g) && j < k < |polls| && Reports(s, polls, j)
    ensures Last(s, polls, k).Some? && polls[j] <= Last(s, polls, k).value <= polls[k - 1]
  {
    if j + 1 < k {
      LastIsEarlier(s, polls, g, j, k - 1);
    }
  }

  lemma {:induction false} LastIsRecent(s: Schedule, polls: seq<int>, g: int, j: nat, k: nat)
    requires ValidSchedule(s) && Gaps(polls, g) && j < k < |polls| && Reports(s, polls, j)
    ensures Last(s, polls, k).Some? && polls[k] < Last(s, polls, k).value + DAY + g
    decreases k
  {
    if j + 1 < k && !Reports(s, polls, k - 1) {
      LastIsRecent(s, polls, g, j, k - 1);
    }
  }

  /** Two reports are at least 12 hours apart, and once there has been one, the last is never a day and a
      poll gap old. */
  lemma {:induction false} ReportsAreSpaced(s: Schedule, polls: seq<int>, g: int, j: nat, k: nat)
    requires ValidSchedule(s) && Gaps(polls, g) && j < k < |polls| && Reports(s, polls, j)
    ensures Reports(s, polls, k) ==> polls[k] >= polls[j] + 12 * HOUR
    ensures Last(s, polls, k).Some? && polls[k] < Last(s, polls, k).value + DAY + g
  {
    LastIsEarlier(s, polls, g, j, k);
    LastIsRecent(s, polls, g, j, k);
    ReadyInWindow(s, Last(s, polls, k), polls[k]);
  }

  // ---- once a day ----

  /** Poll k is the first of its day at or after the scheduled minute. */
  predicate FirstOfDay(s: Schedule, polls: seq<int>, k: nat)
    requires 0 < k < |polls|
  {
    var today := polls[k] - polls[k] % DAY;
    polls[k - 1] < today + Opens(s) <= polls[k]
  }

  /** After its first report a subscriber gets exactly one a day, at the first poll at or after the
      scheduled minute, for all polls with gaps up to g. */
  ghost predicate OncePerDay(s: Schedule, g: int) {
    forall polls: seq<int>, j: nat, k: nat ::
      Gaps(polls, g) && j < k < |polls| && Reports(s, polls, j) ==>
        (Reports(s, polls, k) <==> FirstOfDay(s, polls, k))
  }

  /** The largest poll gap for which that holds: the window, and one nanosecond more when a poll just
      after it is still on the same day. */
  function Slack(s: Schedule): int { Window(s) + if s.hour < 21 then 1 else 0 }

  /** When the schedule opens on day d. */
  function Opening(s: Schedule, d: int): int { d * DAY + Opens(s) }

  /** Between the two polls no opening goes by for longer than the slack. */
  ghost predicate Catches(s: Schedule, prev: int, now: int) {
    prev < now && forall d :: prev < Opening(s, d) <= now ==> now < Opening(s, d) + Slack(s)
  }

  // The last report was on day d, within the slack, and the day after has not been reached.
  predicate OnDay(s: Schedule, last: int, prev: int, d: int) {
    Opening(s, d) <= last < Opening(s, d) + Slack(s) && last <= prev < Opening(s, d + 1)
  }

  // Now is at `tod` of day e, the window of a day is [opens, closes).
  lemma {:induction false} NextDue(last: int, now: int, d: int, e: int, tod: int, opens: int, closes: int, slack: int)
    requires 0 <= opens < closes <= DAY && closes - opens <= 3 * HOUR
    requires slack == closes - opens || (slack == closes - opens + 1 && closes < DAY)
    requires now == e * DAY + tod && 0 <= tod < DAY
    requires d * DAY + opens <= last < d * DAY + opens + slack
    requires last < now < (d + 1) * DAY + opens + slack
    ensures (now >= last + DAY || (now >= last + 12 * HOUR && opens <= tod < closes)) <==> now >= (d + 1) * DAY + opens
    ensures if now >= (d + 1) * DAY + opens then e == d + 1 else e == d || tod < opens
  {
    assert d <= e <= d + 1;
  }

  lemma {:induction false} DayStep(s: Schedule, last: int, prev: int, now: int, d: int)
    requires ValidSchedule(s) && Catches(s, prev, now) && OnDay(s, last, prev, d)
    ensures var first := prev < now - now % DAY + Opens(s) <= now;
      && (ReadySince(s, Some(last), now) <==> first)
      && (if first then OnDay(s, now, now, d + 1) else OnDay(s, last, now, d))
  {
    ReadyInWindow(s, Some(last), now);
    assert now < Opening(s, d + 1) + Slack(s);
    NextDue(last, now, d, now / DAY, now % DAY, Opens(s), Closes(s), Slack(s));
  }

  lemma {:induction false} DayHolds(s: Schedule, polls: seq<int>, j: nat, k: nat) returns (d: int)
    requires ValidSchedule(s) && j < k < |polls| && Reports(s, polls, j) && Last(s, polls, j) == None
    requires forall m :: j < m <= k ==> Catches(s, polls[m - 1], polls[m])
    ensures Last(s, polls, k).Some? && OnDay(s, Last(s, polls, k).value, polls[k - 1], d)
    ensures Reports(s, polls, k) <==> FirstOfDay(s, polls, k)
  {
    if j + 1 == k {
      ReadyInWindow(s, None, polls[j]);
      d := polls[j] / DAY;
    } else {
      d := DayHolds(s, polls, j, k - 1);
      DayStep(s, Last(s, polls, k - 1).value, polls[k - 2], polls[k - 1], d);
      if Reports(s, polls, k - 1) {
        d := d + 1;
      }
    }
    DayStep(s, Last(s, polls, k).value, polls[k - 1], polls[k], d);
  }

  lemma {:induction false} FirstReport(s: Schedule, polls: seq<int>, k: nat) returns (i: nat)
    requires k <= |polls| && Last(s, polls, k).Some?
    ensures i < k && Reports(s, polls, i) && Last(s, polls, i) == None
  {
    if Last(s, polls, k - 1) == None {
      i := k - 1;
    } else {
      i := FirstReport(s, polls, k - 1);
    }
  }

  lemma {:induction false} SlackSuffices(s: Schedule, g: int)
    requires ValidSchedule(s) && g <= Slack(s)
    ensures OncePerDay(s, g)
  {
    forall polls: seq<int>, j: nat, k: nat | Gaps(polls, g) && j < k < |polls| && Reports(s, polls, j)
      ensures Reports(s, polls, k) <==> FirstOfDay(s, polls, k)
    {
      var i := FirstReport(s, polls, j + 1);
      var d := DayHolds(s, polls, i, k);
    }
  }

  // ---- and no larger gap will do ----

  lemma {:induction false} Quiet(s: Schedule, polls: seq<int>, i: nat, k: nat)
    requires i < k <= |polls| && Reports(s, polls, i)
    requires forall m :: i < m < k ==> !ReadySince(s, Some(polls[i]), polls[m])
    ensures Last(s, polls, k) == Some(polls[i])
  {
    if i + 1 < k {
      Quiet(s, polls, i, k - 1);
    }
  }

  // For a day less what the window takes, a report leaves the schedule quiet.
  lemma {:induction false} NotYet(s: Schedule, last: int, now: int, d: int)
    requires ValidSchedule(s) && d * DAY + Opens(s) <= last <= now < last + DAY
    requires now < (d + 1) * DAY + Opens(s)
    ensures !ReadySince(s, Some(last), now)
  {
    ReadyInWindow(s, Some(last), now);
    assert now % DAY == now - now / DAY * DAY && d <= now / DAY <= d + 1;
  }

  // A report when the schedule opens, polls all the time until it opens again, then one a slack later.
  function LateInNewDay(s: Schedule): seq<int> {
    seq(DAY + 1, i => if i < DAY then Opens(s) + i else 2 * DAY)
  }

  lemma {:induction false} LateInNewDayGaps(s: Schedule)
    requires ValidSchedule(s) && s.hour >= 21
    ensures Gaps(LateInNewDay(s), Slack(s) + 1)
  {
  }

  lemma {:induction false} LateInNewDayLast(s: Schedule, k: nat)
    requires ValidSchedule(s) && k == DAY
    ensures Last(s, LateInNewDay(s), k) == Some(Opens(s)) && Reports(s, LateInNewDay(s), 0)
  {
    var polls := LateInNewDay(s);
    assert polls[0] == Opens(s);
    ReadyInWindow(s, None, Opens(s));
    forall m | 0 < m < k
      ensures !ReadySince(s, Some(Opens(s)), polls[m])
    {
      NotYet(s, Opens(s), polls[m], 0);
    }
    Quiet(s, polls, 0, k);
  }

  lemma {:induction false} TooEarly(s: Schedule, polls: seq<int>, k: nat)
    requires 0 < k < |polls| && polls[k] % DAY < Opens(s)
    ensures !FirstOfDay(s, polls, k)
  {
  }

  lemma {:induction false} DueAfterDay(s: Schedule, last: int, now: int)
    requires now >= last + DAY
    ensures ReadySince(s, Some(last), now)
  {
  }

  lemma {:induction false} NewDayPolls(s: Schedule, k: nat)
    requires ValidSchedule(s) && s.hour >= 21 && k == DAY
    ensures LateInNewDay(s)[k] == 2 * DAY && LateInNewDay(s)[k] % DAY == 0 < Opens(s) < DAY
  {
  }

  lemma {:induction false} LateInNewDayFails(s: Schedule, k: nat)
    requires ValidSchedule(s) && s.hour >= 21 && k == DAY
    ensures Reports(s, LateInNewDay(s), k) && !FirstOfDay(s, LateInNewDay(s), k)
  {
    var polls := LateInNewDay(s);
    LateInNewDayLast(s, k);
    NewDayPolls(s, k);
    DueAfterDay(s, Opens(s), polls[k]);
    TooEarly(s, polls, k);
  }

  // As before, but the report that is late comes after the window on the same day, and the next day's poll
  // comes just as late.
  function LateTwice(s: Schedule): seq<int>
    requires ValidSchedule(s)
  {
    seq(2 * DAY - Window(s), i =>
      if i < DAY then Opens(s) + i
      else if i < 2 * DAY - Window(s) - 1 then Closes(s) + 1 + i
      else 2 * DAY + Closes(s))
  }

  lemma {:induction false} LateTwiceGaps(s: Schedule)
    requires ValidSchedule(s) && s.hour < 21
    ensures Gaps(LateTwice(s), Slack(s) + 1)
  {
  }

  lemma {:induction false} LateTwiceReports(s: Schedule, k: nat)
    requires ValidSchedule(s) && s.hour < 21 && k == DAY
    ensures Reports(s, LateTwice(s), 0) && Reports(s, LateTwice(s), k)
  {
    var polls := LateTwice(s);
    assert polls[0] == Opens(s) && polls[k] == DAY + Closes(s) + 1;
    ReadyInWindow(s, None, Opens(s));
    forall m | 0 < m < k
      ensures !ReadySince(s, Some(Opens(s)), polls[m])
    {
      NotYet(s, Opens(s), polls[m], 0);
    }
    Quiet(s, polls, 0, k);
    ReadyInWindow(s, Some(Opens(s)), DAY + Closes(s) + 1);
  }

  lemma {:induction false} LateTwiceLast(s: Schedule, j: nat, k: nat)
    requires ValidSchedule(s) && s.hour < 21 && j == DAY && k == 2 * DAY - Window(s) - 1
    ensures Last(s, LateTwice(s), k) == Some(DAY + Closes(s) + 1)
  {
    var polls, late := LateTwice(s), DAY + Closes(s) + 1;
    LateTwiceReports(s, j);
    assert polls[j] == late;
    forall m | j < m < k
      ensures !ReadySince(s, Some(late), polls[m])
    {
      NotYet(s, late, polls[m], 1);
    }
    Quiet(s, polls, j, k);
  }

  lemma {:induction false} TooLate(s: Schedule)
    requires ValidSchedule(s) && s.hour < 21
    ensures !ReadySince(s, Some(DAY + Closes(s) + 1), 2 * DAY + Closes(s))
  {
    ReadyInWindow(s, Some(DAY + Closes(s) + 1), 2 * DAY + Closes(s));
  }

  lemma {:induction false} LateTwiceFails(s: Schedule, k: nat)
    requires ValidSchedule(s) && s.hour < 21 && k == 2 * DAY - Window(s) - 1
    ensures !Reports(s, LateTwice(s), k) && FirstOfDay(s, LateTwice(s), k)
  {
    var polls := LateTwice(s);
    LateTwiceLast(s, DAY, k);
    TooLate(s);
    assert polls[k] == 2 * DAY + Closes(s) && polls[k - 1] == 2 * DAY + Opens(s) - 1;
  }

  /** Exactly the poll gaps up to the slack give one report a day at its time. */
  lemma {:induction false} OncePerDayExactly(s: Schedule, g: int)
    requires ValidSchedule(s)
    ensures OncePerDay(s, g) <==> g <= Slack(s)
  {
    if g <= Slack(s) {
      SlackSuffices(s, g);
    } else if s.hour >= 21 {
      LateInNewDayGaps(s);
      LateInNewDayLast(s, DAY);
      LateInNewDayFails(s, DAY);
      assert Gaps(LateInNewDay(s), g);
    } else {
      LateTwiceGaps(s);
      LateTwiceReports(s, DAY);
      LateTwiceFails(s, 2 * DAY - Window(s) - 1);
      assert Gaps(LateTwice(s), g);
    }
  }
}
