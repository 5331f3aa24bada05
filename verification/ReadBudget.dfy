/** The read side of the rate controller: a read reserves bytes of the window's budget before it
    starts and gives back afterwards what it did not use. */
module ReadBudget {
  import opened Common

  /** The controller's fields for reading; times are in nanoseconds. */
  datatype Window = Window(rate: int, minRate: int, lastRead: int, preRead: int, read: int)

  // The rate divided among the open connections.
  function Average(rate: int, conns: nat): int
    requires rate >= 0
  {
    if conns > 0 then rate / conns else rate
  }

  function Opened(w: Window, now: int): Window {
    if SECOND - (now - w.lastRead) <= 0 then w.(lastRead := now, preRead := 0, read := 0) else w
  }

  /** What preRead does: the new window, and how many bytes may be read. */
  function Reserved(w: Window, n: int, conns: nat, now: int): (Window, int) {
    if n <= 0 || w.rate <= 0 then (w, n) else
    var n' := Min(n, Average(w.rate, conns));
    var w' := Opened(w, now);
    if w'.preRead >= w'.rate then (w', Min(w.minRate, n')) else (w'.(preRead := w'.preRead + n'), n')
  }

  /** What afterRead does with n bytes read and `less` not: the new window, and the time to wait. */
  function Returned(w: Window, n: int, less: int, conns: nat, now: int): (Window, int) {
    if w.rate <= 0 then (w, 0) else
    var avg, diff := Average(w.rate, conns), SECOND - (now - w.lastRead);
    var n' := Min(if n < 0 then 0 else n, avg);
    var w' := if diff <= 0 then w.(lastRead := now, preRead := 0, read := n')
              else w.(preRead := w.preRead - less, read := w.read + n');
    (w', if n' >= avg then SECOND else if w'.read >= w.rate then diff else 0)
  }

  class ReadController {
    const readRate: int
    const minReadRate: int
    var lastRead: int
    var preReadCount: int
    var readCount: int

    ghost function State(): Window
      reads this
    {
      Window(readRate, minReadRate, lastRead, preReadCount, readCount)
    }

    constructor (readRate: int, minReadRate: int)
      ensures State() == Window(readRate, minReadRate, -SECOND, 0, 0)
    {
      this.readRate, this.minReadRate := readRate, minReadRate;
      lastRead, preReadCount, readCount := -SECOND, 0, 0;
    }

    method PreRead(n: int, conns: nat, now: int) returns (m: int)
      modifies this
      ensures (State(), m) == Reserved(old(State()), n, conns, now)
    {
      if n <= 0 {
        return n;
      }
      if readRate <= 0 {
        return n;
      }
      var avgRate := readRate;
      if conns > 0 {
        avgRate := avgRate / conns;
      }
      m := n;
      if m > avgRate {
        m := avgRate;
      }
      if SECOND - (now - lastRead) <= 0 {
        lastRead, preReadCount, readCount := now, 0, 0;
      }
      if preReadCount >= readRate {
        return if minReadRate > m then m else minReadRate;
      }
      preReadCount := preReadCount + m;
    }

    method AfterRead(n: int, less: int, conns: nat, now: int) returns (wait: int)
      modifies this
      ensures (State(), wait) == Returned(old(State()), n, less, conns, now)
    {
      if readRate <= 0 {
        return 0;
      }
      var got, avgRate := n, readRate;
      if got < 0 {
        got := 0;
      }
      if conns > 0 {
        avgRate := avgRate / conns;
      }
      if got > avgRate {
        got := avgRate;
      }
      var diff := SECOND - (now - lastRead);
      if diff <= 0 {
        lastRead, preReadCount, readCount := now, 0, got;
      } else {
        preReadCount, readCount := preReadCount - less, readCount + got;
      }
      if got >= avgRate {
        return SECOND;
      }
      return if readCount >= readRate then diff else 0;
    }
  }

  // ---- Whole runs ----

  datatype Outcome = Pending | Got(bytes: int, window: nat, opener: bool)

  /** A read: how many bytes it may take, in which window it asked, whether they were charged to the
      budget, and how it came out. */
  datatype Read = Read(m: int, window: nat, charged: bool, outcome: Outcome)

  /** `window` counts the windows that have begun. */
  datatype World = World(win: Window, clock: int, window: nat, asked: seq<Read>)

  datatype Step = Ask(n: int, conns: nat, now: int) | Finish(i: nat, bytes: int, conns: nat, now: int)

  function Start(rate: int, minRate: int): World { World(Window(rate, minRate, -SECOND, 0, 0), 0, 0, []) }

  predicate Opens(w: World, now: int) { now - w.win.lastRead >= SECOND }

  predicate Admissible(w: World, step: Step) {
    && step.now >= w.clock
    && match step
       case Ask(n, _, _) => n > 0
       case Finish(i, bytes, _, _) => i < |w.asked| && w.asked[i].outcome.Pending? && 0 <= bytes <= w.asked[i].m
  }

  function Next(w: World, step: Step): World
    requires Admissible(w, step)
  {
    var opens := Opens(w, step.now);
    var window := if opens then w.window + 1 else w.window;
    match step
    case Ask(n, conns, now) =>
      var (win, m) := Reserved(w.win, n, conns, now);
      World(win, now, window, w.asked + [Read(m, window, opens || w.win.preRead < w.win.rate, Pending)])
    case Finish(i, bytes, conns, now) =>
      var read := w.asked[i];
      World(Returned(w.win, bytes, read.m - bytes, conns, now).0, now, window,
            w.asked[i := read.(outcome := Got(bytes, window, opens))])
  }

  /** What a read holds of the budget of window k: its reservation, later what it took. */
  function Holds(r: Read, k: nat): int {
    if !r.charged || r.window != k then 0
    else if r.outcome.Got? && r.outcome.window == k && !r.outcome.opener then r.outcome.bytes else r.m
  }

  /** What a read gave back to window k without having been charged to it: it had asked in an earlier
      window, or found the budget spent and got the minimum. */
  function Strays(r: Read, k: nat): int {
    if r.outcome.Got? && r.outcome.window == k && !r.outcome.opener && !(r.charged && r.window == k)
    then r.m - r.outcome.bytes else 0
  }

  function Held(asked: seq<Read>, k: nat): int {
    if asked == [] then 0 else Held(asked[..|asked| - 1], k) + Holds(asked[|asked| - 1], k)
  }

  function Stray(asked: seq<Read>, k: nat): int {
    if asked == [] then 0 else Stray(asked[..|asked| - 1], k) + Strays(asked[|asked| - 1], k)
  }

  lemma {:induction false} SumsChange(asked: seq<Read>, i: nat, r: Read, k: nat)
    requires i < |asked|
    ensures Held(asked[i := r], k) == Held(asked, k) - Holds(asked[i], k) + Holds(r, k)
    ensures Stray(asked[i := r], k) == Stray(asked, k) - Strays(asked[i], k) + Strays(r, k)
  {
    var n := |asked| - 1;
    if i < n {
      SumsChange(asked[..n], i, r, k);
      assert asked[i := r][..n] == asked[..n][i := r];
    } else {
      assert asked[i := r][..n] == asked[..n];
    }
  }

  predicate ReadOk(r: Read, window: nat) {
    && r.m >= 0 && r.window <= window
    && (r.outcome.Got? ==> 0 <= r.outcome.bytes <= r.m && r.outcome.window <= window)
  }

  lemma {:induction false} NothingYet(asked: seq<Read>, k: nat)
    requires k > 0 && forall i :: 0 <= i < |asked| ==> ReadOk(asked[i], k - 1)
    ensures Held(asked, k) == 0 && Stray(asked, k) == 0
  {
    if asked != [] {
      NothingYet(asked[..|asked| - 1], k);
      assert ReadOk(asked[|asked| - 1], k - 1);
    }
  }

  lemma {:induction false} SumsNotNegative(asked: seq<Read>, window: nat, k: nat)
    requires forall i :: 0 <= i < |asked| ==> ReadOk(asked[i], window)
    ensures Held(asked, k) >= 0 && Stray(asked, k) >= 0
  {
    if asked != [] {
      SumsNotNegative(asked[..|asked| - 1], window, k);
      assert ReadOk(asked[|asked| - 1], window);
    }
  }

  ghost predicate Inv(w: World) {
    && w.win.rate > 0 && w.win.minRate >= 0
    && (forall i :: 0 <= i < |w.asked| ==> ReadOk(w.asked[i], w.window))
    && (forall i :: 0 <= i < |w.asked| && !w.asked[i].charged ==> w.asked[i].m <= w.win.minRate)
    && w.win.preRead == Held(w.asked, w.window) - Stray(w.asked, w.window)
    && w.win.preRead <= 2 * w.win.rate - 1
  }

  lemma {:induction false} AtLeastOnce(n: int, q: int)
    requires n >= 1 && q >= 0
    ensures n * q >= q
  {
    assert (n - 1) * q >= 0;
  }

  lemma {:induction false} AverageBound(rate: int, conns: nat)
    requires rate >= 0
    ensures 0 <= Average(rate, conns) <= rate
  {
    if conns > 0 {
      AtLeastOnce(conns, rate / conns);
    }
  }

  lemma {:induction false} AskKeepsInv(w: World, step: Step)
    requires Inv(w) && Admissible(w, step) && step.Ask?
    ensures Inv(Next(w, step))
  {
    var w' := Next(w, step);
    var r := w'.asked[|w.asked|];
    AverageBound(w.win.rate, step.conns);
    assert w'.asked[..|w.asked|] == w.asked;
    if Opens(w, step.now) {
      NothingYet(w.asked, w'.window);
    }
  }

  lemma {:induction false} FinishKeepsInv(w: World, step: Step)
    requires Inv(w) && Admissible(w, step) && step.Finish?
    ensures Inv(Next(w, step))
  {
    var w' := Next(w, step);
    var i := step.i;
    assert ReadOk(w.asked[i], w.window);
    SumsChange(w.asked, i, w'.asked[i], w'.window);
    if Opens(w, step.now) {
      NothingYet(w.asked, w'.window);
    }
  }

  ghost predicate IsRun(run: seq<World>, steps: seq<Step>, rate: int, minRate: int) {
    && |run| == |steps| + 1 && run[0] == Start(rate, minRate)
    && forall k :: 0 <= k < |steps| ==> Admissible(run[k], steps[k]) && run[k + 1] == Next(run[k], steps[k])
  }

  lemma {:induction false} InvHolds(run: seq<World>, steps: seq<Step>, rate: int, minRate: int, k: nat)
    requires IsRun(run, steps, rate, minRate) && rate > 0 && minRate >= 0 && k < |run|
    ensures Inv(run[k]) && run[k].win.rate == rate && run[k].win.minRate == minRate
  {
    if k > 0 {
      InvHolds(run, steps, rate, minRate, k - 1);
      if steps[k - 1].Ask? {
        AskKeepsInv(run[k - 1], steps[k - 1]);
      } else {
        FinishKeepsInv(run[k - 1], steps[k - 1]);
      }
    }
  }

  /** The count is what the reads of the window hold less what was given back to it by reads that it had not
      charged; it is negative exactly when these gave back more than the others hold. They never hold more
      than 2 * rate - 1 bytes and what was so given back. */
  lemma {:induction false} ReservationsBalance(run: seq<World>, steps: seq<Step>, rate: int, minRate: int, k: nat)
    requires IsRun(run, steps, rate, minRate) && rate > 0 && minRate >= 0 && k < |run|
    ensures var w := run[k]; var held, stray := Held(w.asked, w.window), Stray(w.asked, w.window);
      && held >= 0 && stray >= 0 && w.win.preRead == held - stray
      && (w.win.preRead < 0 <==> held < stray)
      && held <= 2 * rate - 1 + stray
  {
    InvHolds(run, steps, rate, minRate, k);
    SumsNotNegative(run[k].asked, run[k].window, run[k].window);
  }

  // ---- what a read is granted, and when it must wait ----

  /** The share is the rate divided evenly among the connections that are counted, or all of it. */
  lemma {:induction false} ShareIs(rate: int, conns: nat)
    requires rate >= 0
    ensures if conns == 0 then Average(rate, conns) == rate
      else conns * Average(rate, conns) <= rate < conns * Average(rate, conns) + conns
  {
  }

  /** A read reserves what it asks for up to its connection's share, or gets at most the minimum if the window's
      budget is spent; without a rate it gets all. */
  lemma {:induction false} ReserveExactly(w: Window, n: int, conns: nat, now: int)
    ensures var (w', m) := Reserved(w, n, conns, now);
      var opens := now - w.lastRead >= SECOND;
      if n <= 0 || w.rate <= 0 then w' == w && m == n
      else
        && w' == w.(lastRead := w'.lastRead, preRead := w'.preRead, read := if opens then 0 else w.read)
        && w'.lastRead == (if opens then now else w.lastRead)
        && if opens || w.preRead < w.rate
           then m == Min(n, Average(w.rate, conns)) && w'.preRead == (if opens then 0 else w.preRead) + m
           else m == Min(w.minRate, Min(n, Average(w.rate, conns))) && w'.preRead == w.preRead
  {
  }

  /** After a read of its whole share a connection waits a second; after a smaller one it waits for the end of
      the window exactly if the bytes read in it have reached the rate, and otherwise not at all. */
  lemma {:induction false} WaitExactly(w: Window, bytes: int, less: int, conns: nat, now: int)
    ensures var (w', wait), n := Returned(w, bytes, less, conns, now), if bytes > 0 then bytes else 0;
      if w.rate <= 0 then w' == w && wait == 0
      else
        var opens, share := now - w.lastRead >= SECOND, Average(w.rate, conns);
        && w'.lastRead == (if opens then now else w.lastRead)
        && w'.preRead == (if opens then 0 else w.preRead - less)
        && w'.read == (if opens then 0 else w.read) + Min(n, share)
        && (n >= share ==> wait == SECOND)
        && (n < share && !opens ==> now + wait == if w'.read >= w.rate then w.lastRead + SECOND else now)
        && (n < share && opens ==> wait == 0)
  {
    AverageBoundAny(w.rate, conns);
  }

  lemma {:induction false} AverageBoundAny(rate: int, conns: nat)
    ensures rate > 0 ==> 0 <= Average(rate, conns) <= rate
  {
    if rate > 0 {
      AverageBound(rate, conns);
    }
  }

  /** Every read may end, at any later time, with any number of the bytes that it was allowed. */
  lemma {:induction false} EveryReadMayEnd(w: World, i: nat, bytes: int, conns: nat, now: int)
    requires i < |w.asked| && w.asked[i].outcome.Pending? && now >= w.clock
    ensures Admissible(w, Finish(i, bytes, conns, now)) <==> 0 <= bytes && bytes <= w.asked[i].m
    ensures forall n: int :: Admissible(Start(w.win.rate, w.win.minRate), Ask(n, conns, 0)) <==> n > 0
  {
  }

  // ---- the bytes read in a window ----

  /** What a read has taken in window k, where it ended. */
  function Taken(r: Read, k: nat): int { if r.outcome.Got? && r.outcome.window == k then r.outcome.bytes else 0 }

  /** What a read that ended in window k had been allowed without being charged to it. */
  function Free(r: Read, k: nat): int {
    if r.outcome.Got? && r.outcome.window == k && !(r.charged && r.window == k && !r.outcome.opener) then r.m else 0
  }

  function AllTaken(asked: seq<Read>, k: nat): int {
    if asked == [] then 0 else AllTaken(asked[..|asked| - 1], k) + Taken(asked[|asked| - 1], k)
  }

  function AllFree(asked: seq<Read>, k: nat): int {
    if asked == [] then 0 else AllFree(asked[..|asked| - 1], k) + Free(asked[|asked| - 1], k)
  }

  lemma {:induction false} TakenByHeld(asked: seq<Read>, window: nat, k: nat)
    requires forall i :: 0 <= i < |asked| ==> ReadOk(asked[i], window)
    ensures AllTaken(asked, k) <= Held(asked, k) - Stray(asked, k) + AllFree(asked, k)
  {
    if asked != [] {
      TakenByHeld(asked[..|asked| - 1], window, k);
      assert ReadOk(asked[|asked| - 1], window);
    }
  }

  lemma {:induction false} TakenChange(asked: seq<Read>, i: nat, r: Read, k: nat)
    requires i < |asked|
    ensures AllTaken(asked[i := r], k) == AllTaken(asked, k) - Taken(asked[i], k) + Taken(r, k)
    ensures AllFree(asked[i := r], k) == AllFree(asked, k) - Free(asked[i], k) + Free(r, k)
  {
    var n := |asked| - 1;
    if i < n {
      TakenChange(asked[..n], i, r, k);
      assert asked[i := r][..n] == asked[..n][i := r];
    } else {
      assert asked[i := r][..n] == asked[..n];
    }
  }

  ghost predicate Within(w: World, k: nat) {
    AllTaken(w.asked, k) <= 2 * w.win.rate - 1 + AllFree(w.asked, k)
  }

  lemma {:induction false} StepKeepsWithin(w: World, step: Step, k: nat)
    requires Inv(w) && Admissible(w, step) && Inv(Next(w, step)) && Within(w, k)
    ensures Within(Next(w, step), k)
  {
    var w' := Next(w, step);
    if k == w'.window {
      TakenByHeld(w'.asked, w'.window, k);
    } else if step.Ask? {
      assert w'.asked[..|w.asked|] == w.asked;
    } else {
      TakenChange(w.asked, step.i, w'.asked[step.i], k);
    }
  }

  /** Over every run the bytes that reads take in a window in which they end are at most 2R-1 and what was
      allowed to the reads that it had not charged: late ones and those that got the minimum. */
  lemma {:induction false} WindowReads(run: seq<World>, steps: seq<Step>, rate: int, minRate: int, k: nat, window: nat)
    requires IsRun(run, steps, rate, minRate) && rate > 0 && minRate >= 0 && k < |run|
    ensures AllTaken(run[k].asked, window) <= 2 * rate - 1 + AllFree(run[k].asked, window)
  {
    InvHolds(run, steps, rate, minRate, k);
    if k > 0 {
      WindowReads(run, steps, rate, minRate, k - 1, window);
      InvHolds(run, steps, rate, minRate, k - 1);
      StepKeepsWithin(run[k - 1], steps[k - 1], window);
    }
  }

  // ---- when the count becomes negative ----

  /** No read ended in a later window than the one it asked in, unless it opened that window. */
  ghost predicate Timely(asked: seq<Read>) {
    forall i :: 0 <= i < |asked| && asked[i].outcome.Got? ==>
      asked[i].outcome.opener || asked[i].outcome.window == asked[i].window
  }

  /** Some run ends with a negative count. */
  ghost predicate MayTurnNegative(rate: int, minRate: int, timely: bool) {
    exists run: seq<World>, steps: seq<Step> :: IsRun(run, steps, rate, minRate) && run[|steps|].win.preRead < 0
                         && Timely(run[|steps|].asked) == timely
  }

  lemma {:induction false} NothingAstray(asked: seq<Read>, window: nat)
    requires Timely(asked)
    requires forall i :: 0 <= i < |asked| ==> ReadOk(asked[i], window) && (asked[i].charged || asked[i].m == 0)
    ensures Stray(asked, window) == 0
  {
    if asked != [] {
      var n := |asked| - 1;
      assert forall i :: 0 <= i < n ==> asked[..n][i] == asked[i];
      NothingAstray(asked[..n], window);
      assert ReadOk(asked[n], window);
    }
  }

  lemma {:induction false} TimelyWithoutMinimum(run: seq<World>, steps: seq<Step>, rate: int)
    requires IsRun(run, steps, rate, 0) && rate > 0 && Timely(run[|steps|].asked)
    ensures run[|steps|].win.preRead >= 0
  {
    var w := run[|steps|];
    InvHolds(run, steps, rate, 0, |steps|);
    assert forall i :: 0 <= i < |w.asked| ==> ReadOk(w.asked[i], w.window);
    NothingAstray(w.asked, w.window);
    SumsNotNegative(w.asked, w.window, w.window);
  }

  // Without a limit on the connections none are counted. A reader takes the whole budget, another one the
  // minimum, and both get nothing.
  ghost function Spent(rate: int): seq<Step> { [Ask(rate, 0, 0), Ask(1, 0, 0), Finish(0, 0, 0, 0), Finish(1, 0, 0, 0)] }

  ghost function SpentRun(rate: int, minRate: int): seq<World> {
    var a, b := Read(rate, 1, true, Pending), Read(1, 1, false, Pending);
    var a', b' := a.(outcome := Got(0, 1, false)), b.(outcome := Got(0, 1, false));
    [Start(rate, minRate),
     World(Window(rate, minRate, 0, rate, 0), 0, 1, [a]),
     World(Window(rate, minRate, 0, rate, 0), 0, 1, [a, b]),
     World(Window(rate, minRate, 0, 0, 0), 0, 1, [a', b]),
     World(Window(rate, minRate, 0, -1, 0), 0, 1, [a', b'])]
  }

  lemma {:induction false} SpentTurnsNegative(rate: int, minRate: int)
    requires rate > 0 && minRate > 0
    ensures MayTurnNegative(rate, minRate, true)
  {
    var run, steps := SpentRun(rate, minRate), Spent(rate);
    assert Admissible(run[0], steps[0]) && run[1] == Next(run[0], steps[0]);
    assert Admissible(run[1], steps[1]) && run[2] == Next(run[1], steps[1]);
    assert Admissible(run[2], steps[2]) && run[3] == Next(run[2], steps[2]);
    assert Admissible(run[3], steps[3]) && run[4] == Next(run[3], steps[3]);
    assert IsRun(run, steps, rate, minRate) && Timely(run[4].asked);
  }

  // The first read comes back empty in the second window, in which another one has asked.
  ghost function Late(rate: int): seq<Step> {
    [Ask(rate, 0, 0), Ask(1, 0, SECOND), Finish(1, 0, 0, SECOND), Finish(0, 0, 0, SECOND)]
  }

  ghost function LateRun(rate: int, minRate: int): seq<World> {
    var a, b := Read(rate, 1, true, Pending), Read(1, 2, true, Pending);
    var a', b' := a.(outcome := Got(0, 2, false)), b.(outcome := Got(0, 2, false));
    [Start(rate, minRate),
     World(Window(rate, minRate, 0, rate, 0), 0, 1, [a]),
     World(Window(rate, minRate, SECOND, 1, 0), SECOND, 2, [a, b]),
     World(Window(rate, minRate, SECOND, 0, 0), SECOND, 2, [a, b']),
     World(Window(rate, minRate, SECOND, -rate, 0), SECOND, 2, [a', b'])]
  }

  lemma {:induction false} LateTurnsNegative(rate: int, minRate: int)
    requires rate > 0 && minRate >= 0
    ensures MayTurnNegative(rate, minRate, false)
  {
    var run, steps := LateRun(rate, minRate), Late(rate);
    assert Admissible(run[0], steps[0]) && run[1] == Next(run[0], steps[0]);
    assert Admissible(run[1], steps[1]) && run[2] == Next(run[1], steps[1]);
    assert Admissible(run[2], steps[2]) && run[3] == Next(run[2], steps[2]);
    assert Admissible(run[3], steps[3]) && run[4] == Next(run[3], steps[3]);
    assert run[4].asked[0] == Read(rate, 1, true, Got(0, 2, false));
    assert IsRun(run, steps, rate, minRate) && !Timely(run[4].asked);
  }

  /** With every rate a read that outlives its window can make the count negative; without such a read this
      can happen exactly if there is a minimum to be granted. */
  lemma {:induction false} ReservationsMayTurnNegative(rate: int, minRate: int)
    requires rate > 0 && minRate >= 0
    ensures MayTurnNegative(rate, minRate, false)
    ensures MayTurnNegative(rate, minRate, true) <==> minRate > 0
  {
    LateTurnsNegative(rate, minRate);
    if minRate > 0 {
      SpentTurnsNegative(rate, minRate);
    } else {
      forall run: seq<World>, steps: seq<Step> | IsRun(run, steps, rate, minRate) && Timely(run[|steps|].asked)
        ensures run[|steps|].win.preRead >= 0
      {
        TimelyWithoutMinimum(run, steps, rate);
      }
    }
  }
}
