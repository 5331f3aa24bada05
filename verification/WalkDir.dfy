/** The walk of a WebDAV storage: one worker per directory lists it and hands its files to the walker
    through a channel without places; a second channel, filled once by the start of the workers and once
    more by the walk, is the barrier. */
module WalkDir {

  type FileInfo = string

  /** `listings[w]` is what worker w reads and passes on: nothing if the directory cannot be read.
      The dialer admits `slots` workers at a time; 0 means any number. */
  datatype Config = Config(listings: seq<seq<FileInfo>>, slots: nat)

  function Dirs(c: Config): nat { |c.listings| }

  // Leaving has taken its token out of the barrier and still holds its dialer slot.
  datatype Worker = Unborn | Waiting | Sending(next: nat) | Leaving | Gone

  datatype Main = Filling(started: nat) | Draining(count: nat) | Returned(ok: bool)

  datatype Item = Item(worker: nat, file: nat)

  /** `tokens` are in the barrier, `pushes` have ever been put there; `delivered` reached the walker. */
  datatype State = State(main: Main, workers: seq<Worker>, tokens: nat, pushes: nat, delivered: seq<Item>)

  datatype Step = Spawn | Push | Acquire(w: nat) | Deliver(w: nat, ok: bool) | Pop(w: nat) | Release(w: nat)

  ghost function InitState(c: Config): State {
    State(Filling(0), seq(Dirs(c), _ => Unborn), 0, 0, [])
  }

  predicate HasPopped(w: Worker) { w.Leaving? || w.Gone? }

  predicate HoldsSlot(w: Worker) { w.Sending? || w.Leaving? }

  function Popped(ws: seq<Worker>): nat {
    if ws == [] then 0 else Popped(ws[..|ws| - 1]) + if HasPopped(ws[|ws| - 1]) then 1 else 0
  }

  function Held(ws: seq<Worker>): nat {
    if ws == [] then 0 else Held(ws[..|ws| - 1]) + if HoldsSlot(ws[|ws| - 1]) then 1 else 0
  }

  predicate Enabled(c: Config, s: State, step: Step) {
    match step
    case Spawn => s.main.Filling? && s.main.started < |s.workers| && s.tokens < Dirs(c)
    case Push => s.main.Draining? && s.tokens < Dirs(c) && s.main.count > 0
    case Acquire(w) => w < |s.workers| && s.workers[w].Waiting? && (c.slots == 0 || Held(s.workers) < c.slots)
    case Deliver(w, _) =>
      && s.main.Draining? && w < |s.workers| && w < Dirs(c)
      && s.workers[w].Sending? && s.workers[w].next < |c.listings[w]|
    case Pop(w) =>
      && w < |s.workers| && w < Dirs(c) && s.tokens > 0
      && s.workers[w].Sending? && s.workers[w].next >= |c.listings[w]|
    case Release(w) => w < |s.workers| && s.workers[w].Leaving?
  }

  function Apply(c: Config, s: State, step: Step): State
    requires Enabled(c, s, step)
  {
    match step
    case Spawn =>
      var n := s.main.started;
      State(if n + 1 == Dirs(c) then Draining(Dirs(c)) else Filling(n + 1),
            s.workers[n := Waiting], s.tokens + 1, s.pushes + 1, s.delivered)
    case Push =>
      s.(main := if s.main.count == 1 then Returned(true) else Draining(s.main.count - 1),
         tokens := s.tokens + 1, pushes := s.pushes + 1)
    case Acquire(w) => s.(workers := s.workers[w := Sending(0)])
    case Deliver(w, ok) =>
      var k := s.workers[w].next;
      s.(main := if ok then s.main else Returned(false),
         workers := s.workers[w := Sending(k + 1)], delivered := s.delivered + [Item(w, k)])
    case Pop(w) => s.(workers := s.workers[w := Leaving], tokens := s.tokens - 1)
    case Release(w) => s.(workers := s.workers[w := Gone])
  }

  ghost function After(c: Config, steps: seq<Step>): (s: State)
    requires ValidRun(c, steps)
    decreases |steps|, 1
  {
    if steps == [] then InitState(c) else
    var n := |steps| - 1;
    Apply(c, After(c, steps[..n]), steps[n])
  }

  ghost predicate ValidRun(c: Config, steps: seq<Step>)
    decreases |steps|, 0
  {
    && Dirs(c) >= 1
    && (steps != [] ==>
      var n := |steps| - 1;
      ValidRun(c, steps[..n]) && Enabled(c, After(c, steps[..n]), steps[n]))
  }

  // ---- counting ----

  lemma {:induction false} PoppedChange(ws: seq<Worker>, i: nat, w: Worker)
    requires i < |ws|
    ensures Popped(ws[i := w])
         == Popped(ws) - (if HasPopped(ws[i]) then 1 else 0) + if HasPopped(w) then 1 else 0
  {
    var n := |ws| - 1;
    if i < n {
      PoppedChange(ws[..n], i, w);
      assert ws[i := w][..n] == ws[..n][i := w];
    } else {
      assert ws[i := w][..n] == ws[..n];
    }
  }

  lemma {:induction false} PoppedBound(ws: seq<Worker>)
    ensures Popped(ws) <= |ws|
    ensures Popped(ws) == |ws| <==> forall i :: 0 <= i < |ws| ==> HasPopped(ws[i])
  {
    if ws != [] {
      var n := |ws| - 1;
      PoppedBound(ws[..n]);
      assert forall i :: 0 <= i < n ==> ws[..n][i] == ws[i];
    }
  }

  lemma {:induction false} NoneHeld(ws: seq<Worker>)
    requires forall i :: 0 <= i < |ws| ==> !HoldsSlot(ws[i])
    ensures Held(ws) == 0
  {
    if ws != [] {
      NoneHeld(ws[..|ws| - 1]);
    }
  }

  // ---- the invariant ----

  // How many of its files a worker has handed over.
  function Sent(w: Worker, listing: seq<FileInfo>): nat {
    if w.Sending? then w.next else if HasPopped(w) then |listing| else 0
  }

  ghost predicate MainInv(c: Config, s: State) {
    match s.main
    case Filling(started) =>
      && started < Dirs(c) && s.pushes == started
      && forall w :: 0 <= w < |s.workers| ==> (s.workers[w].Unborn? <==> w >= started)
    case Draining(count) =>
      && 1 <= count <= Dirs(c) && s.pushes + count == 2 * Dirs(c)
      && forall w :: 0 <= w < |s.workers| ==> !s.workers[w].Unborn?
    case Returned(ok) =>
      && Dirs(c) <= s.pushes && (ok ==> s.pushes == 2 * Dirs(c))
      && forall w :: 0 <= w < |s.workers| ==> !s.workers[w].Unborn?
  }

  ghost predicate Delivered(c: Config, s: State) {
    && |s.workers| == Dirs(c)
    && forall w: nat, k: nat :: w < Dirs(c) ==>
         multiset(s.delivered)[Item(w, k)] == if k < Sent(s.workers[w], c.listings[w]) then 1 else 0
  }

  ghost predicate Inv(c: Config, s: State) {
    && |s.workers| == Dirs(c) >= 1
    && MainInv(c, s)
    && s.tokens + Popped(s.workers) == s.pushes && s.tokens <= Dirs(c)
    && (forall w :: 0 <= w < Dirs(c) && s.workers[w].Sending? ==> s.workers[w].next <= |c.listings[w]|)
    && Delivered(c, s)
  }

  lemma {:induction false} NonePopped(ws: seq<Worker>)
    requires forall i :: 0 <= i < |ws| ==> ws[i].Unborn?
    ensures Popped(ws) == 0
  {
    if ws != [] {
      NonePopped(ws[..|ws| - 1]);
    }
  }

  lemma {:induction false} StepKeepsDelivered(c: Config, s: State, step: Step)
    requires Inv(c, s) && Enabled(c, s, step)
    ensures Delivered(c, Apply(c, s, step))
  {
  }

  // The worker that a step moves, if any.
  function Moves(s: State, step: Step): nat {
    match step
    case Spawn => if s.main.Filling? then s.main.started else 0
    case Push => |s.workers|
    case _ => step.w
  }

  lemma {:induction false} TokensMove(c: Config, s: State, step: Step, w: nat)
    requires Inv(c, s) && Enabled(c, s, step) && w == Moves(s, step)
    ensures var s' := Apply(c, s, step);
      && s'.tokens <= Dirs(c)
      && (w >= |s.workers| ==> s'.workers == s.workers && s'.tokens - s.tokens == s'.pushes - s.pushes)
      && (w < |s.workers| ==>
           && w < |s'.workers| && s'.workers == s.workers[w := s'.workers[w]]
           && s'.tokens - s.tokens == s'.pushes - s.pushes - (if step.Pop? then 1 else 0)
           && (step.Pop? <==> !HasPopped(s.workers[w]) && HasPopped(s'.workers[w]))
           && (HasPopped(s.workers[w]) ==> HasPopped(s'.workers[w])))
  {
  }

  lemma {:induction false} StepKeepsCounts(c: Config, s: State, step: Step)
    requires Inv(c, s) && Enabled(c, s, step)
    ensures var s' := Apply(c, s, step);
      s'.tokens + Popped(s'.workers) == s'.pushes && s'.tokens <= Dirs(c)
  {
    var w, s' := Moves(s, step), Apply(c, s, step);
    TokensMove(c, s, step, w);
    if w < |s.workers| {
      PoppedChange(s.workers, w, s'.workers[w]);
    }
  }

  lemma {:induction false} StepKeepsInv(c: Config, s: State, step: Step)
    requires Inv(c, s) && Enabled(c, s, step)
    ensures Inv(c, Apply(c, s, step))
  {
    StepKeepsDelivered(c, s, step);
    StepKeepsCounts(c, s, step);
  }

  lemma {:induction false} InvHolds(c: Config, steps: seq<Step>)
    requires ValidRun(c, steps)
    ensures Inv(c, After(c, steps))
  {
    if steps == [] {
      NonePopped(InitState(c).workers);
    } else {
      var n := |steps| - 1;
      InvHolds(c, steps[..n]);
      StepKeepsInv(c, After(c, steps[..n]), steps[n]);
    }
  }

  /** When the walk returns nil, in whatever order things happened, every worker is past its last file and
      the walker has seen each listed file exactly once. */
  lemma {:induction false} NilMeansAllDelivered(c: Config, steps: seq<Step>)
    requires ValidRun(c, steps) && After(c, steps).main == Returned(true)
    ensures var s := After(c, steps);
      && |s.workers| == Dirs(c)
      && (forall w :: 0 <= w < Dirs(c) ==> HasPopped(s.workers[w]))
      && (forall w: nat, k: nat :: w < Dirs(c) && k < |c.listings[w]| ==> multiset(s.delivered)[Item(w, k)] == 1)
  {
    InvHolds(c, steps);
    PoppedBound(After(c, steps).workers);
  }

  ghost predicate WalkerFailed(steps: seq<Step>) { exists w :: Deliver(w, false) in steps }

  lemma {:induction false} StepReturns(c: Config, s: State, step: Step)
    requires Enabled(c, s, step)
    ensures Apply(c, s, step).main == Returned(false) <==>
      s.main == Returned(false) || (step.Deliver? && !step.ok)
  {
  }

  /** The walk returns an error exactly if the walker has returned one. */
  lemma {:induction false} FailsExactlyWithWalker(c: Config, steps: seq<Step>)
    requires ValidRun(c, steps)
    ensures After(c, steps).main == Returned(false) <==> WalkerFailed(steps)
  {
    if steps != [] {
      var n := |steps| - 1;
      FailsExactlyWithWalker(c, steps[..n]);
      StepReturns(c, After(c, steps[..n]), steps[n]);
      assert steps == steps[..n] + [steps[n]];
      if steps[n].Deliver? && !steps[n].ok {
        assert Deliver(steps[n].w, false) in steps;
      }
      if WalkerFailed(steps[..n]) {
        var w :| Deliver(w, false) in steps[..n];
        assert Deliver(w, false) in steps;
      }
    }
  }

  // ---- progress ----

  /** Until it returns, the walk or one of its workers can always go on. */
  lemma {:induction false} WalkIsNeverStuck(c: Config, s: State) returns (step: Step)
    requires Inv(c, s) && !s.main.Returned?
    ensures Enabled(c, s, step)
  {
    PoppedBound(s.workers);
    if s.main.Filling? {
      step := Spawn;
    } else if s.tokens < Dirs(c) {
      step := Push;
    } else {
      var w :| 0 <= w < Dirs(c) && !HasPopped(s.workers[w]);
      if v :| 0 <= v < Dirs(c) && s.workers[v].Sending? {
        step := if s.workers[v].next < |c.listings[v]| then Deliver(v, true) else Pop(v);
      } else if v :| 0 <= v < Dirs(c) && s.workers[v].Leaving? {
        step := Release(v);
      } else {
        NoneHeld(s.workers);
        step := Acquire(w);
      }
    }
  }

  function WorkerRank(w: Worker, listing: seq<FileInfo>): nat {
    match w
    case Unborn => |listing| + 4
    case Waiting => |listing| + 3
    case Sending(next) => if next <= |listing| then |listing| - next + 2 else 2
    case Leaving => 1
    case Gone => 0
  }

  function WorkersRank(c: Config, ws: seq<Worker>): nat
    requires |ws| <= Dirs(c)
  {
    if ws == [] then 0 else
    var n := |ws| - 1;
    WorkersRank(c, ws[..n]) + WorkerRank(ws[n], c.listings[n])
  }

  function MainRank(c: Config, m: Main): nat {
    match m
    case Filling(_) => Dirs(c) + 1
    case Draining(count) => count + 1
    case Returned(_) => 0
  }

  function Rank(c: Config, s: State): nat
    requires |s.workers| == Dirs(c)
  {
    WorkersRank(c, s.workers) + MainRank(c, s.main)
  }

  lemma {:induction false} WorkersRankChange(c: Config, ws: seq<Worker>, i: nat, w: Worker)
    requires i < |ws| <= Dirs(c)
    ensures WorkersRank(c, ws[i := w])
         == WorkersRank(c, ws) - WorkerRank(ws[i], c.listings[i]) + WorkerRank(w, c.listings[i])
  {
    var n := |ws| - 1;
    if i < n {
      WorkersRankChange(c, ws[..n], i, w);
      assert ws[i := w][..n] == ws[..n][i := w];
    } else {
      assert ws[i := w][..n] == ws[..n];
    }
  }

  lemma {:induction false} StepIsLocal(c: Config, s: State, step: Step, w: nat)
    requires Inv(c, s) && Enabled(c, s, step) && w == Moves(s, step)
    ensures var s' := Apply(c, s, step);
      && |s'.workers| == |s.workers|
      && MainRank(c, s'.main) <= MainRank(c, s.main)
      && (w >= |s.workers| ==> s'.workers == s.workers && MainRank(c, s'.main) < MainRank(c, s.main))
      && (w < |s.workers| ==>
           && s'.workers == s.workers[w := s'.workers[w]]
           && WorkerRank(s'.workers[w], c.listings[w]) < WorkerRank(s.workers[w], c.listings[w]))
  {
  }

  /** And it returns: every step lowers a rank, so a run has no more steps than the rank of the start. */
  lemma {:induction false} StepLowersRank(c: Config, s: State, step: Step)
    requires Inv(c, s) && Enabled(c, s, step)
    ensures |Apply(c, s, step).workers| == Dirs(c) && Rank(c, Apply(c, s, step)) < Rank(c, s)
  {
    var w, s' := Moves(s, step), Apply(c, s, step);
    StepIsLocal(c, s, step, w);
    if w < |s.workers| {
      WorkersRankChange(c, s.workers, w, s'.workers[w]);
    }
  }

  lemma {:induction false} RunsEnd(c: Config, steps: seq<Step>)
    requires ValidRun(c, steps)
    ensures |After(c, steps).workers| == Dirs(c) && |InitState(c).workers| == Dirs(c)
    ensures Rank(c, After(c, steps)) + |steps| <= Rank(c, InitState(c))
  {
    if steps != [] {
      var n := |steps| - 1;
      RunsEnd(c, steps[..n]);
      InvHolds(c, steps[..n]);
      StepLowersRank(c, After(c, steps[..n]), steps[n]);
    }
  }

  // ---- a walker that fails ----

  /** Once the walk has returned, a worker takes its leave exactly if it has no file left; with one left it
      keeps its dialer slot whatever else happens. */
  lemma {:induction false} LeftoverBlocksWorker(c: Config, s: State, step: Step, w: nat)
    requires Inv(c, s) && s.main.Returned? && w < Dirs(c) && s.workers[w].Sending?
    requires Enabled(c, s, step)
    ensures Apply(c, s, step).main == s.main
    ensures s.workers[w].next < |c.listings[w]| ==> Apply(c, s, step).workers[w] == s.workers[w]
    ensures s.workers[w].next == |c.listings[w]| ==> Enabled(c, s, Pop(w))
  {
    PoppedBound(s.workers);
  }

  // ---- the slots that are never given back ----

  predicate HasLeftover(w: Worker, listing: seq<FileInfo>) { Sent(w, listing) < |listing| }

  /** The workers that have files left. */
  function Leftovers(c: Config, ws: seq<Worker>): nat
    requires |ws| <= Dirs(c)
  {
    if ws == [] then 0 else
    var n := |ws| - 1;
    Leftovers(c, ws[..n]) + if HasLeftover(ws[n], c.listings[n]) then 1 else 0
  }

  lemma {:induction false} LeftoversSame(c: Config, ws: seq<Worker>, i: nat, w: Worker)
    requires i < |ws| <= Dirs(c) && HasLeftover(w, c.listings[i]) == HasLeftover(ws[i], c.listings[i])
    ensures Leftovers(c, ws[i := w]) == Leftovers(c, ws)
  {
    var n := |ws| - 1;
    if i < n {
      LeftoversSame(c, ws[..n], i, w);
      assert ws[i := w][..n] == ws[..n][i := w];
    } else {
      assert ws[i := w][..n] == ws[..n];
    }
  }

  /** Once the walk has returned nobody takes their files. */
  lemma {:induction false} LeftoversStay(c: Config, s: State, step: Step)
    requires Inv(c, s) && s.main.Returned? && Enabled(c, s, step)
    ensures var s' := Apply(c, s, step);
      s'.main == s.main && |s'.workers| == Dirs(c) && Leftovers(c, s'.workers) == Leftovers(c, s.workers)
  {
    var w, s' := Moves(s, step), Apply(c, s, step);
    StepIsLocal(c, s, step, w);
    LeftoversSame(c, s.workers, w, s'.workers[w]);
  }

  lemma {:induction false} HeldChange(ws: seq<Worker>, i: nat, w: Worker)
    requires i < |ws|
    ensures Held(ws[i := w]) == Held(ws) - (if HoldsSlot(ws[i]) then 1 else 0) + if HoldsSlot(w) then 1 else 0
  {
    var n := |ws| - 1;
    if i < n {
      HeldChange(ws[..n], i, w);
      assert ws[i := w][..n] == ws[..n][i := w];
    } else {
      assert ws[i := w][..n] == ws[..n];
    }
  }

  /** A worker takes a dialer slot when it begins and gives it back when it leaves, after its last token. */
  lemma {:induction false} SlotsMove(c: Config, s: State, step: Step)
    requires Inv(c, s) && Enabled(c, s, step)
    ensures Held(Apply(c, s, step).workers)
      == Held(s.workers) + (if step.Acquire? then 1 else if step.Release? then -1 else 0)
  {
    var w, s' := Moves(s, step), Apply(c, s, step);
    StepIsLocal(c, s, step, w);
    if w < |s.workers| {
      HeldChange(s.workers, w, s'.workers[w]);
    }
  }

  lemma {:induction false} StepKeepsSlots(c: Config, s: State, step: Step)
    requires Inv(c, s) && Enabled(c, s, step) && (c.slots > 0 ==> Held(s.workers) <= c.slots)
    ensures c.slots > 0 ==> Held(Apply(c, s, step).workers) <= c.slots
  {
    SlotsMove(c, s, step);
  }

  lemma {:induction false} SlotsSuffice(c: Config, steps: seq<Step>)
    requires ValidRun(c, steps)
    ensures c.slots > 0 ==> Held(After(c, steps).workers) <= c.slots
  {
    if steps == [] {
      NoneHeld(InitState(c).workers);
    } else {
      var n := |steps| - 1;
      SlotsSuffice(c, steps[..n]);
      InvHolds(c, steps[..n]);
      StepKeepsSlots(c, After(c, steps[..n]), steps[n]);
    }
  }

  ghost predicate Settled(w: Worker, listing: seq<FileInfo>) {
    w.Gone? || w.Waiting? || (w.Sending? && w.next < |listing|)
  }

  lemma {:induction false} HeldAreLeftovers(c: Config, ws: seq<Worker>)
    requires |ws| <= Dirs(c) && forall w :: 0 <= w < |ws| ==> Settled(ws[w], c.listings[w])
    ensures Held(ws) <= Leftovers(c, ws)
    ensures (forall w :: 0 <= w < |ws| ==> !ws[w].Waiting?) ==> Held(ws) == Leftovers(c, ws)
  {
    if ws != [] {
      var n := |ws| - 1;
      assert forall w :: 0 <= w < n ==> ws[..n][w] == ws[w];
      HeldAreLeftovers(c, ws[..n]);
    }
  }

  lemma {:induction false} OverIsSettled(c: Config, s: State, w: nat)
    requires Inv(c, s) && s.main.Returned? && w < Dirs(c)
    requires forall step :: !Enabled(c, s, step)
    ensures Settled(s.workers[w], c.listings[w])
    ensures s.workers[w].Waiting? ==> c.slots > 0 && Held(s.workers) >= c.slots
  {
    PoppedBound(s.workers);
    assert !Enabled(c, s, Acquire(w)) && !Enabled(c, s, Release(w)) && !Enabled(c, s, Pop(w));
  }

  /** When the walk has returned and nothing moves any more, one dialer slot is held for good for each worker
      that had files left at the return, all of the slots if there are no more of them; so every later use of
      the dialer waits forever exactly if the leftovers are no fewer than the slots. */
  lemma {:induction false} SlotsLostExactly(c: Config, steps: seq<Step>, more: seq<Step>)
    requires ValidRun(c, steps) && After(c, steps).main.Returned?
    requires ValidRun(c, steps + more) && forall step :: !Enabled(c, After(c, steps + more), step)
    ensures |After(c, steps).workers| == Dirs(c)
    ensures var left, held := Leftovers(c, After(c, steps).workers), Held(After(c, steps + more).workers);
      && held == (if c.slots == 0 || left <= c.slots then left else c.slots)
      && (c.slots > 0 ==> (held == c.slots <==> left >= c.slots))
  {
    LeftoversKept(c, steps, more);
    var s := After(c, steps + more);
    InvHolds(c, steps + more);
    SlotsSuffice(c, steps + more);
    forall w: nat | w < Dirs(c)
      ensures Settled(s.workers[w], c.listings[w])
      ensures s.workers[w].Waiting? ==> c.slots > 0 && Held(s.workers) >= c.slots
    {
      OverIsSettled(c, s, w);
    }
    HeldAreLeftovers(c, s.workers);
  }

  lemma {:induction false} LeftoversKept(c: Config, steps: seq<Step>, more: seq<Step>)
    requires ValidRun(c, steps) && After(c, steps).main.Returned? && ValidRun(c, steps + more)
    ensures |After(c, steps).workers| == |After(c, steps + more).workers| == Dirs(c)
    ensures After(c, steps + more).main.Returned?
    ensures Leftovers(c, After(c, steps + more).workers) == Leftovers(c, After(c, steps).workers)
  {
    InvHolds(c, steps);
    if more == [] {
      assert steps + more == steps;
    } else {
      var n := |more| - 1;
      var all := steps + more;
      assert all[..|all| - 1] == steps + more[..n];
      LeftoversKept(c, steps, more[..n]);
      InvHolds(c, steps + more[..n]);
      LeftoversStay(c, After(c, steps + more[..n]), all[|all| - 1]);
    }
  }

  /** It happens: two files in one directory, and a walker that fails on the first. */
  lemma {:induction false} FailedWalkLeavesWorker(a: FileInfo, b: FileInfo)
    ensures var c := Config([[a, b]], 1); var steps := [Spawn, Acquire(0), Deliver(0, false)];
      && ValidRun(c, steps) && After(c, steps).main == Returned(false)
      && After(c, steps).workers == [Sending(1)] && Held(After(c, steps).workers) == c.slots
  {
    var c := Config([[a, b]], 1);
    var steps := [Spawn, Acquire(0), Deliver(0, false)];
    assert steps[..2] == [Spawn, Acquire(0)] && steps[..2][..1] == [Spawn] && steps[..1][..0] == [];
    assert After(c, []).workers == [Unborn];
    assert After(c, [Spawn]) == State(Draining(1), [Waiting], 1, 1, []);
    assert [Waiting][..0] == [] && Held([Waiting]) == 0;
    assert After(c, [Spawn, Acquire(0)]) == State(Draining(1), [Sending(0)], 1, 1, []);
    assert [Sending(1)][..0] == [];
  }
}
