/** The download pipeline of a sync: a fetcher and a writer per missing file share the buffer
    slots, and each file is reported once through a channel of one place. */
module SyncPipeline {
  import opened BufSlots
  import opened Common

  /** `targets[i]` lists the storages that lack file i; `size` is the number of slots. */
  datatype Config = Config(size: nat, storages: nat, targets: seq<seq<nat>>)

  ghost predicate ValidConfig(c: Config) {
    c.size >= 1 && c.storages >= 1 && |c.targets| >= 1
  }

  const MAX_TRIES := 5

  datatype Fetcher = FetchIdle | Fetching(attempt: nat) | Posted | FetchDone

  // The one-place channel from a fetcher to its writer.
  datatype PathChan = Open | Path | Closed | Taken

  datatype Writer =
    | WriteIdle | Waiting | ReportNil | Queueing | Opening
    | Writing(next: nat, failed: seq<nat>)
    | Sending(failed: seq<nat>)
    | Leaving(freed: bool)
    | WriteDone

  /** One file's two goroutines, the slots they hold, and what has happened to the file:
      copies made, copies skipped on a seek error, the report sent or lost. */
  datatype File = File(
    fetcher: Fetcher, path: PathChan, writer: Writer, fslot: int, wslot: int,
    stored: set<nat>, skipped: set<nat>, sent: bool, lost: bool)

  const IDLE_FILE := File(FetchIdle, Open, WriteIdle, NONE, NONE, {}, {}, false, false)

  datatype Report = Report(file: nat, fetched: bool, failed: seq<nat>)

  datatype Main = Starting | Collecting | Returned(ok: bool)

  datatype State = State(
    main: Main, started: nat, cancelled: bool, free: seq<int>, files: seq<File>,
    done: seq<Report>, received: seq<Report>, broken: set<nat>)

  datatype WriteResult = Created | CreateFailed | SeekFailed

  // A step of one of the goroutines of a file.
  datatype Local =
    | FetchOk | FetchFail | FetchAbort | FetchFree
    | TakePath | SendNil | AllocSlot | OpenOk | OpenFail | WriteNext(result: WriteResult)
    | FreeEarly | Send | Leave | GiveUp

  datatype Step = Start | Receive | Interrupt | Cancel | At(i: nat, local: Local)

  function Files(c: Config): nat { |c.targets| }

  ghost function InitState(c: Config): State {
    State(Starting, 0, false, seq(c.size, i => i), seq(Files(c), _ => IDLE_FILE), [], [], {})
  }

  // ---- One file ----

  predicate Permitted(f: File, targets: seq<nat>, local: Local, cancelled: bool) {
    match local
    case FetchOk => f.fetcher.Fetching?
    case FetchFail => f.fetcher.Fetching?
    case FetchAbort => f.fetcher.Fetching? && cancelled
    case FetchFree => f.fetcher.Posted?
    case TakePath => f.writer.Waiting? && (f.path.Path? || f.path.Closed?)
    case SendNil => f.writer.ReportNil?
    case AllocSlot => f.writer.Queueing?
    case OpenOk => f.writer.Opening?
    case OpenFail => f.writer.Opening?
    case WriteNext(_) => f.writer.Writing? && f.writer.next < |targets|
    case FreeEarly => f.writer.Writing? && f.writer.next >= |targets|
    case Send => f.writer.Sending?
    case Leave => f.writer.Leaving?
    case GiveUp => cancelled && (f.writer.Waiting? || f.writer.ReportNil? || f.writer.Queueing? || f.writer.Sending?)
  }

  /** The slot a step gives back. The free function of a writer's slot acts on its first call only. */
  function Frees(f: File, local: Local): int {
    match local
    case FetchFree => f.fslot
    case FreeEarly => f.wslot
    case Leave => if f.writer.Leaving? && f.writer.freed then NONE else f.wslot
    case _ => NONE
  }

  function Reports(f: File, i: nat, local: Local): seq<Report> {
    match local
    case SendNil => [Report(i, false, [])]
    case Send => if f.writer.Sending? then [Report(i, true, f.writer.failed)] else []
    case _ => []
  }

  function AfterWrite(f: File, targets: seq<nat>, result: WriteResult): File
    requires f.writer.Writing? && f.writer.next < |targets|
  {
    var k, failed, target := f.writer.next, f.writer.failed, targets[f.writer.next];
    match result
    case Created => f.(writer := Writing(k + 1, failed), stored := f.stored + {target})
    case CreateFailed => f.(writer := Writing(k + 1, failed + [target]))
    case SeekFailed => f.(writer := Writing(k + 1, failed), skipped := f.skipped + {target})
  }

  function After(f: File, targets: seq<nat>, local: Local, cancelled: bool, slot: int): File
    requires Permitted(f, targets, local, cancelled)
  {
    match local
    case FetchOk => f.(fetcher := Posted, path := Path)
    case FetchFail =>
      if f.fetcher.attempt < MAX_TRIES then f.(fetcher := Fetching(f.fetcher.attempt + 1))
      else f.(fetcher := Posted, path := Closed)
    case FetchAbort => f.(fetcher := Posted, path := Closed)
    case FetchFree => f.(fetcher := FetchDone, fslot := NONE)
    case TakePath => if f.path.Path? then f.(writer := Queueing, path := Taken) else f.(writer := ReportNil)
    case SendNil => f.(writer := WriteDone, sent := true)
    case AllocSlot => f.(writer := Opening, wslot := slot)
    case OpenOk => f.(writer := Writing(0, []))
    case OpenFail => f.(writer := Leaving(false), lost := true)
    case WriteNext(result) => AfterWrite(f, targets, result)
    case FreeEarly => f.(writer := Sending(f.writer.failed), wslot := NONE)
    case Send => f.(writer := Leaving(true), sent := true)
    case Leave => f.(writer := WriteDone, wslot := if f.writer.freed then f.wslot else NONE)
    case GiveUp => f.(writer := if f.writer.Sending? then Leaving(true) else WriteDone)
  }

  // ---- The whole pipeline ----

  /** When a step can happen: a send needs room in its channel, a receive needs an item. */
  ghost predicate Enabled(c: Config, s: State, step: Step) {
    match step
    case Start => s.main.Starting? && s.started < |s.files| && s.free != []
    case Receive => s.main.Collecting? && s.done != []
    case Interrupt => !s.main.Returned? && s.cancelled
    case Cancel => !s.cancelled
    case At(i, local) =>
      && i < |s.files| && i < Files(c)
      && Permitted(s.files[i], c.targets[i], local, s.cancelled)
      && (Frees(s.files[i], local) != NONE ==> |s.free| < c.size)
      && (Reports(s.files[i], i, local) != [] ==> s.done == [])
      && (local.AllocSlot? ==> s.free != [])
  }

  function ToSet(s: seq<nat>): set<nat> { set x | x in s }

  function Collect(c: Config, s: State): State
    requires s.done != []
  {
    var broken := s.broken + ToSet(s.done[0].failed);
    var s' := s.(received := s.received + [s.done[0]], done := [], broken := broken);
    if broken != s.broken && |broken| >= c.storages then s'.(main := Returned(false), cancelled := true)
    else if |s'.received| == Files(c) then s'.(main := Returned(true), cancelled := true)
    else s'
  }

  ghost function AtFile(c: Config, s: State, i: nat, local: Local): State
    requires Enabled(c, s, At(i, local))
  {
    var f := s.files[i];
    var slot := if local.AllocSlot? then s.free[0] else NONE;
    s.(files := s.files[i := After(f, c.targets[i], local, s.cancelled, slot)],
       free := if local.AllocSlot? then s.free[1..]
               else if Frees(f, local) != NONE then s.free + [Frees(f, local)] else s.free,
       done := s.done + Reports(f, i, local))
  }

  ghost function Apply(c: Config, s: State, step: Step): State
    requires Enabled(c, s, step)
  {
    match step
    case Start =>
      var f := s.files[s.started].(fetcher := Fetching(1), fslot := s.free[0], writer := Waiting);
      s.(free := s.free[1..], files := s.files[s.started := f], started := s.started + 1,
         main := if s.started + 1 == |s.files| then Collecting else Starting)
    case Receive => Collect(c, s)
    case Interrupt => s.(main := Returned(false))
    case Cancel => s.(cancelled := true)
    case At(i, local) => AtFile(c, s, i, local)
  }

  ghost predicate Next(c: Config, s: State, s': State) {
    exists step :: Enabled(c, s, step) && s' == Apply(c, s, step)
  }

  ghost predicate IsRun(c: Config, run: seq<State>) {
    && ValidConfig(c) && run != [] && run[0] == InitState(c)
    && forall i :: 0 < i < |run| ==> Next(c, run[i - 1], run[i])
  }

  // ---- The invariant ----

  /** The first k targets: each has the file, or is in `failed`, or was skipped. */
  ghost predicate Handled(f: File, targets: seq<nat>, k: nat, failed: seq<nat>) {
    && k <= |targets|
    && (forall j :: 0 <= j < k ==> targets[j] in f.stored || targets[j] in failed || targets[j] in f.skipped)
    && (forall x :: x in failed ==> x in targets)
  }

  ghost predicate FileInv(f: File, targets: seq<nat>, started: bool, cancelled: bool) {
    var w := f.writer;
    && (if started then !f.fetcher.FetchIdle? && !w.WriteIdle? else f == IDLE_FILE)
    && (f.fetcher.Fetching? ==> 1 <= f.fetcher.attempt <= MAX_TRIES)
    && (f.fetcher.Fetching? || f.fetcher.FetchIdle? <==> f.path.Open?)
    && (w.Waiting? ==> !f.path.Taken?)
    && (w.Writing? ==> Handled(f, targets, w.next, w.failed))
    && (w.Sending? ==> Handled(f, targets, |targets|, w.failed))
    && (f.lost ==> !f.sent)
    && (w == Leaving(false) ==> f.lost)
    && (f.lost || f.sent ==> w.Leaving? || w.WriteDone?)
    && (f.sent ==> w != Leaving(false))
    && (!cancelled && (w.Leaving? || w.WriteDone?) ==> f.sent || f.lost)
    && (f.fslot != NONE <==> f.fetcher.Fetching? || f.fetcher.Posted?)
    && (f.wslot != NONE <==> w.Opening? || w.Writing? || w == Leaving(false))
  }

  function FetchSlots(s: State): seq<int> { seq(|s.files|, i requires 0 <= i < |s.files| => s.files[i].fslot) }
  function WriteSlots(s: State): seq<int> { seq(|s.files|, i requires 0 <= i < |s.files| => s.files[i].wslot) }

  function AllReports(s: State): seq<Report> { s.received + s.done }

  ghost predicate ReportInv(c: Config, s: State)
    requires |s.files| == Files(c)
  {
    var reports := AllReports(s);
    && |s.done| <= 1
    && (forall k :: 0 <= k < |reports| ==> ReportOk(c, s, reports[k]))
    && (forall i :: 0 <= i < |s.files| && s.files[i].sent ==> exists k :: 0 <= k < |reports| && reports[k].file == i)
    && (forall j, k :: 0 <= j < k < |reports| ==> reports[j].file != reports[k].file)
  }

  ghost predicate ReportOk(c: Config, s: State, r: Report)
    requires |s.files| == Files(c)
  {
    && r.file < Files(c) && s.files[r.file].sent
    && (if r.fetched then Handled(s.files[r.file], c.targets[r.file], |c.targets[r.file]|, r.failed) else r.failed == [])
  }

  ghost predicate MainInv(c: Config, s: State)
    requires |s.files| == Files(c)
  {
    && s.started <= Files(c) && |s.received| <= Files(c)
    && (s.main.Starting? ==> s.started < Files(c) && s.received == [])
    && (s.main.Collecting? ==> s.started == Files(c) && |s.received| < Files(c))
    && (s.main.Returned? ==> s.cancelled)
    && (s.main.Returned? && s.main.ok ==> |s.received| == Files(c))
  }

  ghost predicate Inv(c: Config, s: State) {
    && ValidConfig(c) && |s.files| == Files(c)
    && Partition(s.free, FetchSlots(s), WriteSlots(s), c.size)
    && (forall i :: 0 <= i < |s.files| ==> FileInv(s.files[i], c.targets[i], i < s.started, s.cancelled))
    && ReportInv(c, s)
    && MainInv(c, s)
  }

  lemma {:induction false} InitInv(c: Config)
    requires ValidConfig(c)
    ensures Inv(c, InitState(c))
  {
    var s := InitState(c);
    forall x | 0 <= x < c.size ensures x in s.free {
      assert s.free[x] == x;
    }
  }

  // ---- Preservation, one file at a time ----

  lemma {:induction false} LocalKeepsInv(f: File, targets: seq<nat>, local: Local, cancelled: bool, slot: int)
    requires Permitted(f, targets, local, cancelled) && FileInv(f, targets, true, cancelled)
    requires local.AllocSlot? ==> slot != NONE
    ensures FileInv(After(f, targets, local, cancelled, slot), targets, true, cancelled)
  {
    if local.WriteNext? {
      match local.result
      case Created =>
      case CreateFailed =>
        assert f.writer.failed + [targets[f.writer.next]] != f.writer.failed;
      case SeekFailed =>
    }
  }

  lemma {:induction false} LocalKeepsHistory(f: File, targets: seq<nat>, local: Local, cancelled: bool, slot: int)
    requires Permitted(f, targets, local, cancelled) && FileInv(f, targets, true, cancelled)
    ensures var f' := After(f, targets, local, cancelled, slot);
      && f.stored <= f'.stored && f.skipped <= f'.skipped
      && (f'.sent <==> f.sent || Reports(f, 0, local) != [])
      && (Reports(f, 0, local) != [] ==> !f.sent)
  {
  }

  // What a step of file i does to the slots held.
  lemma {:induction false} SlotsChangeAt(c: Config, s: State, i: nat, local: Local)
    requires Enabled(c, s, At(i, local)) && |s.files| == Files(c)
    ensures var s' := Apply(c, s, At(i, local));
      && FetchSlots(s') == FetchSlots(s)[i := s'.files[i].fslot]
      && WriteSlots(s') == WriteSlots(s)[i := s'.files[i].wslot]
  {
  }

  lemma {:induction false} LocalSlotChange(f: File, targets: seq<nat>, local: Local, cancelled: bool, slot: int)
    requires Permitted(f, targets, local, cancelled) && FileInv(f, targets, true, cancelled)
    ensures var f' := After(f, targets, local, cancelled, slot);
      && (f'.fslot == if local.FetchFree? then NONE else f.fslot)
      && (f'.wslot == if local.AllocSlot? then slot
                      else if Frees(f, local) != NONE && !local.FetchFree? then NONE else f.wslot)
      && (local.AllocSlot? ==> f.wslot == NONE && Frees(f, local) == NONE)
      && (local.FetchFree? ==> Frees(f, local) == f.fslot != NONE)
      && (Frees(f, local) != NONE && !local.FetchFree? ==> Frees(f, local) == f.wslot)
      && (local.FreeEarly? ==> Frees(f, local) != NONE)
  {
  }

  lemma {:induction false} LocalSlots(c: Config, s: State, i: nat, local: Local)
    requires Enabled(c, s, At(i, local)) && |s.files| == Files(c)
    requires FileInv(s.files[i], c.targets[i], true, s.cancelled)
    requires Partition(s.free, FetchSlots(s), WriteSlots(s), c.size)
    ensures var s' := Apply(c, s, At(i, local)); Partition(s'.free, FetchSlots(s'), WriteSlots(s'), c.size)
  {
    var s' := Apply(c, s, At(i, local));
    var fs, ws := FetchSlots(s), WriteSlots(s);
    SlotsChangeAt(c, s, i, local);
    LocalSlotChange(s.files[i], c.targets[i], local, s.cancelled, if local.AllocSlot? then s.free[0] else NONE);
    LocalPartition(s.free, fs, ws, c.size, i, s'.free, s'.files[i].fslot, s'.files[i].wslot);
  }

  // One holder takes a slot or gives one back, or nothing changes.
  lemma {:induction false} LocalPartition(
      free: seq<int>, fs: seq<int>, ws: seq<int>, size: nat, i: nat, free': seq<int>, fslot: int, wslot: int)
    requires Partition(free, fs, ws, size) && i < |fs| && i < |ws|
    requires
      || (free' == free && fslot == fs[i] && wslot == ws[i])
      || (fs[i] != NONE && free' == free + [fs[i]] && fslot == NONE && wslot == ws[i])
      || (ws[i] != NONE && free' == free + [ws[i]] && fslot == fs[i] && wslot == NONE)
      || (free != [] && ws[i] == NONE && free' == free[1..] && fslot == fs[i] && wslot == free[0])
    ensures Partition(free', fs[i := fslot], ws[i := wslot], size)
  {
    assert fs[i := fs[i]] == fs && ws[i := ws[i]] == ws;
    if free' == free && fslot == fs[i] && wslot == ws[i] {
    } else if fs[i] != NONE && free' == free + [fs[i]] && fslot == NONE {
      GiveBack(free, fs, ws, size, i);
    } else {
      Symmetric(free, fs, ws, size);
      if ws[i] != NONE {
        GiveBack(free, ws, fs, size, i);
      } else {
        TakeHead(free, ws, fs, size, i);
      }
      Symmetric(free', ws[i := wslot], fs, size);
    }
  }

  lemma {:induction false} ReportStaysOk(c: Config, s: State, i: nat, local: Local, r: Report)
    requires Enabled(c, s, At(i, local)) && |s.files| == Files(c)
    requires FileInv(s.files[i], c.targets[i], true, s.cancelled) && ReportOk(c, s, r)
    ensures ReportOk(c, Apply(c, s, At(i, local)), r)
  {
    LocalKeepsHistory(s.files[i], c.targets[i], local, s.cancelled, if local.AllocSlot? then s.free[0] else NONE);
  }

  lemma {:induction false} NewReportOk(c: Config, s: State, i: nat, local: Local)
    requires Enabled(c, s, At(i, local)) && |s.files| == Files(c)
    requires FileInv(s.files[i], c.targets[i], true, s.cancelled) && Reports(s.files[i], i, local) != []
    ensures ReportOk(c, Apply(c, s, At(i, local)), Reports(s.files[i], i, local)[0])
  {
  }

  lemma {:induction false} LocalReportsOk(c: Config, s: State, i: nat, local: Local, k: nat)
    requires Enabled(c, s, At(i, local)) && |s.files| == Files(c)
    requires FileInv(s.files[i], c.targets[i], true, s.cancelled) && ReportInv(c, s)
    requires k < |AllReports(Apply(c, s, At(i, local)))|
    ensures AllReports(Apply(c, s, At(i, local))) == AllReports(s) + Reports(s.files[i], i, local)
    ensures ReportOk(c, Apply(c, s, At(i, local)), AllReports(Apply(c, s, At(i, local)))[k])
  {
    var before := AllReports(s);
    assert AllReports(Apply(c, s, At(i, local))) == before + Reports(s.files[i], i, local);
    if k < |before| {
      ReportStaysOk(c, s, i, local, before[k]);
    } else {
      NewReportOk(c, s, i, local);
    }
  }

  lemma {:induction false} LocalReports(c: Config, s: State, i: nat, local: Local)
    requires Enabled(c, s, At(i, local)) && |s.files| == Files(c)
    requires FileInv(s.files[i], c.targets[i], true, s.cancelled)
    requires ReportInv(c, s)
    ensures ReportInv(c, Apply(c, s, At(i, local)))
  {
    var s' := Apply(c, s, At(i, local));
    var f, f' := s.files[i], s'.files[i];
    var old', new' := AllReports(s), AllReports(s');
    LocalKeepsHistory(f, c.targets[i], local, s.cancelled, if local.AllocSlot? then s.free[0] else NONE);
    assert new' == old' + Reports(f, i, local);
    forall k: nat | k < |new'| ensures ReportOk(c, s', new'[k]) {
      LocalReportsOk(c, s, i, local, k);
    }
    forall j | 0 <= j < |s'.files| && s'.files[j].sent ensures exists k :: 0 <= k < |new'| && new'[k].file == j {
      if s.files[j].sent {
        var k :| 0 <= k < |old'| && old'[k].file == j;
        assert new'[k].file == j;
      } else {
        assert new'[|old'|].file == j;
      }
    }
  }

  lemma {:induction false} LocalStep(c: Config, s: State, i: nat, local: Local)
    requires Inv(c, s) && Enabled(c, s, At(i, local))
    ensures Inv(c, Apply(c, s, At(i, local)))
  {
    assert FileInv(s.files[i], c.targets[i], i < s.started, s.cancelled);
    LocalKeepsInv(s.files[i], c.targets[i], local, s.cancelled, if local.AllocSlot? then s.free[0] else NONE) by {
      assert s.free != [] ==> s.free[0] in s.free;
    }
    LocalSlots(c, s, i, local);
    LocalReports(c, s, i, local);
  }

  lemma {:induction false} StartStep(c: Config, s: State)
    requires Inv(c, s) && Enabled(c, s, Start)
    ensures Inv(c, Apply(c, s, Start))
  {
    var s' := Apply(c, s, Start);
    assert FileInv(s.files[s.started], c.targets[s.started], false, s.cancelled);
    assert FetchSlots(s') == FetchSlots(s)[s.started := s.free[0]];
    assert WriteSlots(s') == WriteSlots(s);
    assert s.free[0] in s.free;
    TakeHead(s.free, FetchSlots(s), WriteSlots(s), c.size, s.started);
    assert AllReports(s') == AllReports(s);
    forall k | 0 <= k < |AllReports(s')| ensures ReportOk(c, s', AllReports(s')[k]) {
      assert ReportOk(c, s, AllReports(s)[k]);
    }
  }

  lemma {:induction false} ReceiveStep(c: Config, s: State)
    requires Inv(c, s) && Enabled(c, s, Receive)
    ensures Inv(c, Apply(c, s, Receive))
  {
    var s' := Apply(c, s, Receive);
    assert s.done == [s.done[0]];
    assert AllReports(s') == AllReports(s);
    assert FetchSlots(s') == FetchSlots(s) && WriteSlots(s') == WriteSlots(s);
    forall k | 0 <= k < |AllReports(s')| ensures ReportOk(c, s', AllReports(s')[k]) {
      assert ReportOk(c, s, AllReports(s)[k]);
    }
  }

  lemma {:induction false} StopStep(c: Config, s: State, step: Step)
    requires Inv(c, s) && Enabled(c, s, step) && (step.Interrupt? || step.Cancel?)
    ensures Inv(c, Apply(c, s, step))
  {
    var s' := Apply(c, s, step);
    assert AllReports(s') == AllReports(s);
    assert FetchSlots(s') == FetchSlots(s) && WriteSlots(s') == WriteSlots(s);
    forall k | 0 <= k < |AllReports(s')| ensures ReportOk(c, s', AllReports(s')[k]) {
      assert ReportOk(c, s, AllReports(s)[k]);
    }
  }

  lemma {:induction false} StepKeepsInv(c: Config, s: State, step: Step)
    requires Inv(c, s) && Enabled(c, s, step)
    ensures Inv(c, Apply(c, s, step))
  {
    match step
    case Start => StartStep(c, s);
    case Receive => ReceiveStep(c, s);
    case At(i, local) => LocalStep(c, s, i, local);
    case _ => StopStep(c, s, step);
  }

  lemma {:induction false} InvHolds(c: Config, run: seq<State>, k: nat)
    requires IsRun(c, run) && k < |run|
    ensures Inv(c, run[k])
  {
    if k == 0 {
      InitInv(c);
    } else {
      InvHolds(c, run, k - 1);
      assert Next(c, run[k - 1], run[k]);
      var step :| Enabled(c, run[k - 1], step) && run[k] == Apply(c, run[k - 1], step);
      StepKeepsInv(c, run[k - 1], step);
    }
  }

  // ---- No deadlock ----

  predicate Finished(f: File) {
    (f.fetcher.FetchIdle? || f.fetcher.FetchDone?) && (f.writer.WriteIdle? || f.writer.WriteDone?)
  }

  /** Nothing can happen any more, short of a cancellation from outside. */
  ghost predicate Stuck(c: Config, s: State) {
    forall step :: Enabled(c, s, step) ==> step.Cancel?
  }

  ghost predicate LostReports(s: State) {
    exists i :: 0 <= i < |s.files| && s.files[i].lost
  }

  // Every goroutine that holds a slot can go on by itself.
  lemma {:induction false} HolderMoves(c: Config, s: State, i: nat)
    requires Inv(c, s) && i < |s.files|
    requires s.files[i].fslot != NONE || s.files[i].wslot != NONE
    ensures !Stuck(c, s)
  {
    var f := s.files[i];
    assert FileInv(f, c.targets[i], i < s.started, s.cancelled);
    var local :=
      if f.fetcher.Fetching? then FetchOk else if f.fetcher.Posted? then FetchFree
      else if f.writer.Opening? then OpenOk
      else if f.writer.Writing? && f.writer.next < |c.targets[i]| then WriteNext(Created)
      else if f.writer.Writing? then FreeEarly else Leave;
    if Frees(f, local) != NONE {
      RoomForFreed(c, s, i, local);
    }
    assert Enabled(c, s, At(i, local));
  }

  // The slot channel never blocks a goroutine that gives its slot back.
  lemma {:induction false} RoomForFreed(c: Config, s: State, i: nat, local: Local)
    requires Inv(c, s) && i < |s.files| && Permitted(s.files[i], c.targets[i], local, s.cancelled)
    requires Frees(s.files[i], local) != NONE
    ensures |s.free| < c.size
  {
    var fs, ws := FetchSlots(s), WriteSlots(s);
    if local.FetchFree? {
      GiveBack(s.free, fs, ws, c.size, i);
    } else {
      Symmetric(s.free, fs, ws, c.size);
      assert ws[i] == s.files[i].wslot;
      GiveBack(s.free, ws, fs, c.size, i);
    }
  }

  // With every slot in the channel, a started file that is not finished can go on,
  // unless its report has to wait for the channel to be emptied.
  lemma {:induction false} WriterMoves(c: Config, s: State, i: nat)
    requires Inv(c, s) && i < |s.files| && !Finished(s.files[i])
    requires s.free != [] && (s.done == [] || s.cancelled)
    ensures !Stuck(c, s)
  {
    var f := s.files[i];
    assert FileInv(f, c.targets[i], i < s.started, s.cancelled);
    if f.fslot != NONE || f.wslot != NONE {
      HolderMoves(c, s, i);
    } else {
      var local :=
        if f.writer.Waiting? then TakePath
        else if f.writer.Queueing? then AllocSlot
        else if f.writer.Leaving? then Leave
        else if s.cancelled then GiveUp
        else if f.writer.ReportNil? then SendNil else Send;
      assert Enabled(c, s, At(i, local));
    }
  }

  lemma {:induction false} DistinctReports(c: Config, s: State)
    requires Inv(c, s) && s.done == []
    requires forall i :: 0 <= i < |s.files| ==> s.files[i].sent
    ensures |s.received| == Files(c)
  {
    var reports := AllReports(s);
    assert reports == s.received;
    var names := seq(|reports|, k requires 0 <= k < |reports| => reports[k].file as int);
    assert forall i, j :: 0 <= i < j < |names| ==> names[i] != names[j];
    CountDistinct(names);
    forall k | 0 <= k < |reports| ensures reports[k].file < Files(c) {
      assert ReportOk(c, s, reports[k]);
    }
    forall i: nat | i < Files(c) ensures i in names {
      assert s.files[i].sent;
      var k :| 0 <= k < |reports| && reports[k].file == i;
      assert names[k] == i;
    }
    assert (set x | x in names) == Below(Files(c));
  }

  /** Deadlock freedom, exactly: a reachable state is stuck only when the pipeline is over,
      or when main waits for a report lost with a temporary file that did not open. */
  lemma {:induction false} StuckOnlyWhenOverOrLost(c: Config, s: State)
    requires Inv(c, s) && Stuck(c, s)
    ensures forall i :: 0 <= i < |s.files| ==> Finished(s.files[i])
    ensures s.main.Returned? || (s.main.Collecting? && !s.cancelled && LostReports(s))
    ensures |s.free| == c.size
  {
    forall i: nat | i < |s.files| ensures s.files[i].fslot == NONE && s.files[i].wslot == NONE {
      if s.files[i].fslot != NONE || s.files[i].wslot != NONE {
        HolderMoves(c, s, i);
      }
    }
    AllFree(s.free, FetchSlots(s), WriteSlots(s), c.size);
    if !s.main.Returned? {
      assert s.cancelled ==> Enabled(c, s, Interrupt);
      assert s.main.Starting? ==> Enabled(c, s, Start);
      assert s.done != [] ==> Enabled(c, s, Receive);
    }
    forall i: nat | i < |s.files| ensures Finished(s.files[i]) {
      if !Finished(s.files[i]) {
        WriterMoves(c, s, i);
      }
    }
    if !s.main.Returned? && !LostReports(s) {
      forall i: nat | i < |s.files| ensures s.files[i].sent {
        assert FileInv(s.files[i], c.targets[i], i < s.started, s.cancelled);
      }
      DistinctReports(c, s);
    }
  }

  // ---- When a file is given up ----

  /** The fetch of a file is given up only at its last try, or after a cancellation. */
  lemma {:induction false} GivenUpAtLastTry(f: File, targets: seq<nat>, local: Local, cancelled: bool, slot: int)
    requires Permitted(f, targets, local, cancelled) && FileInv(f, targets, true, cancelled)
    requires !f.path.Closed? && After(f, targets, local, cancelled, slot).path.Closed?
    ensures cancelled || (local.FetchFail? && f.fetcher == Fetching(MAX_TRIES))
  {
  }

  /** After a cancellation every goroutine that waits for something can stop. */
  lemma {:induction false} CancelledCanStop(c: Config, s: State, i: nat)
    requires Inv(c, s) && s.cancelled && i < |s.files|
    ensures s.files[i].fetcher.Fetching? ==> Enabled(c, s, At(i, FetchAbort))
    ensures var w := s.files[i].writer;
      w.Waiting? || w.ReportNil? || w.Queueing? || w.Sending? ==> Enabled(c, s, At(i, GiveUp))
    ensures !s.main.Returned? ==> Enabled(c, s, Interrupt)
  {
  }

  // ---- Termination ----

  function FetchRank(f: Fetcher): nat {
    match f
    case FetchIdle => MAX_TRIES + 2
    case Fetching(attempt) => if attempt <= MAX_TRIES then MAX_TRIES - attempt + 2 else 0
    case Posted => 1
    case FetchDone => 0
  }

  function WriteRank(w: Writer, targets: seq<nat>): nat {
    match w
    case WriteIdle => |targets| + 7
    case Waiting => |targets| + 6
    case Queueing => |targets| + 5
    case Opening => |targets| + 4
    case Writing(next, _) => if next <= |targets| then |targets| - next + 3 else 0
    case Sending(_) => 2
    case ReportNil => 2
    case Leaving(_) => 1
    case WriteDone => 0
  }

  function FileRank(f: File, targets: seq<nat>): nat {
    FetchRank(f.fetcher) + WriteRank(f.writer, targets)
  }

  ghost function SumRanks(c: Config, s: State, n: nat): nat
    requires n <= |s.files| == Files(c)
  {
    if n == 0 then 0 else SumRanks(c, s, n - 1) + FileRank(s.files[n - 1], c.targets[n - 1])
  }

  /** How much is left to do: goroutine steps, reports to receive, and one cancellation. */
  ghost function Rank(c: Config, s: State): int
    requires |s.files| == Files(c)
  {
    SumRanks(c, s, Files(c))
    + (if s.main.Returned? then 0 else Files(c) - |s.received| + 1)
    + (if s.cancelled then 0 else 1)
  }

  lemma {:induction false} RanksChangeAt(c: Config, s: State, s': State, i: nat, n: nat)
    requires n <= |s.files| == |s'.files| == Files(c) && i < Files(c)
    requires forall k :: 0 <= k < |s.files| && k != i ==> s'.files[k] == s.files[k]
    ensures SumRanks(c, s', n) - SumRanks(c, s, n)
         == if i < n then FileRank(s'.files[i], c.targets[i]) - FileRank(s.files[i], c.targets[i]) else 0
  {
    if n > 0 {
      RanksChangeAt(c, s, s', i, n - 1);
    }
  }

  lemma {:induction false} LocalLowersRank(f: File, targets: seq<nat>, local: Local, cancelled: bool, slot: int)
    requires Permitted(f, targets, local, cancelled) && FileInv(f, targets, true, cancelled)
    ensures FileRank(After(f, targets, local, cancelled, slot), targets) < FileRank(f, targets)
  {
  }

  lemma {:induction false} RankNotNegative(c: Config, s: State)
    requires Inv(c, s)
    ensures Rank(c, s) >= 0
  {
  }

  lemma {:induction false} LocalStepLowersRank(c: Config, s: State, i: nat, local: Local)
    requires Inv(c, s) && Enabled(c, s, At(i, local)) && Inv(c, Apply(c, s, At(i, local)))
    ensures Rank(c, Apply(c, s, At(i, local))) < Rank(c, s)
  {
    var f, s' := s.files[i], Apply(c, s, At(i, local));
    assert FileInv(f, c.targets[i], i < s.started, s.cancelled);
    RanksChangeAt(c, s, s', i, Files(c));
    LocalLowersRank(f, c.targets[i], local, s.cancelled, if local.AllocSlot? then s.free[0] else NONE);
  }

  lemma {:induction false} MainStepLowersRank(c: Config, s: State, step: Step)
    requires Inv(c, s) && Enabled(c, s, step) && !step.At? && Inv(c, Apply(c, s, step))
    ensures Rank(c, Apply(c, s, step)) < Rank(c, s)
  {
    var s' := Apply(c, s, step);
    if step.Start? {
      assert FileInv(s.files[s.started], c.targets[s.started], false, s.cancelled);
      RanksChangeAt(c, s, s', s.started, Files(c));
    } else {
      RanksChangeAt(c, s, s', 0, Files(c));
    }
  }

  /** Every step of a reachable state, with or without a cancellation, leaves less to do. */
  lemma {:induction false} StepLowersRank(c: Config, s: State, step: Step)
    requires Inv(c, s) && Enabled(c, s, step)
    ensures |Apply(c, s, step).files| == Files(c)
    ensures 0 <= Rank(c, Apply(c, s, step)) < Rank(c, s)
  {
    StepKeepsInv(c, s, step);
    if step.At? {
      LocalStepLowersRank(c, s, step.i, step.local);
    } else {
      MainStepLowersRank(c, s, step);
    }
    RankNotNegative(c, Apply(c, s, step));
  }

  /** So no run is longer than the first state's measure. */
  lemma {:induction false} RunsEnd(c: Config, run: seq<State>, k: nat)
    requires IsRun(c, run) && k < |run|
    ensures |run[k].files| == |run[0].files| == Files(c)
    ensures 0 <= Rank(c, run[k]) <= Rank(c, run[0]) - k
  {
    InvHolds(c, run, k);
    if k > 0 {
      RunsEnd(c, run, k - 1);
      InvHolds(c, run, k - 1);
      assert Next(c, run[k - 1], run[k]);
      var step :| Enabled(c, run[k - 1], step) && run[k] == Apply(c, run[k - 1], step);
      StepLowersRank(c, run[k - 1], step);
    }
  }

  // ---- What the end means ----

  predicate Reported(reports: seq<Report>, i: nat) {
    exists k :: 0 <= k < |reports| && reports[k].file == i
  }

  function Names(reports: seq<Report>): seq<int> {
    seq(|reports|, k requires 0 <= k < |reports| => reports[k].file as int)
  }

  lemma {:induction false} NamedInSeq(reports: seq<Report>, i: nat)
    requires (i as int) in Names(reports)
    ensures Reported(reports, i)
  {
    var k :| 0 <= k < |reports| && Names(reports)[k] == i;
    assert reports[k].file == i;
  }

  // As many distinct reports as files leave no file out.
  lemma {:induction false} EveryFileReported(reports: seq<Report>, n: nat)
    requires |reports| == n
    requires forall k :: 0 <= k < n ==> reports[k].file < n
    requires forall j, k :: 0 <= j < k < n ==> reports[j].file != reports[k].file
    ensures forall i: nat {:trigger Reported(reports, i)} :: i < n ==> Reported(reports, i)
  {
    var names := Names(reports);
    var seen := set x | x in names;
    assert seen == Below(n) by {
      assert NoDuplicates(names);
      CountDistinct(names);
      forall x | x in seen ensures x in Below(n) {
        var k :| 0 <= k < n && names[k] == x;
      }
      FullSubset(seen, n);
    }
    forall i: nat {:trigger Reported(reports, i)} | i < n ensures Reported(reports, i) {
      assert (i as int) in seen;
      NamedInSeq(reports, i);
    }
  }

  /** When main returns without an error every file has been reported exactly once, and
      each target of a downloaded file has its copy, or is reported, or was skipped. */
  lemma {:induction false} CompleteRunReportsEachFileOnce(c: Config, s: State)
    requires Inv(c, s) && s.main == Returned(true)
    ensures |s.received| == Files(c) && !LostReports(s)
    ensures forall j, k :: 0 <= j < k < |s.received| ==> s.received[j].file != s.received[k].file
    ensures forall i: nat {:trigger Reported(s.received, i)} :: i < Files(c) ==> Reported(s.received, i)
    ensures forall k :: 0 <= k < |s.received| ==> ReportOk(c, s, s.received[k])
  {
    var all := AllReports(s);
    assert forall k :: 0 <= k < |s.received| ==> all[k] == s.received[k];
    EveryFileReported(s.received, Files(c));
    forall i: nat | i < |s.files| ensures !s.files[i].lost {
      assert Reported(s.received, i);
      assert FileInv(s.files[i], c.targets[i], i < s.started, s.cancelled);
    }
  }

  lemma {:induction false} FullSubset(a: set<int>, n: nat)
    requires a <= Below(n) && |a| == n
    ensures a == Below(n)
  {
    assert Below(n) == a + (Below(n) - a);
    assert |Below(n) - a| == 0;
  }

  /** At the end of a run all goroutines are over and all slots back; main still waits exactly
      when nothing was cancelled and a report was lost with a file that did not open. */
  lemma {:induction false} SyncEndsExactlyWithoutLostReports(c: Config, run: seq<State>)
    requires IsRun(c, run) && Stuck(c, run[|run| - 1])
    ensures var s := run[|run| - 1];
      && (forall i :: 0 <= i < |s.files| ==> Finished(s.files[i]))
      && |s.free| == c.size
      && (!s.main.Returned? <==> !s.cancelled && LostReports(s))
  {
    var s := run[|run| - 1];
    InvHolds(c, run, |run| - 1);
    StuckOnlyWhenOverOrLost(c, s);
  }

  // One file, one slot: the fetch succeeds and the temporary file does not open.
  const LOSSY := Config(1, 1, [[0]])
  const LOSSY_STEPS := [Start, At(0, FetchOk), At(0, FetchFree), At(0, TakePath), At(0, AllocSlot), At(0, OpenFail), At(0, Leave)]

  ghost function LossyState(k: nat): (s: State)
    requires k <= |LOSSY_STEPS|
    ensures |s.files| == 1
    ensures k < |LOSSY_STEPS| ==> Enabled(LOSSY, s, LOSSY_STEPS[k])
  {
    var f := IDLE_FILE.(fetcher := Fetching(1), fslot := 0, writer := Waiting);
    var s := State(Collecting, 1, false, [0], [f], [], [], {});
    if k == 0 then State(Starting, 0, false, [0], [IDLE_FILE], [], [], {})
    else if k == 1 then s.(free := [])
    else if k == 2 then s.(free := [], files := [f.(fetcher := Posted, path := Path)])
    else
      var f := f.(fetcher := FetchDone, fslot := NONE, path := Path);
      if k == 3 then s.(files := [f])
      else if k == 4 then s.(files := [f.(path := Taken, writer := Queueing)])
      else if k == 5 then s.(free := [], files := [f.(path := Taken, writer := Opening, wslot := 0)])
      else if k == 6 then s.(free := [], files := [f.(path := Taken, writer := Leaving(false), wslot := 0, lost := true)])
      else s.(files := [f.(path := Taken, writer := WriteDone, lost := true)])
  }

  lemma {:induction false} LossyStep(k: nat)
    requires k < |LOSSY_STEPS|
    ensures Next(LOSSY, LossyState(k), LossyState(k + 1))
  {
    var s, s' := LossyState(k), LossyState(k + 1);
    var step := LOSSY_STEPS[k];
    assert Apply(LOSSY, s, step).files == s'.files;
    assert Apply(LOSSY, s, step).free == s'.free;
    assert s' == Apply(LOSSY, s, step);
  }

  ghost function LossyRun(): seq<State> {
    seq(|LOSSY_STEPS| + 1, k requires 0 <= k <= |LOSSY_STEPS| => LossyState(k))
  }

  /** A report does get lost: one temporary file that does not open leaves main waiting forever. */
  lemma {:induction false} LostReportBlocksSync()
    ensures IsRun(LOSSY, LossyRun())
    ensures var s := LossyState(|LOSSY_STEPS|); Stuck(LOSSY, s) && s.main.Collecting? && !s.cancelled
  {
    assert LossyState(0).free == InitState(LOSSY).free;
    assert LossyState(0).files == InitState(LOSSY).files;
    forall i | 0 < i < |LossyRun()| ensures Next(LOSSY, LossyRun()[i - 1], LossyRun()[i]) {
      LossyStep(i - 1);
    }
  }
}
