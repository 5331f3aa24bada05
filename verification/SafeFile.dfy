/** The two-copy file protocol behind the statistics: a save may be cut off at any byte,
    and a load after the restart still finds a whole value. */
module SafeFile {
  import opened Common

  type Bytes = seq<char>

  /** What is on disk under the name itself and under the name with ".old" appended. */
  datatype Disk = Disk(path: Option<Bytes>, backup: Option<Bytes>)

  /** Where the process is: between calls, inside a save or a load, or not running.
      In the writing phases the target holds the first n bytes of buf. */
  datatype Phase =
    | Idle
    | Saving(buf: Bytes)
    | OldRemoved(buf: Bytes)
    | Renamed(buf: Bytes)
    | WritingPath(buf: Bytes, n: nat)
    | WritingOld(buf: Bytes, n: nat)
    | Down
    | Restoring(buf: Bytes, n: nat)
    | LoadFailed

  /** `committed` is the value the program has last saved completely or last loaded, and
      `pending` one whose save has begun since. */
  datatype State = State(disk: Disk, phase: Phase, committed: Option<Bytes>, pending: Option<Bytes>)

  type Parser = Bytes -> bool

  predicate Parses(parser: Parser, file: Option<Bytes>) {
    file.Some? && parser(file.value)
  }

  /** A saved buffer parses, and none of its proper prefixes does. */
  ghost predicate Savable(parser: Parser, buf: Bytes) {
    parser(buf) && forall n :: 0 <= n < |buf| ==> !parser(buf[..n])
  }

  ghost predicate Init(s: State) {
    s == State(Disk(None, None), Down, None, None)
  }

  // ---- Steps of a save ----

  ghost predicate BeginSave(parser: Parser, s: State, s': State) {
    s.phase.Idle? && exists buf :: Savable(parser, buf) && s' == s.(phase := Saving(buf), pending := Some(buf))
  }

  ghost predicate RemoveOld(s: State, s': State) {
    s.phase.Saving? && s' == s.(phase := OldRemoved(s.phase.buf), disk := s.disk.(backup := None))
  }

  // Renaming a missing file is not an error and leaves ".old" as it is.
  ghost predicate Rename(s: State, s': State) {
    && s.phase.OldRemoved?
    && s' == s.(phase := Renamed(s.phase.buf),
                disk := if s.disk.path.None? then s.disk else Disk(None, s.disk.path))
  }

  ghost predicate OpenPath(s: State, s': State) {
    s.phase.Renamed? && s' == s.(phase := WritingPath(s.phase.buf, 0), disk := s.disk.(path := Some([])))
  }

  ghost predicate WritePath(s: State, s': State) {
    && s.phase.WritingPath?
    && exists n :: s.phase.n < n <= |s.phase.buf|
        && s' == s.(phase := WritingPath(s.phase.buf, n), disk := s.disk.(path := Some(s.phase.buf[..n])))
  }

  ghost predicate OpenOld(s: State, s': State) {
    && s.phase.WritingPath? && s.phase.n == |s.phase.buf|
    && s' == s.(phase := WritingOld(s.phase.buf, 0), disk := s.disk.(backup := Some([])))
  }

  ghost predicate WriteOld(s: State, s': State) {
    && s.phase.WritingOld?
    && exists n :: s.phase.n < n <= |s.phase.buf|
        && s' == s.(phase := WritingOld(s.phase.buf, n), disk := s.disk.(backup := Some(s.phase.buf[..n])))
  }

  ghost predicate EndSave(s: State, s': State) {
    && s.phase.WritingOld? && s.phase.n == |s.phase.buf|
    && s' == s.(phase := Idle, committed := Some(s.phase.buf), pending := None)
  }

  // ---- Steps of a load ----

  /** The load hands v to the program. */
  ghost predicate Loaded(s: State, s': State, v: Bytes) {
    s' == s.(phase := Idle, committed := Some(v), pending := None)
  }

  ghost predicate LoadPath(parser: Parser, s: State, s': State) {
    s.phase.Down? && Parses(parser, s.disk.path) && Loaded(s, s', s.disk.path.value)
  }

  ghost predicate LoadOld(parser: Parser, s: State, s': State) {
    && s.phase.Down? && !Parses(parser, s.disk.path) && Parses(parser, s.disk.backup)
    && s' == s.(phase := Restoring(s.disk.backup.value, 0), disk := s.disk.(path := Some([])))
  }

  ghost predicate Restore(s: State, s': State) {
    && s.phase.Restoring?
    && exists n :: s.phase.n < n <= |s.phase.buf|
        && s' == s.(phase := Restoring(s.phase.buf, n), disk := s.disk.(path := Some(s.phase.buf[..n])))
  }

  ghost predicate EndRestore(s: State, s': State) {
    s.phase.Restoring? && s.phase.n == |s.phase.buf| && Loaded(s, s', s.phase.buf)
  }

  // Neither file exists: the program starts with empty statistics.
  ghost predicate LoadNothing(s: State, s': State) {
    && s.phase.Down? && s.disk == Disk(None, None)
    && s' == s.(phase := Idle, committed := None, pending := None)
  }

  ghost predicate FailLoad(parser: Parser, s: State, s': State) {
    && s.phase.Down? && s.disk != Disk(None, None)
    && !Parses(parser, s.disk.path) && !Parses(parser, s.disk.backup)
    && s' == s.(phase := LoadFailed)
  }

  // The program logs the failure and goes on with empty statistics, which it will save.
  ghost predicate GoOn(s: State, s': State) {
    s.phase.LoadFailed? && s' == s.(phase := Idle, committed := None, pending := None)
  }

  ghost predicate Crash(s: State, s': State) {
    s' == s.(phase := Down)
  }

  ghost predicate Next(parser: Parser, s: State, s': State) {
    || BeginSave(parser, s, s') || RemoveOld(s, s') || Rename(s, s') || OpenPath(s, s')
    || WritePath(s, s') || OpenOld(s, s') || WriteOld(s, s') || EndSave(s, s')
    || LoadPath(parser, s, s') || LoadOld(parser, s, s') || Restore(s, s') || EndRestore(s, s')
    || LoadNothing(s, s') || FailLoad(parser, s, s') || GoOn(s, s') || Crash(s, s')
  }

  ghost predicate IsRun(parser: Parser, run: seq<State>) {
    && run != [] && Init(run[0])
    && forall i :: 0 < i < |run| ==> Next(parser, run[i - 1], run[i])
  }

  // ---- Atomicity ----

  ghost predicate Torn(file: Option<Bytes>, buf: Bytes) {
    file.Some? && exists n :: 0 <= n < |buf| && file.value == buf[..n]
  }

  /** Nothing, or what a save that was cut off has left of its buffer. */
  ghost predicate Remnant(parser: Parser, file: Option<Bytes>) {
    file.None? || exists buf {:trigger Torn(file, buf)} :: Savable(parser, buf) && Torn(file, buf)
  }

  // Without a committed value the disk holds remnants.
  ghost predicate Remnants(parser: Parser, disk: Disk) {
    Remnant(parser, disk.path) && Remnant(parser, disk.backup)
  }

  ghost predicate FileIs(parser: Parser, file: Option<Bytes>, committed: Option<Bytes>) {
    if committed.Some? then file == committed else Remnant(parser, file)
  }

  // A crashed process finds the committed value, or the pending one in its place.
  ghost predicate Recoverable(parser: Parser, s: State)
    requires s.committed.Some?
  {
    || s.disk.path == s.committed
    || (s.pending.Some? && s.disk.path == s.pending)
    || (!Parses(parser, s.disk.path) && s.disk.backup == s.committed)
  }

  ghost predicate DiskInv(parser: Parser, s: State) {
    match s.phase
    case Idle =>
      && s.pending == None && FileIs(parser, s.disk.path, s.committed)
      && (s.committed == None ==> Remnant(parser, s.disk.backup))
    case Saving(buf) =>
      FileIs(parser, s.disk.path, s.committed) && (s.committed == None ==> Remnant(parser, s.disk.backup))
    case OldRemoved(buf) => FileIs(parser, s.disk.path, s.committed) && s.disk.backup == None
    case Renamed(buf) => s.disk.path == None && FileIs(parser, s.disk.backup, s.committed)
    case WritingPath(buf, n) =>
      n <= |buf| && s.disk.path == Some(buf[..n]) && FileIs(parser, s.disk.backup, s.committed)
    case WritingOld(buf, n) => n <= |buf| && s.disk == Disk(Some(buf), Some(buf[..n]))
    case Down =>
      if s.committed.Some? then Recoverable(parser, s)
      else Remnants(parser, s.disk) || (s.pending.Some? && s.disk.path == s.pending)
    case Restoring(buf, n) =>
      && s.committed == Some(buf) && n <= |buf| && s.disk == Disk(Some(buf[..n]), s.committed)
    case LoadFailed => s.committed.None? && Remnants(parser, s.disk)
  }

  ghost predicate Inv(parser: Parser, s: State) {
    && (s.committed.Some? ==> Savable(parser, s.committed.value))
    && (s.pending.Some? ==> Savable(parser, s.pending.value))
    && (s.phase.Saving? || s.phase.OldRemoved? || s.phase.Renamed? || s.phase.WritingPath? || s.phase.WritingOld?
        ==> s.pending == Some(s.phase.buf))
    && DiskInv(parser, s)
  }

  lemma {:induction false} RemnantDoesNotParse(parser: Parser, file: Option<Bytes>)
    requires Remnant(parser, file)
    ensures !Parses(parser, file)
  {
  }

  // Cutting a write short leaves a torn file or the whole buffer.
  lemma {:induction false} TornOrWhole(parser: Parser, buf: Bytes, n: nat)
    requires Savable(parser, buf) && n <= |buf|
    ensures Remnant(parser, Some(buf[..n])) || buf[..n] == buf
    ensures n < |buf| ==> !parser(buf[..n])
  {
    if n == |buf| {
      assert buf[..n] == buf;
    } else {
      assert Torn(Some(buf[..n]), buf);
    }
  }

  lemma {:induction false} CrashKeepsInv(parser: Parser, s: State, s': State)
    requires Inv(parser, s) && Crash(s, s')
    ensures Inv(parser, s')
  {
    if s.phase.WritingPath? || s.phase.Restoring? {
      TornOrWhole(parser, s.phase.buf, s.phase.n);
    }
  }

  lemma {:induction false} StepKeepsInv(parser: Parser, s: State, s': State)
    requires Inv(parser, s) && Next(parser, s, s')
    ensures Inv(parser, s')
  {
    if Crash(s, s') {
      CrashKeepsInv(parser, s, s');
    } else if OpenOld(s, s') || EndRestore(s, s') || EndSave(s, s') {
      assert s.phase.buf[..s.phase.n] == s.phase.buf;
    } else if LoadPath(parser, s, s') {
      FirstLoad(parser, s);
    } else if LoadOld(parser, s, s') || FailLoad(parser, s, s') {
      FirstLoad(parser, s);
      if LoadOld(parser, s, s') {
        assert s.disk.backup.value[..0] == [];
      }
    } else if OpenPath(s, s') {
      assert s.phase.buf[..0] == [];
    }
  }

  // Without a committed value only the pending one can be found, and only under the name itself.
  lemma {:induction false} FirstLoad(parser: Parser, s: State)
    requires Inv(parser, s) && s.phase.Down?
    ensures s.committed.None? && Parses(parser, s.disk.path) ==> s.disk.path == s.pending
    ensures s.committed.None? && !Parses(parser, s.disk.path) ==> Remnants(parser, s.disk)
    ensures s.committed.None? && !Parses(parser, s.disk.path) ==> !Parses(parser, s.disk.backup)
  {
    if s.committed.None? && Remnants(parser, s.disk) {
      RemnantDoesNotParse(parser, s.disk.path);
      RemnantDoesNotParse(parser, s.disk.backup);
    }
  }

  lemma {:induction false} InvHolds(parser: Parser, run: seq<State>, i: nat)
    requires IsRun(parser, run) && i < |run|
    ensures Inv(parser, run[i])
  {
    if i > 0 {
      InvHolds(parser, run, i - 1);
      StepKeepsInv(parser, run[i - 1], run[i]);
    }
  }

  // ---- What a load returns ----

  /** The value that a load left alone from here on hands to the program. */
  function LoadValue(parser: Parser, disk: Disk): Option<Bytes> {
    if Parses(parser, disk.path) then disk.path
    else if Parses(parser, disk.backup) then disk.backup
    else None
  }

  ghost predicate Reachable(parser: Parser, s: State) {
    exists run :: IsRun(parser, run) && s == run[|run| - 1]
  }

  /** Atomicity: once a value is committed, a restart at any moment finds that value or the
      one being written, whatever was saved, cut off and recovered before. */
  lemma {:induction false} CommittedSurvives(parser: Parser, s: State, s': State)
    requires Reachable(parser, s) && s.committed.Some? && Crash(s, s')
    ensures var v := LoadValue(parser, s'.disk);
      v == s.committed || (s.pending.Some? && v == s.pending)
  {
    var run :| IsRun(parser, run) && s == run[|run| - 1];
    InvHolds(parser, run, |run| - 1);
    StepKeepsInv(parser, s, s');
  }

  /** So a load that completes hands over one of the two, and no load fails or starts empty. */
  lemma {:induction false} LoadsReturnCommittedOrPending(parser: Parser, s: State, s': State)
    requires Reachable(parser, s) && s.committed.Some? && Next(parser, s, s')
    ensures LoadPath(parser, s, s') || EndRestore(s, s') ==>
      s'.committed == s.committed || s'.committed == s.pending
    ensures !LoadNothing(s, s') && !FailLoad(parser, s, s')
    ensures s.phase.Down? ==> LoadValue(parser, s.disk).Some?
  {
    var run :| IsRun(parser, run) && s == run[|run| - 1];
    InvHolds(parser, run, |run| - 1);
  }

  /** Recovery may itself be cut off and rerun: none of its steps changes what is found. */
  lemma {:induction false} RecoveryIsRepeatable(parser: Parser, s: State, s': State, s'': State)
    requires Reachable(parser, s) && s.committed.Some? && (s.phase.Down? || s.phase.Restoring?)
    requires LoadPath(parser, s, s') || LoadOld(parser, s, s') || Restore(s, s') || EndRestore(s, s')
    requires Crash(s', s'')
    ensures LoadValue(parser, s''.disk) == LoadValue(parser, s.disk)
  {
    var run :| IsRun(parser, run) && s == run[|run| - 1];
    InvHolds(parser, run, |run| - 1);
    StepKeepsInv(parser, s, s');
    if s.phase.Restoring? {
      TornOrWhole(parser, s.phase.buf, s.phase.n);
    }
    if s'.phase.Restoring? {
      TornOrWhole(parser, s'.phase.buf, s'.phase.n);
    }
  }

  /** A load fails exactly when nothing is committed, some file is there and the last save, if any, has not
      written its whole buffer under the name itself; each file is then what some save has left. */
  lemma {:induction false} LoadFailsExactly(parser: Parser, s: State)
    requires Reachable(parser, s) && s.phase.Down?
    ensures (exists s' :: FailLoad(parser, s, s')) <==>
      s.committed.None? && s.disk != Disk(None, None) && !(s.pending.Some? && s.disk.path == s.pending)
    ensures (exists s' :: FailLoad(parser, s, s')) ==> Remnants(parser, s.disk)
  {
    var run :| IsRun(parser, run) && s == run[|run| - 1];
    InvHolds(parser, run, |run| - 1);
    FirstLoad(parser, s);
    if s.committed.None? && s.disk != Disk(None, None) && !(s.pending.Some? && s.disk.path == s.pending) {
      assert FailLoad(parser, s, s.(phase := LoadFailed));
    }
  }

  /** After a failed load the program goes on with nothing, unless it crashes. */
  lemma {:induction false} FailedLoadGoesOn(parser: Parser, s: State, s': State)
    requires s.phase.LoadFailed?
    ensures Next(parser, s, s') <==>
      s' == s.(phase := Down) || s' == s.(phase := Idle, committed := None, pending := None)
  {
  }

  /** The program goes on after a failed load, and one save that ends repairs the files: from then on a value
      is committed, and the statements above hold. */
  lemma {:induction false} SaveRepairs(parser: Parser, s: State, s': State)
    requires Reachable(parser, s) && EndSave(s, s')
    ensures s'.committed == s.pending && s'.committed.Some? && LoadValue(parser, s'.disk) == s'.committed
  {
    var run :| IsRun(parser, run) && s == run[|run| - 1];
    InvHolds(parser, run, |run| - 1);
  }

  /** The load before the next save is needed: a save that starts from what a crash left
      loses every value at its first step if and only if the file itself does not parse. */
  lemma {:induction false} SaveBeforeLoadLoses(parser: Parser, s: State, buf: Bytes, s': State)
    requires Reachable(parser, s) && s.phase.Down? && s.committed.Some?
    requires RemoveOld(s.(phase := Saving(buf)), s')
    ensures LoadValue(parser, s'.disk) == None <==> !Parses(parser, s.disk.path)
    ensures LoadValue(parser, s.disk).Some?
  {
    var run :| IsRun(parser, run) && s == run[|run| - 1];
    InvHolds(parser, run, |run| - 1);
  }

  // ---- The two calls, left alone ----

  /** The directory entry pair as the program writes it, with the states passed through. */
  class Files {
    var disk: Disk
    ghost var trace: seq<State>

    ghost predicate Traced(parser: Parser)
      reads this
    {
      && trace != [] && trace[|trace| - 1].disk == disk
      && forall i :: 0 < i < |trace| ==> Next(parser, trace[i - 1], trace[i])
    }

    constructor ()
      ensures disk == Disk(None, None) && trace == [State(disk, Down, None, None)]
    {
      disk := Disk(None, None);
      trace := [State(Disk(None, None), Down, None, None)];
    }

    ghost method Note(parser: Parser, s: State)
      requires trace != [] && s.disk == disk && Next(parser, trace[|trace| - 1], s)
      requires forall i :: 0 < i < |trace| ==> Next(parser, trace[i - 1], trace[i])
      modifies this`trace
      ensures trace == old(trace) + [s] && Traced(parser)
    {
      trace := trace + [s];
    }

    ghost predicate At(parser: Parser, s: State)
      reads this
    {
      Traced(parser) && trace[|trace| - 1] == s
    }

    method MoveAside(ghost parser: Parser, buf: Bytes)
      requires Traced(parser) && trace[|trace| - 1].phase.Idle? && Savable(parser, buf)
      modifies this
      ensures old(trace) <= trace && disk == Disk(None, old(disk.path))
      ensures At(parser, State(disk, Renamed(buf), old(trace[|trace| - 1].committed), Some(buf)))
    {
      ghost var s := trace[|trace| - 1].(phase := Saving(buf), pending := Some(buf));
      Note(parser, s);
      disk := disk.(backup := None);
      s := s.(phase := OldRemoved(buf), disk := disk);
      Note(parser, s);
      if disk.path.Some? {
        disk := Disk(None, disk.path);
      }
      s := s.(phase := Renamed(buf), disk := disk);
      Note(parser, s);
    }

    method CreatePath(ghost parser: Parser, buf: Bytes, ghost committed: Option<Bytes>)
      requires At(parser, State(disk, Renamed(buf), committed, Some(buf)))
      modifies this
      ensures old(trace) <= trace && disk == Disk(Some(buf), old(disk.backup))
      ensures At(parser, State(disk, WritingPath(buf, |buf|), committed, Some(buf)))
    {
      disk := disk.(path := Some([]));
      Note(parser, State(disk, WritingPath(buf, 0), committed, Some(buf)));
      var n := 0;
      while n < |buf|
        invariant n <= |buf| && disk == Disk(Some(buf[..n]), old(disk.backup))
        invariant At(parser, State(disk, WritingPath(buf, n), committed, Some(buf)))
        invariant old(trace) <= trace
      {
        var chunk :| n < chunk <= |buf|;
        n := chunk;
        disk := disk.(path := Some(buf[..n]));
        Note(parser, State(disk, WritingPath(buf, n), committed, Some(buf)));
      }
      assert buf[..n] == buf;
    }

    method CreateOld(ghost parser: Parser, buf: Bytes, ghost committed: Option<Bytes>)
      requires At(parser, State(disk, WritingPath(buf, |buf|), committed, Some(buf)))
      requires disk.path == Some(buf)
      modifies this
      ensures old(trace) <= trace && disk == Disk(Some(buf), Some(buf))
      ensures At(parser, State(disk, WritingOld(buf, |buf|), committed, Some(buf)))
    {
      disk := disk.(backup := Some([]));
      Note(parser, State(disk, WritingOld(buf, 0), committed, Some(buf)));
      var n := 0;
      while n < |buf|
        invariant n <= |buf| && disk == Disk(Some(buf), Some(buf[..n]))
        invariant At(parser, State(disk, WritingOld(buf, n), committed, Some(buf)))
        invariant old(trace) <= trace
      {
        var chunk :| n < chunk <= |buf|;
        n := chunk;
        disk := disk.(backup := Some(buf[..n]));
        Note(parser, State(disk, WritingOld(buf, n), committed, Some(buf)));
      }
      assert buf[..n] == buf;
    }

    /** Every state between the file calls is one of the machine's, so a crash may hit it. */
    method WriteFileWithOld(ghost parser: Parser, buf: Bytes)
      requires Traced(parser) && trace[|trace| - 1].phase.Idle? && Savable(parser, buf)
      modifies this
      ensures Traced(parser) && old(trace) <= trace
      ensures disk == Disk(Some(buf), Some(buf))
      ensures trace[|trace| - 1] == State(disk, Idle, Some(buf), None)
    {
      ghost var committed := trace[|trace| - 1].committed;
      MoveAside(parser, buf);
      CreatePath(parser, buf, committed);
      CreateOld(parser, buf, committed);
      Note(parser, State(disk, Idle, Some(buf), None));
    }

    /** Returns what LoadValue promises and leaves it under the name itself; the load
        reports an error when files exist and none parses. */
    method ParseFileOrOld(parser: Parser) returns (result: Option<Bytes>, failed: bool)
      requires Traced(parser) && trace[|trace| - 1].phase.Down?
      modifies this
      ensures Traced(parser) && old(trace) <= trace
      ensures result == LoadValue(parser, old(disk))
      ensures failed <==> result == None && old(disk) != Disk(None, None)
      ensures if failed then trace[|trace| - 1].phase.LoadFailed? && disk == old(disk)
              else trace[|trace| - 1] == State(disk, Idle, result, None) && disk.path == result
    {
      ghost var s := trace[|trace| - 1];
      failed := false;
      if disk.path.Some? && parser(disk.path.value) {
        result := disk.path;
        Note(parser, State(disk, Idle, result, None));
        return;
      }
      if disk.backup.Some? && parser(disk.backup.value) {
        result := disk.backup;
        var buf := result.value;
        disk := disk.(path := Some([]));
        s := s.(phase := Restoring(buf, 0), disk := disk);
        Note(parser, s);
        var n := 0;
        while n < |buf|
          invariant n <= |buf| && disk.path == Some(buf[..n])
          invariant s == State(disk, Restoring(buf, n), s.committed, s.pending)
          invariant Traced(parser) && trace[|trace| - 1] == s
          invariant old(trace) <= trace
        {
          var chunk :| n < chunk <= |buf|;
          n := chunk;
          disk := disk.(path := Some(buf[..n]));
          s := s.(phase := Restoring(buf, n), disk := disk);
          Note(parser, s);
        }
        assert buf[..n] == buf;
        Note(parser, State(disk, Idle, result, None));
        return;
      }
      result := None;
      if disk.path.None? && disk.backup.None? {
        Note(parser, State(disk, Idle, None, None));
      } else {
        failed := true;
        Note(parser, s.(phase := LoadFailed));
      }
    }
  }
}
