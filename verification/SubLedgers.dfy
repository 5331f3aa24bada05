/** Loading the statistics of the node and then of its storages: the files of the storages are found by
    reading their directory, in which only names that end in ".json" count. */
module SubLedgers {
  import opened Common
  import opened SafeFile

  /** The files of one storage; the entries come in the order in which the directory is read. */
  datatype Entry = Entry(name: string, disk: Disk)

  predicate Fails(parser: Parser, disk: Disk) {
    disk != Disk(None, None) && LoadValue(parser, disk).None?
  }

  /** The scan comes to entry k: the node's own load and those before have not failed. */
  predicate Reached(parser: Parser, main: Disk, entries: seq<Entry>, k: nat)
    requires k <= |entries|
  {
    && !Fails(parser, main)
    && forall j :: 0 <= j < k && entries[j].disk.path.Some? ==> !Fails(parser, entries[j].disk)
  }

  ghost predicate DistinctNames(entries: seq<Entry>) {
    forall j, k :: 0 <= j < k < |entries| ==> entries[j].name != entries[k].name
  }

  /** Loads what it finds and stops at the first file that does not load; the ledgers of the storages it has
      not come to are missing, as is one that has only its old copy. */
  method Load(parser: Parser, main: Disk, entries: seq<Entry>)
    returns (value: Option<Bytes>, loaded: map<string, Bytes>, failed: bool)
    requires DistinctNames(entries)
    ensures value == LoadValue(parser, main)
    ensures failed <==> !Reached(parser, main, entries, |entries|)
    ensures forall k :: 0 <= k < |entries| ==>
      (entries[k].name in loaded <==> Reached(parser, main, entries, k) && Found(parser, entries[k].disk))
    ensures forall k :: 0 <= k < |entries| && entries[k].name in loaded ==>
      Some(loaded[entries[k].name]) == LoadValue(parser, entries[k].disk)
  {
    value, loaded, failed := LoadValue(parser, main), map[], false;
    if Fails(parser, main) {
      failed := true;
      return;
    }
    for i := 0 to |entries|
      invariant Reached(parser, main, entries, i) && !failed
      invariant forall x :: x in loaded ==> exists k :: 0 <= k < i && entries[k].name == x
      invariant forall k :: 0 <= k < i ==> (entries[k].name in loaded <==> Found(parser, entries[k].disk))
      invariant forall k :: 0 <= k < i && entries[k].name in loaded ==>
        Some(loaded[entries[k].name]) == LoadValue(parser, entries[k].disk)
    {
      var disk := entries[i].disk;
      if disk.path.Some? {
        var data := LoadValue(parser, disk);
        if data.None? {
          failed := true;
          return;
        }
        loaded := loaded[entries[i].name := data.value];
      }
    }
  }

  predicate Found(parser: Parser, disk: Disk) {
    disk.path.Some? && LoadValue(parser, disk).Some?
  }

  /** The load of a ledger fails exactly if a file is there and neither can be parsed. */
  lemma {:induction false} FailsExactly(parser: Parser, s: State)
    requires s.phase.Down?
    ensures Fails(parser, s.disk) <==> exists s' :: FailLoad(parser, s, s')
    ensures Fails(parser, s.disk) <==>
      && (s.disk.path.Some? || s.disk.backup.Some?)
      && !Parses(parser, s.disk.path) && !Parses(parser, s.disk.backup)
  {
    if Fails(parser, s.disk) {
      assert FailLoad(parser, s, s.(phase := LoadFailed));
    }
  }

  // ---- the files of one storage over many lives ----

  /** The scan does not come to the files, or sees none under the name itself: the program goes on without
      them, and what it saves next it has not loaded. */
  ghost predicate Pass(s: State, s': State) {
    s.phase.Down? && s' == s.(phase := Idle, committed := None, pending := None)
  }

  /** The steps of the file protocol, but a file that is not there under the name itself is never loaded. */
  ghost predicate ScanNext(parser: Parser, s: State, s': State) {
    || Pass(s, s')
    || (Next(parser, s, s') && (s.phase.Down? && s.disk.path.None? ==> Crash(s, s')))
  }

  /** At the start of a life a ledger can be passed over; it can be loaded as the node's own one exactly if its
      file is there under the name itself. */
  lemma {:induction false} ScanFromDown(parser: Parser, s: State, s': State)
    requires s.phase.Down?
    ensures ScanNext(parser, s, s') <==>
      || s' == s || s' == s.(phase := Idle, committed := None, pending := None)
      || (s.disk.path.Some? && (LoadPath(parser, s, s') || LoadOld(parser, s, s') || FailLoad(parser, s, s')))
  {
  }

  ghost predicate IsScanRun(parser: Parser, run: seq<State>) {
    run != [] && forall i :: 0 < i < |run| ==> ScanNext(parser, run[i - 1], run[i])
  }

  ghost predicate ScanReachable(parser: Parser, s: State) {
    exists run :: IsScanRun(parser, run) && Init(run[0]) && s == run[|run| - 1]
  }

  /** Nothing, or a prefix of what some save has written. */
  ghost predicate Piece(parser: Parser, file: Option<Bytes>) {
    file.None? || exists buf :: Savable(parser, buf) && file.value <= buf
  }

  ghost predicate Shape(parser: Parser, s: State) {
    match s.phase
    case WritingPath(buf, n) => n <= |buf| && s.disk.path == Some(buf[..n])
    case WritingOld(buf, n) => n <= |buf| && s.disk == Disk(Some(buf), Some(buf[..n]))
    case Restoring(buf, n) => Savable(parser, buf) && n <= |buf| && s.disk == Disk(Some(buf[..n]), Some(buf))
    case LoadFailed => s.committed.None?
    case _ => true
  }

  ghost predicate ScanInv(parser: Parser, s: State) {
    && Piece(parser, s.disk.path) && Piece(parser, s.disk.backup) && Shape(parser, s)
    && (s.pending.Some? ==> Savable(parser, s.pending.value))
    && (s.phase.Saving? || s.phase.OldRemoved? || s.phase.Renamed? || s.phase.WritingPath? || s.phase.WritingOld?
        ==> s.pending == Some(s.phase.buf))
    && (s.committed.Some? ==> Inv(parser, s))
  }

  lemma {:induction false} PieceParses(parser: Parser, file: Option<Bytes>)
    requires Piece(parser, file) && Parses(parser, file)
    ensures Savable(parser, file.value)
  {
    var buf :| Savable(parser, buf) && file.value <= buf;
    assert file.value == buf[..|file.value|];
    if |file.value| == |buf| {
      assert file.value == buf;
    }
  }

  lemma {:induction false} PrefixIsPiece(parser: Parser, buf: Bytes, n: nat)
    requires Savable(parser, buf) && n <= |buf|
    ensures Piece(parser, Some(buf[..n])) && (n == |buf| ==> buf[..n] == buf)
  {
    assert buf[..n] <= buf;
  }

  lemma {:induction false} ShapeStays(parser: Parser, s: State, s': State)
    requires ScanInv(parser, s) && ScanNext(parser, s, s')
    ensures Shape(parser, s')
  {
    if LoadOld(parser, s, s') {
      PieceParses(parser, s.disk.backup);
    } else if OpenOld(s, s') {
      assert s.phase.buf[..s.phase.n] == s.phase.buf;
    }
  }

  // What a save or a restore writes is a prefix of its buffer.
  lemma {:induction false} FilesStayPieces(parser: Parser, s: State, s': State)
    requires ScanInv(parser, s) && ScanNext(parser, s, s') && Shape(parser, s')
    ensures Piece(parser, s'.disk.path) && Piece(parser, s'.disk.backup)
  {
    match s'.phase
    case WritingPath(buf, n) => PrefixIsPiece(parser, buf, n);
    case WritingOld(buf, n) => PrefixIsPiece(parser, buf, n); PrefixIsPiece(parser, buf, |buf|);
    case Restoring(buf, n) => PrefixIsPiece(parser, buf, n);
    case _ =>
  }

  lemma {:induction false} LoadedIsSavable(parser: Parser, s: State, s': State)
    requires ScanInv(parser, s) && ScanNext(parser, s, s') && s.committed.None? && s'.committed.Some?
    ensures Inv(parser, s')
  {
    if LoadPath(parser, s, s') {
      PieceParses(parser, s.disk.path);
    } else {
      PrefixIsPiece(parser, s.phase.buf, s.phase.n);
    }
  }

  lemma {:induction false} ScanKeepsInv(parser: Parser, s: State, s': State)
    requires ScanInv(parser, s) && ScanNext(parser, s, s')
    ensures ScanInv(parser, s')
  {
    ShapeStays(parser, s, s');
    FilesStayPieces(parser, s, s');
    if s.committed.Some? && !Pass(s, s') {
      StepKeepsInv(parser, s, s');
    } else if s'.committed.Some? {
      LoadedIsSavable(parser, s, s');
    }
  }

  lemma {:induction false} ScanInvHolds(parser: Parser, run: seq<State>, i: nat)
    requires IsScanRun(parser, run) && Init(run[0]) && i < |run|
    ensures ScanInv(parser, run[i])
  {
    if i > 0 {
      ScanInvHolds(parser, run, i - 1);
      ScanKeepsInv(parser, run[i - 1], run[i]);
    }
  }

  /** Over all histories, also those in which earlier scans missed the files or stopped before them: after a
      crash the ledger of a storage whose value was committed is loaded, with that value or the one being
      saved, exactly if the node's own file and those of the storages before it load and its own file
      exists; the file is missing exactly if the crash came between the renaming and the creation. */
  lemma {:induction false} SubLedgerSurvivesExactly(parser: Parser, main: Disk, entries: seq<Entry>, k: nat, s: State)
    requires k < |entries| && ScanReachable(parser, s) && s.phase.Down? && s.committed.Some? && s.disk == entries[k].disk
    ensures Reached(parser, main, entries, k) && Found(parser, entries[k].disk)
      <==> Reached(parser, main, entries, k) && entries[k].disk.path.Some?
    ensures var v := LoadValue(parser, entries[k].disk); v == s.committed || (s.pending.Some? && v == s.pending)
    ensures entries[k].disk.path.None? <==> entries[k].disk == Disk(None, s.committed)
  {
    var run :| IsScanRun(parser, run) && Init(run[0]) && s == run[|run| - 1];
    ScanInvHolds(parser, run, |run| - 1);
  }

  // ---- what a scan has not loaded ----

  ghost predicate Missed(s: State, disk: Disk) {
    s.disk == disk && (s.phase.Down? || s.phase.Idle? || s.phase.Saving?)
  }

  /** A ledger that is missing under its name is lost for good although its old copy is whole: no load ever
      takes the copy, and before anything else is written it is removed. */
  lemma {:induction false} MissedIsLost(parser: Parser, run: seq<State>, i: nat)
    requires IsScanRun(parser, run) && i < |run| && run[0].phase.Down? && run[0].disk.path.None?
    ensures Missed(run[i], run[0].disk) || exists j :: 0 <= j <= i && run[j].disk == Disk(None, None)
    ensures i > 0 && Missed(run[i - 1], run[0].disk) ==>
      if Missed(run[i], run[0].disk) then run[i].committed.Some? ==> run[i].committed == run[i - 1].committed
      else RemoveOld(run[i - 1], run[i]) && LoadValue(parser, run[i].disk) == None
  {
    if i > 0 {
      MissedIsLost(parser, run, i - 1);
      assert ScanNext(parser, run[i - 1], run[i]);
    }
  }

  /** A save of what was not loaded takes every value with its first step exactly if the file under the name
      itself does not parse, be it missing or torn. */
  lemma {:induction false} PassedLosesExactly(parser: Parser, s: State, s1: State, s2: State, s3: State)
    requires ScanReachable(parser, s) && s.committed.Some?
    requires Pass(s, s1) && BeginSave(parser, s1, s2) && RemoveOld(s2, s3)
    ensures LoadValue(parser, s.disk).Some?
    ensures LoadValue(parser, s3.disk) == if Parses(parser, s.disk.path) then LoadValue(parser, s.disk) else None
  {
    var run :| IsScanRun(parser, run) && Init(run[0]) && s == run[|run| - 1];
    ScanInvHolds(parser, run, |run| - 1);
  }

  // A save is under way over a file that holds v.
  ghost predicate Holding(s: State, v: Bytes) {
    match s.phase
    case Idle => s.disk.path == Some(v)
    case Saving(buf) => s.disk.path == Some(v)
    case OldRemoved(buf) => s.disk == Disk(Some(v), None)
    case Renamed(buf) => s.disk == Disk(None, Some(v))
    case WritingPath(buf, n) => n <= |buf| && s.disk == Disk(Some(buf[..n]), Some(v))
    case WritingOld(buf, n) => s.disk.path == Some(buf)
    case _ => false
  }

  /** If it parses, its value is found at every step of the next save, until the new one is in its place. */
  lemma {:induction false} UnreachedStays(parser: Parser, run: seq<State>, i: nat, v: Bytes)
    requires IsScanRun(parser, run) && i < |run| && Savable(parser, v)
    requires run[0].phase.Idle? && run[0].pending.None? && run[0].disk.path == Some(v)
    requires forall k :: 0 < k <= i ==> !EndSave(run[k - 1], run[k]) && !run[k].phase.Down?
    ensures Holding(run[i], v) && (run[i].pending.Some? ==> Savable(parser, run[i].pending.value))
    ensures !run[i].phase.Idle? ==> run[i].pending == Some(run[i].phase.buf)
    ensures LoadValue(parser, run[i].disk) == Some(v) || LoadValue(parser, run[i].disk) == run[i].pending
  {
    if i > 0 {
      UnreachedStays(parser, run, i - 1, v);
      assert ScanNext(parser, run[i - 1], run[i]);
      if OpenOld(run[i - 1], run[i]) {
        assert run[i].phase.buf[..run[i - 1].phase.n] == run[i].phase.buf;
      }
    }
    if run[i].phase.WritingPath? {
      TornOrWhole(parser, run[i].phase.buf, run[i].phase.n);
    }
  }
}
