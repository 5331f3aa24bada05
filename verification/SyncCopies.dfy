/** What a run of the download pipeline has copied: with no target named twice, a copy that failed or was
    skipped, or whose file was not fetched, is not on its storage. */
module SyncCopies {
  import opened BufSlots
  import opened SyncPipeline

  ghost predicate DistinctTargets(c: Config) {
    forall i :: 0 <= i < |c.targets| ==> NoDuplicates(c.targets[i])
  }

  // The first k targets are sorted into stored, skipped and failed ones.
  ghost predicate Sorted(f: File, targets: seq<nat>, k: nat, failed: seq<nat>) {
    && k <= |targets| && f.stored !! f.skipped
    && (forall x :: x in failed ==> x !in f.stored && x !in f.skipped && x in targets[..k])
    && (forall x :: x in f.stored || x in f.skipped ==> x in targets[..k])
  }

  ghost predicate FileSorted(f: File, targets: seq<nat>) {
    match f.writer
    case Writing(next, failed) => Sorted(f, targets, next, failed)
    case Sending(failed) => Sorted(f, targets, |targets|, failed)
    case Leaving(_) => Sorted(f, targets, |targets|, [])
    case WriteDone => Sorted(f, targets, |targets|, [])
    case _ => f.stored == {} && f.skipped == {}
  }

  /** A report names as failed only what is not stored; without a fetch nothing is. */
  ghost predicate ReportSorted(s: State, r: Report) {
    && r.file < |s.files|
    && (r.fetched ==> forall x :: x in r.failed ==> x !in s.files[r.file].stored)
    && (!r.fetched ==> s.files[r.file].stored == {})
  }

  ghost predicate AllSorted(c: Config, s: State) {
    && |s.files| == Files(c)
    && (forall i :: 0 <= i < |s.files| ==> FileSorted(s.files[i], c.targets[i]))
    && forall k :: 0 <= k < |AllReports(s)| ==> ReportSorted(s, AllReports(s)[k])
  }

  lemma {:induction false} NextIsNew(targets: seq<nat>, k: nat)
    requires NoDuplicates(targets) && k < |targets|
    ensures targets[k] !in targets[..k] && targets[..k + 1] == targets[..k] + [targets[k]]
  {
  }

  lemma {:induction false} LocalKeepsSorted(f: File, targets: seq<nat>, local: Local, cancelled: bool, slot: int)
    requires Permitted(f, targets, local, cancelled)
    requires FileSorted(f, targets) && NoDuplicates(targets)
    requires f.writer.Writing? ==> f.writer.next <= |targets|
    ensures FileSorted(After(f, targets, local, cancelled, slot), targets)
    ensures f.writer.Leaving? || f.writer.WriteDone? ==> After(f, targets, local, cancelled, slot).stored == f.stored
  {
    if local.WriteNext? {
      NextIsNew(targets, f.writer.next);
    } else if local.FreeEarly? {
      assert targets[..f.writer.next] == targets;
    }
  }

  lemma {:induction false} NewReportSorted(c: Config, s: State, i: nat, local: Local)
    requires Enabled(c, s, At(i, local)) && |s.files| == Files(c)
    requires FileSorted(s.files[i], c.targets[i]) && Reports(s.files[i], i, local) != []
    ensures ReportSorted(Apply(c, s, At(i, local)), Reports(s.files[i], i, local)[0])
  {
  }

  lemma {:induction false} OldReportSorted(c: Config, s: State, i: nat, local: Local, r: Report)
    requires Enabled(c, s, At(i, local)) && |s.files| == Files(c)
    requires FileInv(s.files[i], c.targets[i], true, s.cancelled) && FileSorted(s.files[i], c.targets[i])
    requires NoDuplicates(c.targets[i]) && ReportOk(c, s, r) && ReportSorted(s, r)
    ensures ReportSorted(Apply(c, s, At(i, local)), r)
  {
    var slot := if local.AllocSlot? then s.free[0] else NONE;
    LocalKeepsSorted(s.files[i], c.targets[i], local, s.cancelled, slot);
  }

  lemma {:induction false} LocalStepSorted(c: Config, s: State, i: nat, local: Local)
    requires Inv(c, s) && AllSorted(c, s) && DistinctTargets(c) && Enabled(c, s, At(i, local))
    ensures AllSorted(c, Apply(c, s, At(i, local)))
  {
    var s' := Apply(c, s, At(i, local));
    var before, added := AllReports(s), Reports(s.files[i], i, local);
    assert AllReports(s') == before + added;
    assert FileInv(s.files[i], c.targets[i], i < s.started, s.cancelled);
    assert FileSorted(s.files[i], c.targets[i]) && NoDuplicates(c.targets[i]);
    LocalKeepsSorted(s.files[i], c.targets[i], local, s.cancelled, if local.AllocSlot? then s.free[0] else NONE);
    forall k | 0 <= k < |AllReports(s')|
      ensures ReportSorted(s', AllReports(s')[k])
    {
      if k < |before| {
        assert ReportOk(c, s, before[k]) && ReportSorted(s, before[k]);
        OldReportSorted(c, s, i, local, before[k]);
      } else {
        NewReportSorted(c, s, i, local);
      }
    }
  }

  lemma {:induction false} MainStepSorted(c: Config, s: State, step: Step)
    requires Inv(c, s) && AllSorted(c, s) && Enabled(c, s, step) && !step.At?
    ensures AllSorted(c, Apply(c, s, step))
  {
    var s' := Apply(c, s, step);
    assert AllReports(s') == AllReports(s);
    if step.Start? {
      assert FileInv(s.files[s.started], c.targets[s.started], false, s.cancelled);
    }
    forall k | 0 <= k < |AllReports(s')|
      ensures ReportSorted(s', AllReports(s')[k])
    {
      assert ReportSorted(s, AllReports(s)[k]) && ReportOk(c, s, AllReports(s)[k]);
    }
  }

  lemma {:induction false} StepSorted(c: Config, s: State, s': State)
    requires Inv(c, s) && AllSorted(c, s) && DistinctTargets(c) && Next(c, s, s')
    ensures AllSorted(c, s')
  {
    var step :| Enabled(c, s, step) && s' == Apply(c, s, step);
    if step.At? {
      LocalStepSorted(c, s, step.i, step.local);
    } else {
      MainStepSorted(c, s, step);
    }
  }

  lemma {:induction false} InitSorted(c: Config)
    ensures AllSorted(c, InitState(c))
  {
  }

  lemma {:induction false} SortedHolds(c: Config, run: seq<State>, k: nat)
    requires IsRun(c, run) && k < |run| && DistinctTargets(c)
    ensures AllSorted(c, run[k])
  {
    if k == 0 {
      InitSorted(c);
    } else {
      SortedHolds(c, run, k - 1);
      InvHolds(c, run, k - 1);
      assert Next(c, run[k - 1], run[k]);
      StepSorted(c, run[k - 1], run[k]);
    }
  }

  /** What the pipeline did not do for file i on storage s, although it was a target. */
  ghost predicate Failed(end: State, i: nat, s: nat)
    requires i < |end.files|
  {
    || (exists k :: 0 <= k < |end.received| && end.received[k].file == i
                    && (!end.received[k].fetched || s in end.received[k].failed))
    || s in end.files[i].skipped
  }

  /** When the pipeline has returned success, a target has its file exactly if nothing failed for it; no
      storage that was not a target has been written to. */
  lemma {:induction false} StoredExactly(c: Config, run: seq<State>, i: nat, s: nat)
    requires IsRun(c, run) && run[|run| - 1].main == Returned(true) && DistinctTargets(c)
    requires i < Files(c)
    ensures |run[|run| - 1].files| == Files(c)
    ensures s in run[|run| - 1].files[i].stored <==> s in c.targets[i] && !Failed(run[|run| - 1], i, s)
  {
    var end := run[|run| - 1];
    InvHolds(c, run, |run| - 1);
    SortedHolds(c, run, |run| - 1);
    CompleteRunReportsEachFileOnce(c, end);
    assert Reported(end.received, i) && FileSorted(end.files[i], c.targets[i]);
    assert FileInv(end.files[i], c.targets[i], i < end.started, end.cancelled);
    var k :| 0 <= k < |end.received| && end.received[k].file == i;
    assert ReportOk(c, end, end.received[k]);
    assert end.files[i].writer.Leaving? || end.files[i].writer.WriteDone?;
    forall k | 0 <= k < |end.received| && end.received[k].file == i
      ensures !end.received[k].fetched || s in end.received[k].failed ==> s !in end.files[i].stored
    {
      assert AllReports(end)[k] == end.received[k];
      assert ReportSorted(end, end.received[k]);
    }
  }
}
