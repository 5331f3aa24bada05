/** The sync as a whole: what the download pipeline makes of the storages for what a check has found, what
    is committed, and how a check, a sync and the garbage collection fit together. */
module SyncEffect {
  import opened Common
  import opened Presence
  import opened SyncGc
  import opened SyncCopies
  import P = SyncPipeline
  import B = BufSlots

  function SizeOf(files: seq<FileInfo>, h: Hash): int {
    if files == [] then 0
    else if files[|files| - 1].hash == h then files[|files| - 1].size
    else SizeOf(files[..|files| - 1], h)
  }

  /** A pipeline run for what a check has found: `order` is the order of the map iteration. */
  ghost predicate PipelineFor(missing: Missing, order: seq<Hash>, p: P.Config, stores: nat) {
    && P.ValidConfig(p) && p.storages == stores && |p.targets| == |order|
    && (forall h :: h in missing <==> h in order)
    && (forall i, j :: 0 <= i < j < |order| ==> order[i] != order[j])
    && (forall i :: 0 <= i < |order| ==> order[i] in missing && p.targets[i] == missing[order[i]])
  }

  // The pipeline created the file on the storage.
  ghost predicate Created(order: seq<Hash>, end: P.State, s: nat, h: Hash)
    requires |end.files| == |order|
  {
    exists i :: 0 <= i < |order| && order[i] == h && s in end.files[i].stored
  }

  /** The contents of storage s once the pipeline has ended. */
  ghost function Filled(files: seq<FileInfo>, store: Store, s: nat, order: seq<Hash>, end: P.State): Store
    requires |end.files| == |order|
  {
    map h | h in store.Keys + (set x | x in order) && (h in store || Created(order, end, s, h)) ::
      if Created(order, end, s, h) then SizeOf(files, h) else store[h]
  }

  lemma {:induction false} SizeOfDistinct(files: seq<FileInfo>, i: nat)
    requires Distinct(files) && i < |files|
    ensures SizeOf(files, files[i].hash) == files[i].size
  {
    var n := |files| - 1;
    if i < n {
      SizeOfDistinct(files[..n], i);
    }
  }

  ghost predicate NoFailures(end: P.State) {
    forall i: nat, s: nat :: i < |end.files| ==> !Failed(end, i, s)
  }

  lemma {:induction false} CommittedListed(fileset: map<Hash, int>, files: seq<FileInfo>, f: nat)
    requires f < |files|
    ensures files[f].hash in Committed(fileset, files)
  {
    var n := |files| - 1;
    if f < n {
      CommittedListed(fileset, files[..n], f);
    }
  }

  // The fetch of the file failed, or its copy to storage s.
  ghost predicate FailedFor(order: seq<Hash>, end: P.State, h: Hash, s: nat)
    requires |end.files| == |order|
  {
    exists i :: 0 <= i < |order| && order[i] == h && Failed(end, i, s)
  }

  lemma {:induction false} ListedOnce(c: Config, schedule: seq<nat>, f: nat, s: nat)
    requires ValidConfig(c) && forall k :: 0 <= k < |schedule| ==> schedule[k] < |c.stores|
    requires Presence.Finished(After(c, schedule)) && Distinct(c.files)
    requires f < |c.files| && s < |c.stores|
    ensures multiset(Targets(After(c, schedule).missing, c.files[f].hash))[s]
         == if c.walks[s] && Lacks(c.stores[s], c.files[f]) then 1 else 0
    ensures s in Targets(After(c, schedule).missing, c.files[f].hash) <==> c.walks[s] && Lacks(c.stores[s], c.files[f])
  {
    CheckCountsLacking(c, schedule, s, c.files[f].hash);
    LackingOfDistinct(c.files, c.stores[s], f, |c.files|);
    assert multiset(Targets(After(c, schedule).missing, c.files[f].hash))[s] > 0
      <==> s in Targets(After(c, schedule).missing, c.files[f].hash);
  }

  lemma {:induction false} TargetsAreDistinct(c: Config, schedule: seq<nat>, order: seq<Hash>, p: P.Config)
    requires ValidConfig(c) && forall k :: 0 <= k < |schedule| ==> schedule[k] < |c.stores|
    requires Presence.Finished(After(c, schedule)) && Distinct(c.files)
    requires PipelineFor(After(c, schedule).missing, order, p, |c.stores|)
    ensures DistinctTargets(p)
  {
    var missing := After(c, schedule).missing;
    CheckIsExact(c, schedule);
    forall i, j, k | 0 <= i < |p.targets| && 0 <= j < k < |p.targets[i]|
      ensures p.targets[i][j] != p.targets[i][k]
    {
      var targets: seq<nat>, h := p.targets[i], order[i];
      assert targets == missing[h] && targets[j] in missing[h];
      var f: nat :| f < |c.files| && c.files[f].hash == h;
      ListedOnce(c, schedule, f, targets[j]);
      if targets[j] == targets[k] {
        OncePerStore(targets, targets[j], j, k);
      }
    }
  }

  // The pipeline writes the file to storage s exactly if the check found it lacking and nothing failed.
  lemma {:induction false} CreatedExactly(
      c: Config, schedule: seq<nat>, order: seq<Hash>, p: P.Config, run: seq<P.State>, f: nat, s: nat)
    requires ValidConfig(c) && forall k :: 0 <= k < |schedule| ==> schedule[k] < |c.stores|
    requires Presence.Finished(After(c, schedule)) && Distinct(c.files)
    requires PipelineFor(After(c, schedule).missing, order, p, |c.stores|)
    requires P.IsRun(p, run) && run[|run| - 1].main == P.Returned(true)
    requires f < |c.files| && s < |c.stores|
    ensures var end, h := run[|run| - 1], c.files[f].hash;
      && |end.files| == |order|
      && (Created(order, end, s, h) <==>
           c.walks[s] && Lacks(c.stores[s], c.files[f]) && !FailedFor(order, end, h, s))
  {
    var missing, end, h := After(c, schedule).missing, run[|run| - 1], c.files[f].hash;
    P.InvHolds(p, run, |run| - 1);
    TargetsAreDistinct(c, schedule, order, p);
    ListedOnce(c, schedule, f, s);
    forall i: nat | i < |order| && order[i] == h
      ensures s in end.files[i].stored <==> c.walks[s] && Lacks(c.stores[s], c.files[f]) && !Failed(end, i, s)
    {
      StoredExactly(p, run, i, s);
      assert p.targets[i] == Targets(missing, h);
    }
    if c.walks[s] && Lacks(c.stores[s], c.files[f]) {
      assert h in missing;
      var i :| 0 <= i < |order| && order[i] == h;
    }
  }

  /** After a check and a complete run of the pipeline, a storage lacks a listed file exactly if it lacked it
      before and, unless its walk had failed, the fetch or the copy to that storage failed. */
  lemma {:induction false} SyncLeavesExactlyFailures(
      c: Config, schedule: seq<nat>, order: seq<Hash>, p: P.Config, run: seq<P.State>, f: nat, s: nat)
    requires ValidConfig(c) && forall k :: 0 <= k < |schedule| ==> schedule[k] < |c.stores|
    requires Presence.Finished(After(c, schedule)) && Distinct(c.files)
    requires PipelineFor(After(c, schedule).missing, order, p, |c.stores|)
    requires P.IsRun(p, run) && run[|run| - 1].main == P.Returned(true)
    requires f < |c.files| && s < |c.stores|
    ensures |run[|run| - 1].files| == |order|
    ensures Lacks(Filled(c.files, c.stores[s], s, order, run[|run| - 1]), c.files[f])
      <==> Lacks(c.stores[s], c.files[f]) && (c.walks[s] ==> FailedFor(order, run[|run| - 1], c.files[f].hash, s))
  {
    SizeOfDistinct(c.files, f);
    CreatedExactly(c, schedule, order, p, run, f, s);
  }

  /** So a sync that returns success has committed every file of its list, and a file of it is on no storage
      exactly if no storage had it and the fetch, or every copy to a storage that was walked, failed. */
  lemma {:induction false} CommittedFileIsNowhere(
      c: Config, schedule: seq<nat>, order: seq<Hash>, p: P.Config, run: seq<P.State>, fileset: map<Hash, int>, f: nat)
    requires ValidConfig(c) && forall k :: 0 <= k < |schedule| ==> schedule[k] < |c.stores|
    requires Presence.Finished(After(c, schedule)) && Distinct(c.files)
    requires PipelineFor(After(c, schedule).missing, order, p, |c.stores|)
    requires P.IsRun(p, run) && run[|run| - 1].main == P.Returned(true)
    requires f < |c.files| && Walked(c)
    ensures |run[|run| - 1].files| == |order| && c.files[f].hash in Committed(fileset, c.files)
    ensures (forall s: nat :: s < |c.stores| ==>
              Lacks(Filled(c.files, c.stores[s], s, order, run[|run| - 1]), c.files[f]))
      <==> forall s: nat :: s < |c.stores| ==>
              Lacks(c.stores[s], c.files[f]) && (c.walks[s] ==> FailedFor(order, run[|run| - 1], c.files[f].hash, s))
  {
    P.InvHolds(p, run, |run| - 1);
    CommittedListed(fileset, c.files, f);
    forall s: nat | s < |c.stores|
      ensures Lacks(Filled(c.files, c.stores[s], s, order, run[|run| - 1]), c.files[f])
        <==> Lacks(c.stores[s], c.files[f]) && (c.walks[s] ==> FailedFor(order, run[|run| - 1], c.files[f].hash, s))
    {
      SyncLeavesExactlyFailures(c, schedule, order, p, run, f, s);
    }
  }

  /** A sync in which no fetch and no copy fails; without missing files there is no pipeline. */
  ghost predicate FaultFreeSync(
      c: Config, missing: Missing, order: seq<Hash>, p: P.Config, run: seq<P.State>, stores: seq<Store>)
  {
    && |stores| == |c.stores|
    && if missing == map[] then stores == c.stores else
       && PipelineFor(missing, order, p, |c.stores|)
       && P.IsRun(p, run) && run[|run| - 1].main == P.Returned(true)
       && |run[|run| - 1].files| == |order|
       && NoFailures(run[|run| - 1])
       && forall s: nat :: s < |stores| ==> stores[s] == Filled(c.files, c.stores[s], s, order, run[|run| - 1])
  }

  lemma {:induction false} FaultFreeSyncFills(
      c: Config, schedule: seq<nat>, order: seq<Hash>, p: P.Config, run: seq<P.State>, stores: seq<Store>, f: nat, s: nat)
    requires ValidConfig(c) && forall k :: 0 <= k < |schedule| ==> schedule[k] < |c.stores|
    requires Presence.Finished(After(c, schedule)) && Distinct(c.files)
    requires FaultFreeSync(c, After(c, schedule).missing, order, p, run, stores)
    requires f < |c.files| && s < |c.stores| && c.walks[s]
    ensures !Lacks(stores[s], c.files[f])
  {
    if After(c, schedule).missing == map[] {
      CheckIsExact(c, schedule);
      assert multiset(Targets(After(c, schedule).missing, c.files[f].hash))[s] == 0;
    } else {
      SyncLeavesExactlyFailures(c, schedule, order, p, run, f, s);
    }
  }

  lemma {:induction false} NothingLacksNothingMissing(c: Config, schedule: seq<nat>)
    requires ValidConfig(c) && forall k :: 0 <= k < |schedule| ==> schedule[k] < |c.stores|
    requires Presence.Finished(After(c, schedule))
    requires forall f: nat, s: nat :: f < |c.files| && s < |c.stores| && c.walks[s] ==> !Lacks(c.stores[s], c.files[f])
    ensures After(c, schedule).missing == map[]
  {
    var missing := After(c, schedule).missing;
    forall h | h in missing
      ensures false
    {
      var s := missing[h][0];
      assert s in missing[h] && multiset(missing[h])[s] > 0;
      CheckCountsLacking(c, schedule, s, h);
      LackingUnlisted(c.files, c.stores[s], h, |c.files|);
    }
  }

  /** Check, sync, commit and garbage collection agree: after them every storage holds every file that is
      not empty at its listed size, and a second check, in whatever order, finds nothing missing. */
  lemma {:induction false} CheckSyncGcAgree(
      c: Config, schedule: seq<nat>, order: seq<Hash>, p: P.Config, run: seq<P.State>, stores: seq<Store>,
      fileset: map<Hash, int>, again: Config, schedule': seq<nat>)
    requires ValidConfig(c) && forall k :: 0 <= k < |schedule| ==> schedule[k] < |c.stores|
    requires Presence.Finished(After(c, schedule)) && Distinct(c.files)
    requires forall s :: 0 <= s < |c.walks| ==> c.walks[s]
    requires FaultFreeSync(c, After(c, schedule).missing, order, p, run, stores)
    requires ValidConfig(again) && again.files == c.files && |again.stores| == |stores|
    requires forall s :: 0 <= s < |stores| ==> again.stores[s] == Restrict(stores[s], Committed(fileset, c.files).Keys)
    requires forall k :: 0 <= k < |schedule'| ==> schedule'[k] < |again.stores|
    requires Presence.Finished(After(again, schedule'))
    ensures forall f: nat, s: nat :: f < |c.files| && s < |stores| ==> !Lacks(again.stores[s], c.files[f])
    ensures After(again, schedule').missing == map[]
  {
    forall f: nat, s: nat | f < |c.files| && s < |stores|
      ensures !Lacks(again.stores[s], c.files[f])
    {
      FaultFreeSyncFills(c, schedule, order, p, run, stores, f, s);
      CommittedListed(fileset, c.files, f);
    }
    NothingLacksNothingMissing(again, schedule');
  }

  // One file and one storage: every try to fetch the file fails.
  const UNFETCHED := P.Config(1, 1, [[0]])
  const UNFETCHED_STEPS := [
    P.Start, P.At(0, P.FetchFail), P.At(0, P.FetchFail), P.At(0, P.FetchFail), P.At(0, P.FetchFail),
    P.At(0, P.FetchFail), P.At(0, P.FetchFree), P.At(0, P.TakePath), P.At(0, P.SendNil), P.Receive]

  ghost function UnfetchedState(k: nat): (s: P.State)
    requires k <= |UNFETCHED_STEPS|
    ensures |s.files| == 1
    ensures k < |UNFETCHED_STEPS| ==> P.Enabled(UNFETCHED, s, UNFETCHED_STEPS[k])
  {
    if k == 0 then P.State(P.Starting, 0, false, [0], [P.IDLE_FILE], [], [], {}) else
    var f := P.IDLE_FILE.(fetcher := P.Fetching(k), fslot := 0, writer := P.Waiting);
    var s := P.State(P.Collecting, 1, false, [], [f], [], [], {});
    if k <= 5 then s else
    var posted := f.(fetcher := P.Posted, path := P.Closed);
    if k == 6 then s.(files := [posted]) else
    var free := posted.(fetcher := P.FetchDone, fslot := B.NONE);
    if k == 7 then s.(free := [0], files := [free])
    else if k == 8 then s.(free := [0], files := [free.(writer := P.ReportNil)]) else
    var sent := s.(free := [0], files := [free.(writer := P.WriteDone, sent := true)]);
    if k == 9 then sent.(done := [P.Report(0, false, [])])
    else sent.(received := [P.Report(0, false, [])], main := P.Returned(true), cancelled := true)
  }

  lemma {:induction false} UnfetchedStep(k: nat)
    requires k < |UNFETCHED_STEPS|
    ensures P.Next(UNFETCHED, UnfetchedState(k), UnfetchedState(k + 1))
  {
    var s, s', step := UnfetchedState(k), UnfetchedState(k + 1), UNFETCHED_STEPS[k];
    assert P.Apply(UNFETCHED, s, step).files == s'.files;
    assert P.Apply(UNFETCHED, s, step).free == s'.free;
    assert s' == P.Apply(UNFETCHED, s, step);
  }

  ghost function UnfetchedRun(): seq<P.State> {
    seq(|UNFETCHED_STEPS| + 1, k requires 0 <= k <= |UNFETCHED_STEPS| => UnfetchedState(k))
  }

  lemma {:induction false} UnfetchedRunEnds()
    ensures P.IsRun(UNFETCHED, UnfetchedRun())
    ensures var end := UnfetchedRun()[|UnfetchedRun()| - 1];
      end.main == P.Returned(true) && |end.files| == 1 && end.received == [P.Report(0, false, [])]
  {
    assert UnfetchedState(0).free == P.InitState(UNFETCHED).free;
    assert UnfetchedState(0).files == P.InitState(UNFETCHED).files;
    forall i | 0 < i < |UnfetchedRun()|
      ensures P.Next(UNFETCHED, UnfetchedRun()[i - 1], UnfetchedRun()[i])
    {
      UnfetchedStep(i - 1);
    }
  }

  lemma {:induction false} OneTarget(targets: seq<nat>)
    requires targets != [] && multiset(targets)[0] == 1 && forall t :: t in targets ==> t == 0
    ensures targets == [0]
  {
    assert targets[0] in targets;
    if |targets| > 1 {
      assert targets[1] in targets;
      OncePerStore(targets, 0, 0, 1);
    }
  }

  /** It happens: one file that the one storage lacks, and every try to fetch it fails. */
  lemma {:induction false} UnfetchedFileIsCommitted(c: Config, schedule: seq<nat>, f: FileInfo, fileset: map<Hash, int>)
    requires f.size != 0 && c == Config([f], [map[]], [true])
    requires forall k :: 0 <= k < |schedule| ==> schedule[k] < |c.stores|
    requires Presence.Finished(After(c, schedule))
    ensures PipelineFor(After(c, schedule).missing, [f.hash], UNFETCHED, 1)
    ensures P.IsRun(UNFETCHED, UnfetchedRun())
    ensures var end := UnfetchedRun()[|UnfetchedRun()| - 1];
      && end.main == P.Returned(true) && |end.files| == 1
      && f.hash in Committed(fileset, c.files)
      && Lacks(Filled(c.files, c.stores[0], 0, [f.hash], end), f)
  {
    var missing := After(c, schedule).missing;
    var end := UnfetchedRun()[|UnfetchedRun()| - 1];
    CheckIsExact(c, schedule);
    assert Lacks(c.stores[0], f);
    ListedOnce(c, schedule, 0, 0);
    OneTarget(missing[f.hash]);
    UnfetchedRunEnds();
    assert end.received[0].file == 0 && !end.received[0].fetched && Failed(end, 0, 0);
    assert [f.hash][0] == f.hash;
    CommittedListed(fileset, c.files, 0);
    SyncLeavesExactlyFailures(c, schedule, [f.hash], UNFETCHED, UnfetchedRun(), 0, 0);
  }
}
