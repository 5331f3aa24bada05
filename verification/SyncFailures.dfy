/** When a sync gives up: its end told from the reports that it has received. */
module SyncFailures {
  import opened BufSlots
  import opened Common
  import opened SyncPipeline

  /** The storages that some of the reports name as failed. */
  ghost function NamedFailed(reports: seq<Report>): set<nat> {
    set k: nat, j: nat | k < |reports| && j < |reports[k].failed| :: reports[k].failed[j]
  }

  lemma {:induction false} OneMoreReport(reports: seq<Report>, r: Report)
    ensures NamedFailed(reports + [r]) == NamedFailed(reports) + ToSet(r.failed)
  {
    var all := reports + [r];
    forall x | x in NamedFailed(reports)
      ensures x in NamedFailed(all)
    {
      var k: nat, j: nat :| k < |reports| && j < |reports[k].failed| && reports[k].failed[j] == x;
      assert all[k] == reports[k];
    }
    forall x | x in ToSet(r.failed)
      ensures x in NamedFailed(all)
    {
      var j: nat :| j < |r.failed| && r.failed[j] == x;
      assert all[|reports|] == r;
    }
    forall x | x in NamedFailed(all)
      ensures x in NamedFailed(reports) + ToSet(r.failed)
    {
      var k: nat, j: nat :| k < |all| && j < |all[k].failed| && all[k].failed[j] == x;
      assert k < |reports| ==> all[k] == reports[k];
    }
  }

  // The storages counted as broken are the ones named, and main goes on only while some are left.
  ghost predicate BrokenOk(c: Config, s: State) {
    && s.broken == NamedFailed(s.received)
    && (!s.main.Returned? ==> |s.broken| < c.storages)
    && (s.main == Returned(true) ==> |s.broken| < c.storages)
  }

  lemma {:induction false} StepKeepsBroken(c: Config, s: State, step: Step)
    requires BrokenOk(c, s) && Enabled(c, s, step)
    ensures BrokenOk(c, Apply(c, s, step))
  {
    if step.Receive? {
      OneMoreReport(s.received, s.done[0]);
    }
  }

  lemma {:induction false} NextKeepsBroken(c: Config, s: State, s': State)
    requires BrokenOk(c, s) && Next(c, s, s')
    ensures BrokenOk(c, s')
  {
    var step :| Enabled(c, s, step) && s' == Apply(c, s, step);
    StepKeepsBroken(c, s, step);
  }

  lemma {:induction false} BrokenHolds(c: Config, run: seq<State>, k: nat)
    requires IsRun(c, run) && k < |run|
    ensures BrokenOk(c, run[k])
  {
    if k == 0 {
      assert NamedFailed([]) == {};
    } else {
      BrokenHolds(c, run, k - 1);
      assert Next(c, run[k - 1], run[k]);
      NextKeepsBroken(c, run[k - 1], run[k]);
    }
  }

  lemma {:induction false} OnlyReceiveReceives(c: Config, s: State, step: Step)
    requires Enabled(c, s, step) && |Apply(c, s, step).received| > |s.received|
    ensures step.Receive?
  {
  }

  lemma {:induction false} ReceiveGivesUp(c: Config, s: State)
    requires Inv(c, s) && BrokenOk(c, s) && Enabled(c, s, Receive)
    ensures var s' := Apply(c, s, Receive); var before, after := NamedFailed(s.received), NamedFailed(s'.received);
      && s.main.Collecting? && s'.received == s.received + [s.done[0]]
      && (s'.main == Returned(false) <==> |after| >= c.storages && after != before)
      && (s'.main == Returned(true) <==> |after| < c.storages && |s'.received| == Files(c))
  {
    OneMoreReport(s.received, s.done[0]);
  }

  /** A report makes the sync give up exactly if the storages named as failed so far are all of them and it
      has added one; it makes it succeed exactly if it is the last one and they are not. */
  lemma {:induction false} GivesUpExactly(c: Config, run: seq<State>, k: nat)
    requires IsRun(c, run) && 0 < k < |run| && |run[k].received| > |run[k - 1].received|
    ensures var before, after := NamedFailed(run[k - 1].received), NamedFailed(run[k].received);
      && run[k - 1].main.Collecting? && |run[k].received| == |run[k - 1].received| + 1
      && (run[k].main == Returned(false) <==> |after| >= c.storages && after != before)
      && (run[k].main == Returned(true) <==> |after| < c.storages && |run[k].received| == Files(c))
  {
    BrokenHolds(c, run, k - 1);
    InvHolds(c, run, k - 1);
    assert Next(c, run[k - 1], run[k]);
    StepGivesUp(c, run[k - 1], run[k]);
  }

  lemma {:induction false} StepGivesUp(c: Config, s: State, s': State)
    requires Inv(c, s) && BrokenOk(c, s) && Next(c, s, s') && |s'.received| > |s.received|
    ensures Enabled(c, s, Receive) && s' == Apply(c, s, Receive)
    ensures var before, after := NamedFailed(s.received), NamedFailed(s'.received);
      && s.main.Collecting? && |s'.received| == |s.received| + 1
      && (s'.main == Returned(false) <==> |after| >= c.storages && after != before)
      && (s'.main == Returned(true) <==> |after| < c.storages && |s'.received| == Files(c))
  {
    var step :| Enabled(c, s, step) && s' == Apply(c, s, step);
    OnlyReceiveReceives(c, s, step);
    ReceiveGivesUp(c, s);
  }

  /** Nothing is cancelled before the end. */
  ghost predicate NeverCancelled(run: seq<State>) {
    forall k :: 0 <= k < |run| && !run[k].main.Returned? ==> !run[k].cancelled
  }

  lemma {:induction false} FailureNamesAll(c: Config, run: seq<State>, k: nat)
    requires IsRun(c, run) && NeverCancelled(run) && k < |run| && run[k].main == Returned(false)
    ensures |NamedFailed(run[k].received)| >= c.storages
  {
    assert k > 0;
    assert Next(c, run[k - 1], run[k]);
    var step :| Enabled(c, run[k - 1], step) && run[k] == Apply(c, run[k - 1], step);
    BrokenHolds(c, run, k);
    if run[k - 1].main.Returned? {
      FailureNamesAll(c, run, k - 1);
    } else {
      assert step.Receive?;
    }
  }

  /** A run to its end that is not cancelled and loses no report returns, with success exactly if the storages
      named as failed are fewer than there are. */
  lemma {:induction false} SucceedsExactly(c: Config, run: seq<State>)
    requires IsRun(c, run) && Stuck(c, run[|run| - 1]) && NeverCancelled(run) && !LostReports(run[|run| - 1])
    ensures var end := run[|run| - 1];
      end.main.Returned? && (end.main.ok <==> |NamedFailed(end.received)| < c.storages)
  {
    var end := run[|run| - 1];
    InvHolds(c, run, |run| - 1);
    StuckOnlyWhenOverOrLost(c, end);
    BrokenHolds(c, run, |run| - 1);
    if !end.main.ok {
      FailureNamesAll(c, run, |run| - 1);
    }
  }
}
