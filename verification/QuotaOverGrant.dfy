/** Every late re-read of the epoch can lead to more grants in an hour than the limit: whatever the state
    in which a request is about to make one, some schedule of cleans and fresh requests does it. */
module QuotaOverGrant {
  import opened BufSlots
  import opened Common
  import opened QuotaRace

  /** The schedule is possible from s and ends in s'. */
  ghost predicate Leads(s: State, steps: seq<Step>, s': State)
    decreases |steps|
  {
    if steps == [] then s' == s
    else Sane(s) && Enabled(s, steps[0]) && Leads(Apply(s, steps[0]), steps[1..], s')
  }

  lemma {:induction false} LeadsOn(s: State, a: seq<Step>, t: State, b: seq<Step>, s': State)
    requires Leads(s, a, t) && Leads(t, b, s')
    ensures Leads(s, a + b, s')
    decreases |a|
  {
    if a == [] {
      assert a + b == b;
    } else {
      LeadsOn(Apply(s, a[0]), a[1..], t, b, s');
      assert (a + b)[1..] == a[1..] + b;
    }
  }

  lemma {:induction false} LeadsBy(s: State, step: Step)
    requires Sane(s) && Enabled(s, step)
    ensures Leads(s, [step], Apply(s, step))
  {
  }

  lemma {:induction false} GoIsLocal(s: State, i: nat)
    requires Sane(s) && Enabled(s, Go(i))
    ensures var s' := Apply(s, Go(i));
      && |s'.callers| == |s.callers| && s'.callers == s.callers[i := s'.callers[i]]
      && |s'.hours| >= |s.hours| && |s'.mins| >= |s.mins|
      && NIL <= s'.curHour < |s'.hours| && NIL <= s'.curMin < |s'.mins|
  {
  }

  lemma {:induction false} GoKeepsCallerSane(s: State, i: nat)
    requires Sane(s) && Enabled(s, Go(i))
    ensures var s' := Apply(s, Go(i));
      && i < |s'.callers| && CallerSane(s'.callers[i])
      && NIL <= s'.callers[i].hour < |s'.hours| && NIL <= s'.callers[i].min < |s'.mins|
  {
    assert CallerSane(s.callers[i]);
  }

  lemma {:induction false} StepKeepsSane(s: State, step: Step)
    requires Sane(s) && Enabled(s, step)
    ensures Sane(Apply(s, step))
  {
    if step.Go? {
      GoIsLocal(s, step.i);
      GoKeepsCallerSane(s, step.i);
    }
  }

  // The value of the present hour's counter.
  function HourValue(s: State): int
    requires Sane(s)
  {
    if s.curHour == NIL then 0 else s.hours[s.curHour].value
  }

  lemma {:induction false} FourSteps(s: State, step: Step) returns (s': State)
    requires Sane(s) && Enabled(s, step)
    requires Sane(Apply(s, step)) && Enabled(Apply(s, step), step)
    requires Sane(Apply(Apply(s, step), step)) && Enabled(Apply(Apply(s, step), step), step)
    requires Sane(Apply(Apply(Apply(s, step), step), step)) && Enabled(Apply(Apply(Apply(s, step), step), step), step)
    ensures s' == Apply(Apply(Apply(Apply(s, step), step), step), step)
    ensures Leads(s, [step, step, step, step], s')
  {
    var s1 := Apply(s, step);
    var s2 := Apply(s1, step);
    var s3 := Apply(s2, step);
    s' := Apply(s3, step);
    LeadsBy(s, step);
    LeadsBy(s1, step);
    LeadsBy(s2, step);
    LeadsBy(s3, step);
    LeadsOn(s, [step], s1, [step], s2);
    LeadsOn(s2, [step], s3, [step], s');
    LeadsOn(s, [step] + [step], s2, [step] + [step], s');
    assert [step] + [step] + ([step] + [step]) == [step, step, step, step];
  }

  // A fresh request alone with a fresh minute is granted if the hour has room.
  lemma {:induction false} FreshRequest(s: State, f: nat) returns (s': State)
    requires Sane(s) && s.limitMin > 0 && s.curMin == NIL
    requires f < |s.callers| && s.callers[f].pc.Idle? && HourValue(s) < s.limitHour
    ensures Leads(s, [Go(f), Go(f), Go(f), Go(f)], s') && Sane(s')
    ensures s'.limitHour == s.limitHour && s'.limitMin == s.limitMin && s'.hourEpoch == s.hourEpoch
    ensures HourValue(s') == HourValue(s) + 1
    ensures |s'.callers| == |s.callers| && s'.callers == s.callers[f := s'.callers[f]]
    ensures s'.callers[f].pc.Granted? && s'.callers[f].hourEpoch == s.hourEpoch
  {
    var s1 := Apply(s, Go(f));
    StepKeepsSane(s, Go(f));
    var s2 := Apply(s1, Go(f));
    StepKeepsSane(s1, Go(f));
    var s3 := Apply(s2, Go(f));
    StepKeepsSane(s2, Go(f));
    s' := FourSteps(s, Go(f));
    StepKeepsSane(s3, Go(f));
  }

  // After the race, k fresh requests have been granted beside it in the same hour.
  ghost predicate Granting(s: State, i: nat, idle: seq<int>, k: nat) {
    && Sane(s) && s.limitMin > 0 && s.limitHour == |idle| && k <= |idle| && HourValue(s) == k
    && i < |s.callers| && s.callers[i].pc.Granted? && s.callers[i].hourEpoch == s.hourEpoch && i !in idle
    && NoDuplicates(idle)
    && (forall j :: 0 <= j < |idle| ==> 0 <= idle[j] < |s.callers|)
    && (forall j :: 0 <= j < k ==> s.callers[idle[j]].pc.Granted? && s.callers[idle[j]].hourEpoch == s.hourEpoch)
    && (forall j :: k <= j < |idle| ==> s.callers[idle[j]].pc.Idle?)
  }

  lemma {:induction false} GrantNext(s: State, i: nat, idle: seq<int>, k: nat) returns (steps: seq<Step>, s': State)
    requires Granting(s, i, idle, k) && k < |idle|
    ensures Leads(s, steps, s') && Granting(s', i, idle, k + 1)
  {
    var f := idle[k];
    var t := Apply(s, Clean(false));
    StepKeepsSane(s, Clean(false));
    LeadsBy(s, Clean(false));
    s' := FreshRequest(t, f);
    steps := [Clean(false)] + [Go(f), Go(f), Go(f), Go(f)];
    LeadsOn(s, [Clean(false)], t, [Go(f), Go(f), Go(f), Go(f)], s');
  }

  lemma {:induction false} GrantAll(s: State, i: nat, idle: seq<int>, k: nat) returns (steps: seq<Step>, s': State)
    requires Granting(s, i, idle, k)
    ensures Leads(s, steps, s') && Granting(s', i, idle, |idle|)
    decreases |idle| - k
  {
    if k == |idle| {
      steps, s' := [], s;
    } else {
      var a, t := GrantNext(s, i, idle, k);
      var b;
      b, s' := GrantAll(t, i, idle, k + 1);
      LeadsOn(s, a, t, b, s');
      steps := a + b;
    }
  }

  // In a fresh hour and minute the request re-reads the epoch, adds to the minute and is granted.
  lemma {:induction false} RaceThrough(s: State, i: nat) returns (s': State)
    requires Inv(s) && i < |s.callers| && s.callers[i].pc.NeedMin?
    ensures Racy(Apply(s, Clean(true)), Go(i))
    ensures Leads(s, [Clean(true), Go(i), Go(i)], s') && Sane(s')
    ensures s'.limitHour == s.limitHour && s'.limitMin == s.limitMin > 0 && HourValue(s') == 0
    ensures |s'.callers| == |s.callers| && s'.callers == s.callers[i := s'.callers[i]]
    ensures s'.callers[i].pc.Granted? && s'.callers[i].hourEpoch == s'.hourEpoch
  {
    assert CallerOk(s, s.callers[i]);
    var s1 := Apply(s, Clean(true));
    StepKeepsSane(s, Clean(true));
    var s2 := Apply(s1, Go(i));
    StepKeepsSane(s1, Go(i));
    s' := Apply(s2, Go(i));
    StepKeepsSane(s2, Go(i));
    LeadsBy(s, Clean(true));
    LeadsBy(s1, Go(i));
    LeadsBy(s2, Go(i));
    LeadsOn(s, [Clean(true)], s1, [Go(i)], s2);
    LeadsOn(s, [Clean(true)] + [Go(i)], s2, [Go(i)], s');
    assert [Clean(true)] + [Go(i)] + [Go(i)] == [Clean(true), Go(i), Go(i)];
  }

  lemma {:induction false} ManyGranted(s: State, i: nat, idle: seq<int>)
    requires Granting(s, i, idle, |idle|)
    ensures |GrantedNow(s)| > s.limitHour
  {
    CountDistinct(idle);
    var taken: set<int> := set x | x in idle;
    assert i !in taken && |taken| == |idle|;
    var all: set<int> := taken + {i};
    assert |all| == |idle| + 1;
    forall x | x in all
      ensures 0 <= x < |s.callers| && s.callers[x].pc.Granted? && s.callers[x].hourEpoch == s.hourEpoch
    {
      if x != i {
        var j :| 0 <= j < |idle| && idle[j] == x;
      }
    }
    forall x | x in all
      ensures x in GrantedNow(s)
    {
      var y: nat := x;
      assert y in GrantedNow(s);
    }
    SubsetSize(all, GrantedNow(s));
  }

  /** From every state that a schedule without a racy step reaches, in which a request holds a unit of its
      hour counter and has yet to look up its minute counter, and as many others have not started as the
      limit allows: the schedule that goes on with an hour clean and the request's racy step gives out more
      units of one hour than the limit. */
  lemma {:induction false} RacyRequestCanOverGrant(s: State, i: nat, idle: seq<int>) returns (steps: seq<Step>, s': State)
    requires Inv(s) && i < |s.callers| && s.callers[i].pc.NeedMin?
    requires |idle| == s.limitHour && NoDuplicates(idle)
    requires forall j :: 0 <= j < |idle| ==> 0 <= idle[j] < |s.callers| && s.callers[idle[j]].pc.Idle?
    ensures Leads(s, steps, s') && |GrantedNow(s')| > s'.limitHour == s.limitHour
    ensures |steps| >= 2 && steps[..2] == [Clean(true), Go(i)] && Racy(Apply(s, Clean(true)), Go(i))
  {
    var t := RaceThrough(s, i);
    var rest;
    rest, s' := GrantAll(t, i, idle, 0);
    LeadsOn(s, [Clean(true), Go(i), Go(i)], t, rest, s');
    steps := [Clean(true), Go(i), Go(i)] + rest;
    ManyGranted(s', i, idle);
  }
}
