/** A request that nobody interrupts does in its small steps what the undivided try and release do. */
module QuotaAlone {
  import opened QuotaRace
  import opened QuotaOverGrant

  // The value of the present minute's counter.
  function MinValue(s: State): int
    requires Sane(s)
  {
    if s.curMin == NIL then 0 else s.mins[s.curMin].value
  }

  ghost predicate OnlyGo(steps: seq<Step>, i: nat) { forall k :: 0 <= k < |steps| ==> steps[k] == Go(i) }

  lemma {:induction false} GoOn(s: State, i: nat, steps: seq<Step>, t: State) returns (steps': seq<Step>, t': State)
    requires Leads(s, steps, t) && OnlyGo(steps, i) && Sane(t) && Enabled(t, Go(i))
    ensures steps' == steps + [Go(i)] && t' == Apply(t, Go(i))
    ensures Leads(s, steps', t') && OnlyGo(steps', i) && Sane(t')
  {
    steps', t' := steps + [Go(i)], Apply(t, Go(i));
    LeadsBy(t, Go(i));
    LeadsOn(s, steps, t, [Go(i)], t');
    StepKeepsSane(t, Go(i));
  }

  /** What the present maps count. */
  ghost predicate Counts(s: State, hour: int, min: int) {
    Sane(s) && HourValue(s) == hour && (ChecksMin(s) ==> MinValue(s) == min)
  }

  // The request has the present counters in hand and has not added to them.
  ghost predicate AtHour(s: State, t: State, i: nat) {
    && Sane(t) && t.limitHour == s.limitHour && t.limitMin == s.limitMin
    && t.epoch == s.epoch && t.hourEpoch == s.hourEpoch
    && i < |t.callers| && t.callers[i].pc.AddHour? && t.callers[i].hour == t.curHour
    && t.callers[i].epoch == s.epoch && t.callers[i].hourEpoch == s.hourEpoch
    && (ChecksMin(s) ==> t.callers[i].min == t.curMin)
  }

  lemma {:induction false} ToHour(s: State, i: nat, hour: int, min: int) returns (steps: seq<Step>, t: State)
    requires Counts(s, hour, min) && i < |s.callers| && s.callers[i].pc.Idle?
    ensures Leads(s, steps, t) && OnlyGo(steps, i) && AtHour(s, t, i) && Counts(t, hour, min)
  {
    steps, t := GoOn(s, i, [], s);
    if s.curHour == NIL {
      steps, t := GoOn(s, i, steps, t);
    }
  }

  // The hour has let it pass: it goes on to the minute.
  lemma {:induction false} ToMin(s: State, i: nat, steps: seq<Step>, t: State, hour: int, min: int)
    returns (steps': seq<Step>, t': State)
    requires Leads(s, steps, t) && OnlyGo(steps, i) && AtHour(s, t, i) && Counts(t, hour, min)
    requires ChecksMin(s) && hour < s.limitHour
    ensures Leads(s, steps', t') && OnlyGo(steps', i) && Counts(t', hour + 1, min)
    ensures t'.limitHour == s.limitHour && t'.limitMin == s.limitMin
    ensures t'.epoch == s.epoch && t'.hourEpoch == s.hourEpoch
    ensures i < |t'.callers| && t'.callers[i].pc.AddMin?
    ensures t'.callers[i].hour == t'.curHour && t'.callers[i].min == t'.curMin
    ensures t'.callers[i].epoch == s.epoch && t'.callers[i].hourEpoch == s.hourEpoch
  {
    steps', t' := GoOn(s, i, steps, t);
    if t.curMin == NIL {
      steps', t' := GoOn(s, i, steps', t');
    }
  }

  /** It is granted exactly if both counters are below their limits, and then adds one to each; otherwise it is
      rejected and leaves them as they were. */
  lemma {:induction false} AloneMeetsTry(s: State, i: nat, hour: int, min: int) returns (steps: seq<Step>, t: State)
    requires Counts(s, hour, min) && i < |s.callers| && s.callers[i].pc.Idle?
    ensures Leads(s, steps, t) && OnlyGo(steps, i)
    ensures t.limitHour == s.limitHour && t.limitMin == s.limitMin && t.epoch == s.epoch && t.hourEpoch == s.hourEpoch
    ensures i < |t.callers|
    ensures if hour < s.limitHour && (ChecksMin(s) ==> min < s.limitMin)
      then t.callers[i].pc.Granted? && Counts(t, hour + 1, min + 1)
           && t.callers[i].epoch == s.epoch && t.callers[i].hourEpoch == s.hourEpoch
      else t.callers[i].pc.Rejected? && Counts(t, hour, min)
  {
    steps, t := ToHour(s, i, hour, min);
    if hour >= s.limitHour {
      steps, t := GoOn(s, i, steps, t);
      steps, t := GoOn(s, i, steps, t);
    } else if !ChecksMin(s) {
      steps, t := GoOn(s, i, steps, t);
    } else {
      steps, t := ToMin(s, i, steps, t, hour, min);
      steps, t := GoOn(s, i, steps, t);
      if min >= s.limitMin {
        steps, t := GoOn(s, i, steps, t);
        steps, t := GoOn(s, i, steps, t);
      }
    }
  }

  /** A release in one step gives its units back to the counters of its own epochs and to no others. */
  lemma {:induction false} ReleaseGivesBack(s: State, i: nat, hour: int, min: int)
    requires Counts(s, hour, min) && i < |s.callers| && s.callers[i].pc.Granted?
    ensures var t := Apply(s, Go(i)); var c := s.callers[i];
      && i < |t.callers| && t.callers[i].pc.Released? && t.curHour == s.curHour && t.curMin == s.curMin
      && Counts(t, if c.hourEpoch == s.hourEpoch && s.curHour != NIL then hour - 1 else hour,
                   if c.epoch == s.epoch && s.curMin != NIL then min - 1 else min)
  {
    StepKeepsSane(s, Go(i));
  }
}
