/** Concurrent requests of one id: `try` split at its lock sections and atomic additions. */
module QuotaRace {
  import opened Common

  const NIL := -1

  datatype Pc =
    | Idle | NeedHour | AddHour | UndoHour | NeedMin | AddMin | UndoBothHour | UndoBothMin
    | Granted | Rejected | Released

  /** One request: the counters it has looked up, and the epoch it has read with them. */
  datatype Caller = Caller(pc: Pc, hour: int, min: int, epoch: nat, hourEpoch: nat)

  const NEW_CALLER := Caller(Idle, NIL, NIL, 0, 0)

  // A counter object and the epoch in which it was made.
  datatype Counter = Counter(value: int, epoch: nat)

  /** Counters outlive the maps; `curHour` and `curMin` are the maps' present entries. */
  datatype State = State(
    limitHour: nat, limitMin: nat, epoch: nat, hourEpoch: nat,
    hours: seq<Counter>, mins: seq<Counter>, curHour: int, curMin: int, callers: seq<Caller>)

  datatype Step = Go(i: nat) | Clean(hour: bool)

  function Start(limitHour: nat, limitMin: nat, n: nat): State {
    State(limitHour, limitMin, 0, 0, [], [], NIL, NIL, seq(n, _ => NEW_CALLER))
  }

  predicate ChecksMin(s: State) { s.limitMin > 0 }

  function Set(s: State, i: nat, c: Caller): State
    requires i < |s.callers|
  {
    s.(callers := s.callers[i := c])
  }

  function Bump(counters: seq<Counter>, k: int, d: int): seq<Counter>
    requires 0 <= k < |counters|
  {
    counters[k := counters[k].(value := counters[k].value + d)]
  }

  function WithHour(s: State): State {
    if s.curHour != NIL then s
    else s.(curHour := |s.hours|, hours := s.hours + [Counter(0, s.hourEpoch)])
  }

  function WithMin(s: State): State {
    if s.curMin != NIL then s
    else s.(curMin := |s.mins|, mins := s.mins + [Counter(0, s.epoch)])
  }

  predicate Sane(s: State) {
    && NIL <= s.curHour < |s.hours| && NIL <= s.curMin < |s.mins|
    && (forall i :: 0 <= i < |s.callers| ==> NIL <= s.callers[i].hour < |s.hours| && NIL <= s.callers[i].min < |s.mins|)
    && (forall i :: 0 <= i < |s.callers| ==> CallerSane(s.callers[i]))
  }

  predicate CallerSane(c: Caller) {
    && (!c.pc.Idle? && !c.pc.NeedHour? ==> c.hour != NIL)
    && (c.pc.AddMin? || c.pc.UndoBothHour? || c.pc.UndoBothMin? ==> c.min != NIL)
  }

  predicate Enabled(s: State, step: Step) {
    match step
    case Go(i) => i < |s.callers| && !s.callers[i].pc.Rejected? && !s.callers[i].pc.Released?
    case Clean(_) => true
  }

  function Apply(s: State, step: Step): State
    requires Sane(s) && Enabled(s, step)
  {
    match step
    case Clean(hour) =>
      s.(epoch := s.epoch + 1, curMin := NIL,
         hourEpoch := if hour then s.hourEpoch + 1 else s.hourEpoch, curHour := if hour then NIL else s.curHour)
    case Go(i) =>
      var c := s.callers[i];
      match c.pc
      case Idle =>
        // One read-locked section looks everything up.
        Set(s, i, Caller(if s.curHour == NIL then NeedHour else AddHour, s.curHour, s.curMin, s.epoch, s.hourEpoch))
      case NeedHour =>
        var s1 := if ChecksMin(s) then WithMin(WithHour(s)) else WithHour(s);
        Set(s1, i, Caller(AddHour, s1.curHour, if ChecksMin(s) then s1.curMin else c.min, s.epoch, s.hourEpoch))
      case AddHour =>
        var s1 := s.(hours := Bump(s.hours, c.hour, 1));
        var pc :=
          if s1.hours[c.hour].value > s.limitHour then UndoHour
          else if !ChecksMin(s) then Granted
          else if c.min == NIL then NeedMin else AddMin;
        Set(s1, i, c.(pc := pc))
      case UndoHour => Set(s.(hours := Bump(s.hours, c.hour, -1)), i, c.(pc := Rejected))
      case NeedMin =>
        // The epoch is read again here, the hour counter is not.
        var s1 := WithMin(s);
        Set(s1, i, c.(pc := AddMin, min := s1.curMin, epoch := s.epoch, hourEpoch := s.hourEpoch))
      case AddMin =>
        var s1 := s.(mins := Bump(s.mins, c.min, 1));
        Set(s1, i, c.(pc := if s1.mins[c.min].value > s.limitMin then UndoBothHour else Granted))
      case UndoBothHour => Set(s.(hours := Bump(s.hours, c.hour, -1)), i, c.(pc := UndoBothMin))
      case UndoBothMin => Set(s.(mins := Bump(s.mins, c.min, -1)), i, c.(pc := Rejected))
      case Granted =>
        var s1 := if c.hourEpoch == s.hourEpoch && s.curHour != NIL then s.(hours := Bump(s.hours, s.curHour, -1)) else s;
        var s2 := if ChecksMin(s) && c.epoch == s.epoch && s.curMin != NIL then s1.(mins := Bump(s.mins, s.curMin, -1)) else s1;
        Set(s2, i, c.(pc := Released))
      case _ => s
  }

  // ---- Who holds a unit ----

  predicate HoldsHour(c: Caller) {
    c.pc.NeedMin? || c.pc.AddMin? || c.pc.UndoBothHour? || c.pc.Granted?
  }

  predicate HoldsMin(c: Caller) {
    c.pc.Granted?
  }

  // Whether c accounts for one unit of the hour counter k: held, or to be undone.
  predicate OwesHour(c: Caller, k: int) {
    c.hour == k && (HoldsHour(c) || c.pc.UndoHour?)
  }

  predicate OwesMin(c: Caller, k: int) {
    c.min == k && (HoldsMin(c) || c.pc.UndoBothHour? || c.pc.UndoBothMin?)
  }

  ghost function OwingHour(cs: seq<Caller>, k: int): set<nat> {
    set i: nat | i < |cs| && OwesHour(cs[i], k)
  }

  ghost function OwingMin(cs: seq<Caller>, k: int): set<nat> {
    set i: nat | i < |cs| && OwesMin(cs[i], k)
  }

  /** The requests that hold a unit of counter k. */
  ghost function HourHolders(cs: seq<Caller>, k: int): set<nat> {
    set i: nat | i < |cs| && cs[i].hour == k && HoldsHour(cs[i])
  }

  ghost function MinHolders(cs: seq<Caller>, k: int): set<nat> {
    set i: nat | i < |cs| && cs[i].min == k && HoldsMin(cs[i])
  }

  // ---- The invariant ----

  // The present map entry is the one counter of the present epoch.
  predicate EpochsOk(counters: seq<Counter>, cur: int, epoch: nat) {
    && NIL <= cur < |counters|
    && forall k :: 0 <= k < |counters| ==>
         counters[k].epoch <= epoch && (counters[k].epoch == epoch <==> k == cur)
  }

  // A request's counters were made in the epochs it has read.
  predicate CallerOk(s: State, c: Caller) {
    && NIL <= c.hour < |s.hours| && NIL <= c.min < |s.mins|
    && CallerSane(c)
    && c.epoch <= s.epoch && c.hourEpoch <= s.hourEpoch
    && (c.hour != NIL ==> s.hours[c.hour].epoch == c.hourEpoch)
    && (c.min != NIL ==> s.mins[c.min].epoch == c.epoch)
    && (!ChecksMin(s) ==> c.min == NIL && !c.pc.NeedMin?)
    && (ChecksMin(s) && c.pc.Granted? ==> c.min != NIL)
  }

  ghost predicate HourCountOk(s: State, k: int)
    requires 0 <= k < |s.hours|
  {
    && s.hours[k].value >= |OwingHour(s.callers, k)|
    && (k == s.curHour ==> s.hours[k].value == |OwingHour(s.callers, k)|)
    && |HourHolders(s.callers, k)| <= s.limitHour
  }

  ghost predicate MinCountOk(s: State, k: int)
    requires 0 <= k < |s.mins|
  {
    && s.mins[k].value >= |OwingMin(s.callers, k)|
    && (k == s.curMin ==> s.mins[k].value == |OwingMin(s.callers, k)|)
    && |MinHolders(s.callers, k)| <= s.limitMin
  }

  ghost predicate Inv(s: State) {
    && EpochsOk(s.hours, s.curHour, s.hourEpoch) && EpochsOk(s.mins, s.curMin, s.epoch)
    && (!ChecksMin(s) ==> s.curMin == NIL)
    && (forall i :: 0 <= i < |s.callers| ==> CallerOk(s, s.callers[i]))
    && (forall k :: 0 <= k < |s.hours| ==> HourCountOk(s, k))
    && (forall k :: 0 <= k < |s.mins| ==> MinCountOk(s, k))
  }

  /** An hour clean has come between a request's look-up of its hour counter and its
      second reading of the epoch. */
  predicate Racy(s: State, step: Step) {
    step.Go? && step.i < |s.callers| && s.callers[step.i].pc.NeedMin? && s.callers[step.i].hourEpoch != s.hourEpoch
  }

  // ---- Counting ----

  lemma {:induction false} OwesHourChange(cs: seq<Caller>, i: nat, c: Caller, k: int)
    requires i < |cs|
    ensures |OwingHour(cs[i := c], k)| ==
      |OwingHour(cs, k)| + (if OwesHour(c, k) then 1 else 0) - (if OwesHour(cs[i], k) then 1 else 0)
  {
    var others := OwingHour(cs, k) - {i};
    assert OwingHour(cs[i := c], k) == if OwesHour(c, k) then others + {i} else others;
    assert OwingHour(cs, k) == if OwesHour(cs[i], k) then others + {i} else others;
  }

  lemma {:induction false} OwesMinChange(cs: seq<Caller>, i: nat, c: Caller, k: int)
    requires i < |cs|
    ensures |OwingMin(cs[i := c], k)| ==
      |OwingMin(cs, k)| + (if OwesMin(c, k) then 1 else 0) - (if OwesMin(cs[i], k) then 1 else 0)
  {
    var others := OwingMin(cs, k) - {i};
    assert OwingMin(cs[i := c], k) == if OwesMin(c, k) then others + {i} else others;
    assert OwingMin(cs, k) == if OwesMin(cs[i], k) then others + {i} else others;
  }

  lemma {:induction false} HoldersOwe(cs: seq<Caller>, k: int)
    ensures |HourHolders(cs, k)| <= |OwingHour(cs, k)|
    ensures |MinHolders(cs, k)| <= |OwingMin(cs, k)|
  {
    SubsetSize(HourHolders(cs, k), OwingHour(cs, k));
    SubsetSize(MinHolders(cs, k), OwingMin(cs, k));
  }

  lemma {:induction false} FewerHolders(cs: seq<Caller>, i: nat, c: Caller, k: int)
    requires i < |cs|
    ensures !(c.hour == k && HoldsHour(c)) || (cs[i].hour == k && HoldsHour(cs[i])) ==>
      |HourHolders(cs[i := c], k)| <= |HourHolders(cs, k)|
    ensures !(c.min == k && HoldsMin(c)) || (cs[i].min == k && HoldsMin(cs[i])) ==>
      |MinHolders(cs[i := c], k)| <= |MinHolders(cs, k)|
  {
    if !(c.hour == k && HoldsHour(c)) || (cs[i].hour == k && HoldsHour(cs[i])) {
      SubsetSize(HourHolders(cs[i := c], k), HourHolders(cs, k));
    }
    if !(c.min == k && HoldsMin(c)) || (cs[i].min == k && HoldsMin(cs[i])) {
      SubsetSize(MinHolders(cs[i := c], k), MinHolders(cs, k));
    }
  }

  // ---- Preservation ----

  // What a step of request i needs to know of the rest.
  ghost predicate Ready(s: State, i: nat) {
    && Sane(s) && Enabled(s, Go(i)) && !Racy(s, Go(i)) && CallerOk(s, s.callers[i])
    && EpochsOk(s.hours, s.curHour, s.hourEpoch) && EpochsOk(s.mins, s.curMin, s.epoch)
    && (!ChecksMin(s) ==> s.curMin == NIL)
  }

  lemma {:induction false} HourValues(s: State, i: nat, k: int)
    requires Ready(s, i) && 0 <= k < |Apply(s, Go(i)).hours|
    ensures var s' := Apply(s, Go(i)); var c, c' := s.callers[i], s'.callers[i];
      && s'.callers == s.callers[i := c'] && s'.limitHour == s.limitHour
      && (k >= |s.hours| ==> k == s'.curHour && s'.hours[k].value == 0 && !OwesHour(c', k))
      && (k < |s.hours| ==>
            var change := (if OwesHour(c', k) then 1 else 0) - (if OwesHour(c, k) then 1 else 0);
            && (k == s'.curHour <==> k == s.curHour)
            && s'.hours[k].value - s.hours[k].value >= change
            && (k == s.curHour ==> s'.hours[k].value - s.hours[k].value == change)
            && (c'.hour == k && HoldsHour(c') && !(c.hour == k && HoldsHour(c)) ==> s'.hours[k].value <= s.limitHour))
  {
    match s.callers[i].pc
    case Idle =>
    case NeedHour =>
    case AddHour =>
    case UndoHour =>
    case NeedMin =>
    case AddMin =>
    case UndoBothHour =>
    case UndoBothMin =>
    case Granted =>
  }

  lemma {:induction false} MinValues(s: State, i: nat, k: int)
    requires Ready(s, i) && 0 <= k < |Apply(s, Go(i)).mins|
    ensures var s' := Apply(s, Go(i)); var c, c' := s.callers[i], s'.callers[i];
      && s'.callers == s.callers[i := c'] && s'.limitMin == s.limitMin
      && (k >= |s.mins| ==> k == s'.curMin && s'.mins[k].value == 0 && !OwesMin(c', k))
      && (k < |s.mins| ==>
            var change := (if OwesMin(c', k) then 1 else 0) - (if OwesMin(c, k) then 1 else 0);
            && (k == s'.curMin <==> k == s.curMin)
            && s'.mins[k].value - s.mins[k].value >= change
            && (k == s.curMin ==> s'.mins[k].value - s.mins[k].value == change)
            && (c'.min == k && HoldsMin(c') && !(c.min == k && HoldsMin(c)) ==> s'.mins[k].value <= s.limitMin))
  {
    match s.callers[i].pc
    case Idle =>
    case NeedHour =>
    case AddHour =>
    case UndoHour =>
    case NeedMin =>
    case AddMin =>
    case UndoBothHour =>
    case UndoBothMin =>
    case Granted =>
  }

  lemma {:induction false} HourCountStep(s: State, i: nat, k: int)
    requires Ready(s, i) && 0 <= k < |Apply(s, Go(i)).hours|
    requires if k < |s.hours| then HourCountOk(s, k) else OwingHour(s.callers, k) == {} && HourHolders(s.callers, k) == {}
    ensures HourCountOk(Apply(s, Go(i)), k)
  {
    var s' := Apply(s, Go(i));
    HourValues(s, i, k);
    OwesHourChange(s.callers, i, s'.callers[i], k);
    FewerHolders(s.callers, i, s'.callers[i], k);
    HoldersOwe(s'.callers, k);
  }

  lemma {:induction false} MinCountStep(s: State, i: nat, k: int)
    requires Ready(s, i) && 0 <= k < |Apply(s, Go(i)).mins|
    requires if k < |s.mins| then MinCountOk(s, k) else OwingMin(s.callers, k) == {} && MinHolders(s.callers, k) == {}
    ensures MinCountOk(Apply(s, Go(i)), k)
  {
    var s' := Apply(s, Go(i));
    MinValues(s, i, k);
    OwesMinChange(s.callers, i, s'.callers[i], k);
    FewerHolders(s.callers, i, s'.callers[i], k);
    HoldersOwe(s'.callers, k);
  }

  predicate SameEpochs(was: seq<Counter>, counters: seq<Counter>) {
    |was| <= |counters| && forall k :: 0 <= k < |was| ==> counters[k].epoch == was[k].epoch
  }

  lemma {:induction false} CountersGrow(s: State, i: nat)
    requires Ready(s, i)
    ensures var s' := Apply(s, Go(i));
      && SameEpochs(s.hours, s'.hours) && SameEpochs(s.mins, s'.mins)
      && s'.limitMin == s.limitMin && s'.epoch == s.epoch && s'.hourEpoch == s.hourEpoch
      && s'.callers == s.callers[i := s'.callers[i]]
  {
  }

  lemma {:induction false} OwnCallerStep(s: State, i: nat)
    requires Ready(s, i)
    ensures CallerOk(Apply(s, Go(i)), Apply(s, Go(i)).callers[i])
  {
    CountersGrow(s, i);
    match s.callers[i].pc
    case Idle =>
    case NeedHour =>
    case AddHour =>
    case UndoHour =>
    case NeedMin =>
    case AddMin =>
    case UndoBothHour =>
    case UndoBothMin =>
    case Granted =>
  }

  lemma {:induction false} CallersStep(s: State, i: nat, j: nat)
    requires Ready(s, i) && j < |s.callers| && CallerOk(s, s.callers[j])
    ensures CallerOk(Apply(s, Go(i)), Apply(s, Go(i)).callers[j])
  {
    CountersGrow(s, i);
    if j == i {
      OwnCallerStep(s, i);
    }
  }

  lemma {:induction false} HourEpochsStep(s: State, i: nat)
    requires Ready(s, i)
    ensures var s' := Apply(s, Go(i)); EpochsOk(s'.hours, s'.curHour, s'.hourEpoch)
  {
  }

  lemma {:induction false} MinEpochsStep(s: State, i: nat)
    requires Ready(s, i)
    ensures var s' := Apply(s, Go(i)); EpochsOk(s'.mins, s'.curMin, s'.epoch)
  {
  }

  lemma {:induction false} EpochsStep(s: State, i: nat)
    requires Ready(s, i)
    ensures var s' := Apply(s, Go(i));
      && EpochsOk(s'.hours, s'.curHour, s'.hourEpoch) && EpochsOk(s'.mins, s'.curMin, s'.epoch)
      && (!ChecksMin(s') ==> s'.curMin == NIL) && |s'.callers| == |s.callers|
  {
    HourEpochsStep(s, i);
    MinEpochsStep(s, i);
  }

  lemma {:induction false} NobodyOwes(s: State, k: int)
    requires forall i :: 0 <= i < |s.callers| ==> CallerOk(s, s.callers[i])
    ensures k >= |s.hours| ==> OwingHour(s.callers, k) == {} && HourHolders(s.callers, k) == {}
    ensures k >= |s.mins| ==> OwingMin(s.callers, k) == {} && MinHolders(s.callers, k) == {}
  {
  }

  lemma {:induction false} StepKeepsInv(s: State, step: Step)
    requires Inv(s) && Enabled(s, step) && !Racy(s, step)
    ensures Inv(Apply(s, step))
  {
    var s' := Apply(s, step);
    if step.Go? {
      assert CallerOk(s, s.callers[step.i]);
      EpochsStep(s, step.i);
      forall j: nat | j < |s'.callers| ensures CallerOk(s', s'.callers[j]) {
        CallersStep(s, step.i, j);
      }
      forall k | 0 <= k < |s'.hours| ensures HourCountOk(s', k) {
        NobodyOwes(s, k);
        HourCountStep(s, step.i, k);
      }
      forall k | 0 <= k < |s'.mins| ensures MinCountOk(s', k) {
        NobodyOwes(s, k);
        MinCountStep(s, step.i, k);
      }
    } else {
      forall j: nat | j < |s'.callers| ensures CallerOk(s', s'.callers[j]) {
        assert CallerOk(s, s.callers[j]);
      }
      forall k | 0 <= k < |s'.hours| ensures HourCountOk(s', k) {
        assert HourCountOk(s, k);
      }
      forall k | 0 <= k < |s'.mins| ensures MinCountOk(s', k) {
        assert MinCountOk(s, k);
      }
    }
  }

  /** And no other step does: the late re-read always breaks the books, at the request that takes it. */
  lemma {:induction false} BooksKeptExactlyWithoutRace(s: State, step: Step)
    requires Inv(s) && Enabled(s, step)
    ensures Inv(Apply(s, step)) <==> !Racy(s, step)
  {
    if Racy(s, step) {
      var s' := Apply(s, step);
      assert CallerOk(s, s.callers[step.i]);
      assert !CallerOk(s', s'.callers[step.i]);
    } else {
      StepKeepsInv(s, step);
    }
  }

  // ---- Whole interleavings ----

  /** A schedule and the states it passes through: any interleaving of n requests and cleans. */
  ghost predicate IsRun(run: seq<State>, steps: seq<Step>, limitHour: nat, limitMin: nat, n: nat) {
    && |run| == |steps| + 1 && run[0] == Start(limitHour, limitMin, n)
    && forall m :: 0 <= m < |steps| ==> IsStep(run[m], steps[m], run[m + 1])
  }

  ghost predicate IsStep(s: State, step: Step, s': State) {
    Sane(s) && Enabled(s, step) && s' == Apply(s, step)
  }

  ghost predicate NeverRacy(run: seq<State>, steps: seq<Step>)
    requires |run| == |steps| + 1
  {
    forall m :: 0 <= m < |steps| ==> !Racy(run[m], steps[m])
  }

  lemma {:induction false} StartInv(limitHour: nat, limitMin: nat, n: nat)
    ensures Inv(Start(limitHour, limitMin, n))
  {
  }

  lemma {:induction false} LimitsStay(s: State, step: Step)
    requires Sane(s) && Enabled(s, step)
    ensures Apply(s, step).limitHour == s.limitHour && Apply(s, step).limitMin == s.limitMin
  {
  }

  lemma {:induction false} InvHolds(run: seq<State>, steps: seq<Step>, limitHour: nat, limitMin: nat, n: nat, m: nat)
    requires IsRun(run, steps, limitHour, limitMin, n) && NeverRacy(run, steps) && m < |run|
    ensures Inv(run[m]) && run[m].limitHour == limitHour && run[m].limitMin == limitMin
  {
    if m == 0 {
      StartInv(limitHour, limitMin, n);
    } else {
      InvHolds(run, steps, limitHour, limitMin, n, m - 1);
      assert IsStep(run[m - 1], steps[m - 1], run[m]);
      StepKeepsInv(run[m - 1], steps[m - 1]);
      LimitsStay(run[m - 1], steps[m - 1]);
    }
  }

  ghost function GrantedNow(s: State): set<nat> {
    set i: nat | i < |s.callers| && s.callers[i].pc.Granted? && s.callers[i].hourEpoch == s.hourEpoch
  }

  ghost function GrantedThisMinute(s: State): set<nat> {
    set i: nat | i < |s.callers| && s.callers[i].pc.Granted? && s.callers[i].epoch == s.epoch
  }

  /** No over-grant: for any number of concurrent requests, releases and cleans, without a racy
      step no more requests hold the present epoch's units than the limits allow; the counter
      itself may overshoot, by no more than the additions about to be undone. */
  lemma {:induction false} NoOverGrant(run: seq<State>, steps: seq<Step>, limitHour: nat, limitMin: nat, n: nat, m: nat)
    requires IsRun(run, steps, limitHour, limitMin, n) && NeverRacy(run, steps) && m < |run|
    ensures |GrantedNow(run[m])| <= limitHour
    ensures limitMin > 0 ==> |GrantedThisMinute(run[m])| <= limitMin
    ensures var s := run[m]; 0 <= s.curHour < |s.hours| ==>
      s.hours[s.curHour].value <= limitHour + |UndoingHour(s.callers, s.curHour)|
  {
    InvHolds(run, steps, limitHour, limitMin, n, m);
    var s := run[m];
    if s.curHour == NIL {
      assert GrantedNow(s) == {};
    } else {
      assert HourCountOk(s, s.curHour);
      SubsetSize(GrantedNow(s), HourHolders(s.callers, s.curHour));
      Overshoot(s.callers, s.curHour);
    }
    if limitMin > 0 {
      if s.curMin == NIL {
        assert GrantedThisMinute(s) == {};
      } else {
        assert MinCountOk(s, s.curMin);
        SubsetSize(GrantedThisMinute(s), MinHolders(s.callers, s.curMin));
      }
    }
  }

  ghost function UndoingHour(cs: seq<Caller>, k: int): set<nat> {
    set i: nat | i < |cs| && cs[i].hour == k && cs[i].pc.UndoHour?
  }

  lemma {:induction false} Overshoot(cs: seq<Caller>, k: int)
    ensures |OwingHour(cs, k)| == |HourHolders(cs, k)| + |UndoingHour(cs, k)|
  {
    assert OwingHour(cs, k) == HourHolders(cs, k) + UndoingHour(cs, k);
    assert HourHolders(cs, k) !! UndoingHour(cs, k);
  }

  // ---- The racy step does over-grant ----

  // One request an hour and five a minute. Request 0 makes the hour counter, request 1 adds
  // to it and is overtaken by an hour clean, request 2 comes after the clean.
  const RACE := [Go(0), Go(0), Clean(false), Go(1), Go(1), Clean(true), Go(2), Go(2), Go(2), Go(2), Go(1), Go(1)]

  ghost function RaceState(m: nat): State
    requires m <= |RACE|
  {
    match m
    case 0 => State(1, 5, 0, 0, [], [], NIL, NIL,
                     [NEW_CALLER, NEW_CALLER, NEW_CALLER])
    case 1 => State(1, 5, 0, 0, [], [], NIL, NIL,
                     [Caller(NeedHour, NIL, NIL, 0, 0), NEW_CALLER, NEW_CALLER])
    case 2 => State(1, 5, 0, 0, [Counter(0, 0)], [Counter(0, 0)], 0, 0,
                     [Caller(AddHour, 0, 0, 0, 0), NEW_CALLER, NEW_CALLER])
    case 3 => State(1, 5, 1, 0, [Counter(0, 0)], [Counter(0, 0)], 0, NIL,
                     [Caller(AddHour, 0, 0, 0, 0), NEW_CALLER, NEW_CALLER])
    case 4 => State(1, 5, 1, 0, [Counter(0, 0)], [Counter(0, 0)], 0, NIL,
                     [Caller(AddHour, 0, 0, 0, 0), Caller(AddHour, 0, NIL, 1, 0), NEW_CALLER])
    case 5 => State(1, 5, 1, 0, [Counter(1, 0)], [Counter(0, 0)], 0, NIL,
                     [Caller(AddHour, 0, 0, 0, 0), Caller(NeedMin, 0, NIL, 1, 0), NEW_CALLER])
    case 6 => State(1, 5, 2, 1, [Counter(1, 0)], [Counter(0, 0)], NIL, NIL,
                     [Caller(AddHour, 0, 0, 0, 0), Caller(NeedMin, 0, NIL, 1, 0), NEW_CALLER])
    case 7 => State(1, 5, 2, 1, [Counter(1, 0)], [Counter(0, 0)], NIL, NIL,
                     [Caller(AddHour, 0, 0, 0, 0), Caller(NeedMin, 0, NIL, 1, 0), Caller(NeedHour, NIL, NIL, 2, 1)])
    case 8 => State(1, 5, 2, 1, [Counter(1, 0), Counter(0, 1)], [Counter(0, 0), Counter(0, 2)], 1, 1,
                     [Caller(AddHour, 0, 0, 0, 0), Caller(NeedMin, 0, NIL, 1, 0), Caller(AddHour, 1, 1, 2, 1)])
    case 9 => State(1, 5, 2, 1, [Counter(1, 0), Counter(1, 1)], [Counter(0, 0), Counter(0, 2)], 1, 1,
                     [Caller(AddHour, 0, 0, 0, 0), Caller(NeedMin, 0, NIL, 1, 0), Caller(AddMin, 1, 1, 2, 1)])
    case 10 => State(1, 5, 2, 1, [Counter(1, 0), Counter(1, 1)], [Counter(0, 0), Counter(1, 2)], 1, 1,
                     [Caller(AddHour, 0, 0, 0, 0), Caller(NeedMin, 0, NIL, 1, 0), Caller(Granted, 1, 1, 2, 1)])
    case 11 => State(1, 5, 2, 1, [Counter(1, 0), Counter(1, 1)], [Counter(0, 0), Counter(1, 2)], 1, 1,
                     [Caller(AddHour, 0, 0, 0, 0), Caller(AddMin, 0, 1, 2, 1), Caller(Granted, 1, 1, 2, 1)])
    case _ => State(1, 5, 2, 1, [Counter(1, 0), Counter(1, 1)], [Counter(0, 0), Counter(2, 2)], 1, 1,
                     [Caller(AddHour, 0, 0, 0, 0), Caller(Granted, 0, 1, 2, 1), Caller(Granted, 1, 1, 2, 1)])
  }

  lemma {:induction false} RaceEnabled(m: nat)
    requires m < |RACE|
    ensures Sane(RaceState(m)) && Enabled(RaceState(m), RACE[m])
  {
  }

  lemma {:induction false} RaceCounters(m: nat)
    requires m < |RACE|
    requires Sane(RaceState(m)) && Enabled(RaceState(m), RACE[m])
    ensures var s, s' := RaceState(m), RaceState(m + 1);
      Apply(s, RACE[m]).hours == s'.hours && Apply(s, RACE[m]).mins == s'.mins
  {
  }

  lemma {:induction false} RaceCallers(m: nat)
    requires m < |RACE|
    requires Sane(RaceState(m)) && Enabled(RaceState(m), RACE[m])
    ensures var s, s' := RaceState(m), RaceState(m + 1);
      Apply(s, RACE[m]).(hours := s'.hours, mins := s'.mins) == s'
  {
    assert Apply(RaceState(m), RACE[m]).callers == RaceState(m + 1).callers;
  }

  lemma {:induction false} RaceStep(m: nat)
    requires m < |RACE|
    ensures IsStep(RaceState(m), RACE[m], RaceState(m + 1))
  {
    RaceEnabled(m);
    RaceCounters(m);
    RaceCallers(m);
    var t := Apply(RaceState(m), RACE[m]);
    assert t == t.(hours := RaceState(m + 1).hours, mins := RaceState(m + 1).mins);
  }

  ghost function RaceRun(): seq<State> {
    seq(|RACE| + 1, m requires 0 <= m <= |RACE| => RaceState(m))
  }

  /** Two requests hold the one unit of the present hour: request 1 counts against the old
      counter and carries the new epoch. */
  lemma {:induction false} RacyStepOverGrants()
    ensures IsRun(RaceRun(), RACE, 1, 5, 3)
    ensures Racy(RaceRun()[10], RACE[10])
    ensures GrantedNow(RaceRun()[|RACE|]) == {1, 2}
  {
    forall m | 0 <= m < |RACE| ensures IsStep(RaceRun()[m], RACE[m], RaceRun()[m + 1]) {
      RaceStep(m);
    }
    assert RaceState(0).callers == Start(1, 5, 3).callers;
  }
}
