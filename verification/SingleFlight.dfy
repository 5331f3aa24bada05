/** On-demand downloads: concurrent requests for one hash share a single worker and its result. */
module SingleFlight {
  import opened Common

  type Hash = string

  const NO_ERROR := 0

  /** How far the worker of an item is. A stored file has entered the file set. */
  datatype Stage = Running | Stored | Failed(e: int) | ErrSet | Closed | Deleted

  /** `closes` counts the closings of the done channel. */
  datatype Item = Item(hash: Hash, stage: Stage, err: Option<int>, closes: nat)

  datatype Caller =
    | Begin(hash: Hash)
    | Missed(hash: Hash)
    | Waiting(hash: Hash, item: nat)
    | Got(hash: Hash, item: nat, err: int)
    | GaveUp(hash: Hash)

  datatype State = State(items: seq<Item>, downloading: map<Hash, nat>, fileset: set<Hash>, callers: seq<Caller>)

  datatype Step =
    | Lookup(c: nat) | LockedLookup(c: nat) | Receive(c: nat) | Leave(c: nat)
    | Succeed(id: nat) | Fail(id: nat, e: int) | SetErr(id: nat) | Close(id: nat) | Delete(id: nat)

  function Start(hashes: seq<Hash>, fileset: set<Hash>): State {
    State([], map[], fileset, seq(|hashes|, i requires 0 <= i < |hashes| => Begin(hashes[i])))
  }

  predicate Enabled(s: State, step: Step) {
    match step
    case Lookup(c) => c < |s.callers| && s.callers[c].Begin?
    case LockedLookup(c) => c < |s.callers| && s.callers[c].Missed?
    case Receive(c) =>
      c < |s.callers| && s.callers[c].Waiting? && s.callers[c].item < |s.items| && s.items[s.callers[c].item].closes > 0
    case Leave(c) => c < |s.callers| && s.callers[c].Waiting?
    case Succeed(id) => id < |s.items| && s.items[id].stage.Running?
    case Fail(id, e) => id < |s.items| && s.items[id].stage.Running? && e != NO_ERROR
    case SetErr(id) => id < |s.items| && (s.items[id].stage.Stored? || s.items[id].stage.Failed?)
    case Close(id) => id < |s.items| && s.items[id].stage.ErrSet?
    case Delete(id) => id < |s.items| && s.items[id].stage.Closed?
  }

  function SetCaller(s: State, c: nat, k: Caller): State
    requires c < |s.callers|
  {
    s.(callers := s.callers[c := k])
  }

  function SetItem(s: State, id: nat, x: Item): State
    requires id < |s.items|
  {
    s.(items := s.items[id := x])
  }

  // The result read after the done channel is closed; a nil error when none was set.
  function ResultOf(x: Item): int {
    if x.err.Some? then x.err.value else NO_ERROR
  }

  function Apply(s: State, step: Step): State
    requires Enabled(s, step)
  {
    match step
    case Lookup(c) =>
      var h := s.callers[c].hash;
      SetCaller(s, c, if h in s.downloading then Waiting(h, s.downloading[h]) else Missed(h))
    case LockedLookup(c) =>
      var h := s.callers[c].hash;
      if h in s.downloading then SetCaller(s, c, Waiting(h, s.downloading[h]))
      else SetCaller(s, c, Waiting(h, |s.items|)).(
             items := s.items + [Item(h, Running, None, 0)], downloading := s.downloading[h := |s.items|])
    case Receive(c) =>
      var k := s.callers[c];
      SetCaller(s, c, Got(k.hash, k.item, ResultOf(s.items[k.item])))
    case Leave(c) => SetCaller(s, c, GaveUp(s.callers[c].hash))
    case Succeed(id) =>
      SetItem(s, id, s.items[id].(stage := Stored)).(fileset := s.fileset + {s.items[id].hash})
    case Fail(id, e) => SetItem(s, id, s.items[id].(stage := Failed(e)))
    case SetErr(id) =>
      var x := s.items[id];
      SetItem(s, id, x.(stage := ErrSet, err := Some(if x.stage.Failed? then x.stage.e else NO_ERROR)))
    case Close(id) => SetItem(s, id, s.items[id].(stage := Closed, closes := s.items[id].closes + 1))
    case Delete(id) =>
      SetItem(s, id, s.items[id].(stage := Deleted)).(downloading := s.downloading - {s.items[id].hash})
  }

  ghost predicate IsRun(run: seq<State>, steps: seq<Step>, hashes: seq<Hash>, fileset: set<Hash>) {
    && |run| == |steps| + 1 && run[0] == Start(hashes, fileset)
    && forall k :: 0 <= k < |steps| ==> Enabled(run[k], steps[k]) && run[k + 1] == Apply(run[k], steps[k])
  }

  // ---- The invariant ----

  // The map holds an item exactly while its worker has not deleted it.
  ghost predicate ItemOk(s: State, id: nat)
    requires id < |s.items|
  {
    var x := s.items[id];
    && (!x.stage.Deleted? <==> x.hash in s.downloading && s.downloading[x.hash] == id)
    && (x.err.Some? <==> x.stage.ErrSet? || x.stage.Closed? || x.stage.Deleted?)
    && (x.stage.Failed? ==> x.stage.e != NO_ERROR)
    && x.closes == (if x.stage.Closed? || x.stage.Deleted? then 1 else 0)
    && (x.stage.Stored? || x.err == Some(NO_ERROR) ==> x.hash in s.fileset)
  }

  ghost predicate CallerOk(s: State, k: Caller) {
    && (k.Waiting? ==> k.item < |s.items| && s.items[k.item].hash == k.hash)
    && (k.Got? ==>
          && k.item < |s.items| && s.items[k.item].hash == k.hash
          && s.items[k.item].err == Some(k.err) && s.items[k.item].closes == 1)
  }

  ghost predicate Inv(s: State) {
    && (forall h :: h in s.downloading ==> s.downloading[h] < |s.items| && s.items[s.downloading[h]].hash == h)
    && (forall id :: 0 <= id < |s.items| ==> ItemOk(s, id))
    && (forall c :: 0 <= c < |s.callers| ==> CallerOk(s, s.callers[c]))
  }

  lemma {:induction false} ItemStep(s: State, step: Step, id: nat)
    requires Inv(s) && Enabled(s, step) && id < |Apply(s, step).items|
    ensures ItemOk(Apply(s, step), id)
  {
    if id < |s.items| {
      assert ItemOk(s, id);
    }
    if step.Delete? {
      assert ItemOk(s, step.id);
    }
  }

  lemma {:induction false} CallerStep(s: State, step: Step, c: nat)
    requires Inv(s) && Enabled(s, step) && c < |s.callers|
    ensures |Apply(s, step).callers| == |s.callers| && CallerOk(Apply(s, step), Apply(s, step).callers[c])
  {
    var k := s.callers[c];
    assert CallerOk(s, k);
    if k.Waiting? || k.Got? {
      assert ItemOk(s, k.item);
    }
  }

  lemma {:induction false} StepKeepsInv(s: State, step: Step)
    requires Inv(s) && Enabled(s, step)
    ensures Inv(Apply(s, step))
  {
    var s' := Apply(s, step);
    forall id: nat | id < |s'.items| ensures ItemOk(s', id) {
      ItemStep(s, step, id);
    }
    forall c: nat | c < |s'.callers| ensures CallerOk(s', s'.callers[c]) {
      CallerStep(s, step, c);
    }
  }

  lemma {:induction false} InvHolds(run: seq<State>, steps: seq<Step>, hashes: seq<Hash>, fileset: set<Hash>, k: nat)
    requires IsRun(run, steps, hashes, fileset) && k < |run|
    ensures Inv(run[k]) && |run[k].callers| == |hashes|
  {
    if k > 0 {
      InvHolds(run, steps, hashes, fileset, k - 1);
      StepKeepsInv(run[k - 1], steps[k - 1]);
    }
  }

  // ---- Main results ----

  predicate Live(x: Item) { !x.stage.Deleted? }

  /** At most one worker per hash is live, each removes its own item and no other, and each
      closes its done channel once, after its result is set. */
  lemma {:induction false} OneWorkerPerHash(
      run: seq<State>, steps: seq<Step>, hashes: seq<Hash>, fileset: set<Hash>, k: nat)
    requires IsRun(run, steps, hashes, fileset) && k < |run|
    ensures var s := run[k];
      && (forall a, b :: 0 <= a < b < |s.items| && Live(s.items[a]) && Live(s.items[b]) ==>
            s.items[a].hash != s.items[b].hash)
      && (forall id :: 0 <= id < |s.items| ==> s.items[id].closes <= 1 && (s.items[id].closes == 1 ==> s.items[id].err.Some?))
    ensures k < |steps| && steps[k].Delete? ==>
      var h := run[k].items[steps[k].id].hash;
      h in run[k].downloading && run[k].downloading[h] == steps[k].id
  {
    InvHolds(run, steps, hashes, fileset, k);
    var s := run[k];
    forall a, b | 0 <= a < b < |s.items| && Live(s.items[a]) && Live(s.items[b])
      ensures s.items[a].hash != s.items[b].hash
    {
      assert ItemOk(s, a) && ItemOk(s, b);
    }
    forall id | 0 <= id < |s.items| ensures s.items[id].closes <= 1 && (s.items[id].closes == 1 ==> s.items[id].err.Some?) {
      assert ItemOk(s, id);
    }
    if k < |steps| && steps[k].Delete? {
      assert ItemOk(s, steps[k].id);
    }
  }

  /** A request gets the result of the one worker it joined, and a request that gets no error
      finds its file in the file set. */
  lemma {:induction false} WaitersSeeTheirWorker(
      run: seq<State>, steps: seq<Step>, hashes: seq<Hash>, fileset: set<Hash>, k: nat, c: nat)
    requires IsRun(run, steps, hashes, fileset) && k < |run| && c < |run[k].callers| && run[k].callers[c].Got?
    ensures var s, g := run[k], run[k].callers[c];
      && g.item < |s.items| && s.items[g.item].hash == g.hash && s.items[g.item].err == Some(g.err)
      && (g.err == NO_ERROR ==> g.hash in s.fileset)
  {
    InvHolds(run, steps, hashes, fileset, k);
    var s, g := run[k], run[k].callers[c];
    assert CallerOk(s, g);
    assert ItemOk(s, g.item);
  }

  // ---- What a worker has done ----

  predicate Succeeded(steps: seq<Step>, id: nat) { Succeed(id) in steps }

  predicate FailedWith(steps: seq<Step>, id: nat, e: int) { Fail(id, e) in steps }

  // A worker downloads once: it has stored the file or failed with an error, and its item says which.
  ghost predicate Done(x: Item, id: nat, steps: seq<Step>) {
    match x.stage
    case Running => !Succeeded(steps, id) && forall e :: !FailedWith(steps, id, e)
    case Stored => Succeeded(steps, id) && forall e :: !FailedWith(steps, id, e)
    case Failed(v) => !Succeeded(steps, id) && forall e :: FailedWith(steps, id, e) <==> e == v
    case _ =>
      && x.err.Some?
      && (Succeeded(steps, id) <==> x.err.value == NO_ERROR)
      && forall e :: FailedWith(steps, id, e) <==> e == x.err.value != NO_ERROR
  }

  ghost predicate AllDone(s: State, steps: seq<Step>) {
    && (forall id :: 0 <= id < |s.items| ==> Done(s.items[id], id, steps))
    && (forall id: nat :: id >= |s.items| ==> !Succeeded(steps, id))
    && (forall id: nat, e :: id >= |s.items| ==> !FailedWith(steps, id, e))
  }

  lemma {:induction false} OneMoreStep(steps: seq<Step>, step: Step, id: nat)
    ensures Succeeded(steps + [step], id) <==> Succeeded(steps, id) || step == Succeed(id)
    ensures forall e :: FailedWith(steps + [step], id, e) <==> FailedWith(steps, id, e) || step == Fail(id, e)
  {
  }

  lemma {:induction false} ItemDone(s: State, steps: seq<Step>, step: Step, id: nat)
    requires Inv(s) && Enabled(s, step) && id < |s.items| && Done(s.items[id], id, steps)
    ensures id < |Apply(s, step).items| && Done(Apply(s, step).items[id], id, steps + [step])
  {
    assert ItemOk(s, id);
    OneMoreStep(steps, step, id);
  }

  lemma {:induction false} StepKeepsDone(s: State, steps: seq<Step>, step: Step)
    requires Inv(s) && Enabled(s, step) && AllDone(s, steps)
    ensures AllDone(Apply(s, step), steps + [step])
  {
    var s', steps' := Apply(s, step), steps + [step];
    forall id: nat | id < |s'.items|
      ensures Done(s'.items[id], id, steps')
    {
      if id < |s.items| {
        ItemDone(s, steps, step, id);
      } else {
        OneMoreStep(steps, step, id);
      }
    }
    forall id: nat | id >= |s'.items|
      ensures !Succeeded(steps', id)
    {
      OneMoreStep(steps, step, id);
    }
    forall id: nat, e | id >= |s'.items|
      ensures !FailedWith(steps', id, e)
    {
      OneMoreStep(steps, step, id);
    }
  }

  lemma {:induction false} DoneHolds(
      run: seq<State>, steps: seq<Step>, hashes: seq<Hash>, fileset: set<Hash>, k: nat)
    requires IsRun(run, steps, hashes, fileset) && k < |run|
    ensures AllDone(run[k], steps[..k])
  {
    if k > 0 {
      DoneHolds(run, steps, hashes, fileset, k - 1);
      InvHolds(run, steps, hashes, fileset, k - 1);
      StepKeepsDone(run[k - 1], steps[..k - 1], steps[k - 1]);
      assert steps[..k] == steps[..k - 1] + [steps[k - 1]];
    }
  }

  /** A request that has got its answer got no error exactly if the worker it joined has stored the file, and
      the error e exactly if that worker has failed with e. */
  lemma {:induction false} AnswersTellWhatHappened(
      run: seq<State>, steps: seq<Step>, hashes: seq<Hash>, fileset: set<Hash>, k: nat, c: nat)
    requires IsRun(run, steps, hashes, fileset) && k < |run| && c < |run[k].callers| && run[k].callers[c].Got?
    ensures var g := run[k].callers[c];
      && (g.err == NO_ERROR <==> Succeed(g.item) in steps[..k])
      && forall e :: Fail(g.item, e) in steps[..k] <==> e == g.err != NO_ERROR
  {
    InvHolds(run, steps, hashes, fileset, k);
    DoneHolds(run, steps, hashes, fileset, k);
    var s, g := run[k], run[k].callers[c];
    assert CallerOk(s, g);
    assert ItemOk(s, g.item) && Done(s.items[g.item], g.item, steps[..k]);
    assert Succeeded(steps[..k], g.item) <==> Succeed(g.item) in steps[..k];
    forall e
      ensures Fail(g.item, e) in steps[..k] <==> e == g.err != NO_ERROR
    {
      assert FailedWith(steps[..k], g.item, e) <==> Fail(g.item, e) in steps[..k];
    }
  }

  lemma {:induction false} StepLeaves(s: State, step: Step, c: nat)
    requires Enabled(s, step) && c < |s.callers|
    ensures |Apply(s, step).callers| == |s.callers|
    ensures Apply(s, step).callers[c].GaveUp? <==> s.callers[c].GaveUp? || step == Leave(c)
  {
  }

  /** A request ends without an answer only by giving up itself. */
  lemma {:induction false} OnlyLeavingGivesUp(
      run: seq<State>, steps: seq<Step>, hashes: seq<Hash>, fileset: set<Hash>, k: nat, c: nat)
    requires IsRun(run, steps, hashes, fileset) && k < |run| && c < |hashes|
    ensures |run[k].callers| == |hashes|
    ensures run[k].callers[c].GaveUp? <==> Leave(c) in steps[..k]
  {
    if k > 0 {
      OnlyLeavingGivesUp(run, steps, hashes, fileset, k - 1, c);
      StepLeaves(run[k - 1], steps[k - 1], c);
      assert steps[..k] == steps[..k - 1] + [steps[k - 1]];
    }
  }

  // ---- Progress ----

  /** Every reachable state in which a request still waits, or has not looked yet, or a
      worker is not done, has a step other than giving up. */
  lemma {:induction false} NoDeadlock(
      run: seq<State>, steps: seq<Step>, hashes: seq<Hash>, fileset: set<Hash>, k: nat)
    requires IsRun(run, steps, hashes, fileset) && k < |run|
    requires forall step :: Enabled(run[k], step) ==> step.Leave?
    ensures forall c :: 0 <= c < |run[k].callers| ==> run[k].callers[c].Got? || run[k].callers[c].GaveUp?
    ensures run[k].downloading.Keys == {}
  {
    InvHolds(run, steps, hashes, fileset, k);
    var s := run[k];
    forall id: nat | id < |s.items| ensures ItemOk(s, id) && s.items[id].stage.Deleted? {
      assert ItemOk(s, id);
      assert !Enabled(s, Succeed(id)) && !Enabled(s, SetErr(id)) && !Enabled(s, Close(id)) && !Enabled(s, Delete(id));
    }
    forall c: nat | c < |s.callers| ensures s.callers[c].Got? || s.callers[c].GaveUp? {
      assert CallerOk(s, s.callers[c]);
      assert !Enabled(s, Lookup(c)) && !Enabled(s, LockedLookup(c)) && !Enabled(s, Receive(c));
    }
  }

  function CallerRank(k: Caller): nat {
    match k
    case Begin(_) => 8
    case Missed(_) => 7
    case Waiting(_, _) => 1
    case _ => 0
  }

  function ItemRank(x: Item): nat {
    match x.stage
    case Running => 5
    case Stored => 4
    case Failed(_) => 4
    case ErrSet => 3
    case Closed => 2
    case Deleted => 0
  }

  ghost function CallersRank(cs: seq<Caller>): nat {
    if cs == [] then 0 else CallersRank(cs[..|cs| - 1]) + CallerRank(cs[|cs| - 1])
  }

  ghost function ItemsRank(xs: seq<Item>): nat {
    if xs == [] then 0 else ItemsRank(xs[..|xs| - 1]) + ItemRank(xs[|xs| - 1])
  }

  lemma {:induction false} CallersUpdate(cs: seq<Caller>, c: nat, k: Caller)
    requires c < |cs|
    ensures CallersRank(cs[c := k]) == CallersRank(cs) - CallerRank(cs[c]) + CallerRank(k)
  {
    var front := cs[..|cs| - 1];
    if c == |cs| - 1 {
      assert cs[c := k][..|cs| - 1] == front;
    } else {
      CallersUpdate(front, c, k);
      assert cs[c := k][..|cs| - 1] == front[c := k];
    }
  }

  lemma {:induction false} ItemsUpdate(xs: seq<Item>, id: nat, x: Item)
    requires id < |xs|
    ensures ItemsRank(xs[id := x]) == ItemsRank(xs) - ItemRank(xs[id]) + ItemRank(x)
  {
    var front := xs[..|xs| - 1];
    if id == |xs| - 1 {
      assert xs[id := x][..|xs| - 1] == front;
    } else {
      ItemsUpdate(front, id, x);
      assert xs[id := x][..|xs| - 1] == front[id := x];
    }
  }

  /** Every step lowers the measure, so no schedule goes on forever; with the absence of
      deadlock, every request ends with its worker's result or by giving up. */
  lemma {:induction false} StepsEnd(s: State, step: Step)
    requires Enabled(s, step)
    ensures var s' := Apply(s, step);
      CallersRank(s'.callers) + ItemsRank(s'.items) < CallersRank(s.callers) + ItemsRank(s.items)
  {
    var s' := Apply(s, step);
    if step.Lookup? || step.LockedLookup? || step.Receive? || step.Leave? {
      CallersUpdate(s.callers, step.c, s'.callers[step.c]);
      if |s'.items| > |s.items| {
        assert s'.items[..|s.items|] == s.items;
      }
    } else {
      ItemsUpdate(s.items, step.id, s'.items[step.id]);
    }
  }
}
