/** The keep-alive seen from the requests: each counts its hit, then its bytes, and then, if it is not to be
    reported, both again as stat-only. What a report is depends on which of these steps came before the
    reads of the keep-alive. */
module KeepAliveRequests {
  import opened Common
  import opened KeepAlive

  /** What the reads of the keep-alives have seen of a request in one meter: whether it was counted at the
      last read of the count and at that of the last acknowledged keep-alive, and whether it was marked
      stat-only at the last read of the marks and at that of the last acknowledged keep-alive. */
  datatype Seen = Seen(counted: bool, reported: bool, marked: bool, taken: bool)

  /** `steps` of the four steps of a request are done; without stat-only there are two. */
  datatype Request = Request(bytes: nat, statOnly: bool, steps: nat, hits: Seen, bts: Seen)

  const UNSEEN := Seen(false, false, false, false)

  datatype Traffic = Traffic(w: World, reqs: seq<Request>)

  datatype Event = Arrive(bytes: nat, statOnly: bool) | Advance(i: nat) | Alive(outcome: Outcome)

  function Length(r: Request): nat { if r.statOnly then 4 else 2 }

  function SeenIn(r: Request, k: Kind): Seen { if k.Hits? then r.hits else r.bts }

  function WithSeen(r: Request, k: Kind, s: Seen): Request {
    if k.Hits? then r.(hits := s) else r.(bts := s)
  }

  predicate HasCounted(r: Request, k: Kind) { r.steps > if k.Hits? then 0 else 1 }

  predicate Marked(r: Request, k: Kind) { r.statOnly && r.steps > if k.Hits? then 2 else 3 }

  function Amount(r: Request, k: Kind): nat { if k.Hits? then 1 else r.bytes }

  // The counter that the next step of a request adds to.
  function Effect(r: Request): Op
    requires r.steps < Length(r)
  {
    var k := if r.steps % 2 == 0 then Hits else Bytes;
    if r.steps < 2 then Count(k, Amount(r, k)) else CountStat(k, Amount(r, k))
  }

  // What a request sees of the next instruction of the keep-alive.
  function Witness(r: Request, instr: Instr): Request {
    match instr
    case ReadCount(k) => WithSeen(r, k, SeenIn(r, k).(counted := HasCounted(r, k)))
    case ReadStat(k) => WithSeen(r, k, SeenIn(r, k).(marked := Marked(r, k)))
    case Store(k) => WithSeen(r, k, SeenIn(r, k).(reported := SeenIn(r, k).counted))
    case Subtract(k) => WithSeen(r, k, SeenIn(r, k).(taken := SeenIn(r, k).marked))
    case _ => r
  }

  function Take(s: Traffic, event: Event): Traffic
    requires s.w.pc < LENGTH
  {
    match event
    case Arrive(bytes, statOnly) => s.(reqs := s.reqs + [Request(bytes, statOnly, 0, UNSEEN, UNSEEN)])
    case Advance(i) =>
      if i >= |s.reqs| || s.reqs[i].steps >= Length(s.reqs[i]) then s
      else Traffic(Step(s.w, Effect(s.reqs[i])), s.reqs[i := s.reqs[i].(steps := s.reqs[i].steps + 1)])
    case Alive(outcome) =>
      Traffic(Step(s.w, Op.KeepAlive(outcome)),
            seq(|s.reqs|, i requires 0 <= i < |s.reqs| => Witness(s.reqs[i], Fetch(s.w.pc))))
  }

  function Traced(events: seq<Event>): (s: Traffic)
    ensures s.w.pc < LENGTH
  {
    if events == [] then Traffic(START, []) else Take(Traced(events[..|events| - 1]), events[|events| - 1])
  }

  // ---- sums over the requests ----

  datatype Part = Now | Read | Reported | Unmarked | ReadMarks | Over | Under

  /** What a request has in a meter: counted by now, by the read, by the acknowledged one; marked and not yet
      taken off, by now and by the read; what the report has over it and what it lacks of it. */
  function Value(r: Request, k: Kind, part: Part): int {
    var s := SeenIn(r, k);
    var has := match part
      case Now => HasCounted(r, k)
      case Read => s.counted
      case Reported => s.reported
      case Unmarked => Marked(r, k) && !s.taken
      case ReadMarks => s.marked && !s.taken
      case Over => s.counted && !s.reported && !(s.marked && !s.taken)
      case Under => s.marked && !s.taken && !(s.counted && !s.reported);
    if has then Amount(r, k) else 0
  }

  function Sum(reqs: seq<Request>, k: Kind, part: Part): int {
    if reqs == [] then 0 else Sum(reqs[..|reqs| - 1], k, part) + Value(reqs[|reqs| - 1], k, part)
  }

  lemma {:induction false} SumChange(reqs: seq<Request>, i: nat, r: Request, k: Kind, part: Part)
    requires i < |reqs|
    ensures Sum(reqs[i := r], k, part) == Sum(reqs, k, part) - Value(reqs[i], k, part) + Value(r, k, part)
  {
    var n := |reqs| - 1;
    if i < n {
      SumChange(reqs[..n], i, r, k, part);
      assert reqs[i := r][..n] == reqs[..n][i := r];
    } else {
      assert reqs[i := r][..n] == reqs[..n];
    }
  }

  lemma {:induction false} ReportSum(reqs: seq<Request>, k: Kind)
    requires forall i :: 0 <= i < |reqs| ==> (SeenIn(reqs[i], k).reported ==> SeenIn(reqs[i], k).counted)
    ensures Sum(reqs, k, Read) - Sum(reqs, k, Reported) - Sum(reqs, k, ReadMarks)
         == Sum(reqs, k, Over) - Sum(reqs, k, Under)
    ensures Sum(reqs, k, Over) >= 0 && Sum(reqs, k, Under) >= 0
  {
    if reqs != [] {
      ReportSum(reqs[..|reqs| - 1], k);
    }
  }

  // ---- the invariant ----

  // The places of the instructions of a meter.
  function CountAt(k: Kind): nat { if k.Hits? then 0 else 1 }
  function LastAt(k: Kind): nat { if k.Hits? then 2 else 3 }
  function StatAt(k: Kind): nat { if k.Hits? then 4 else 5 }
  function StoreAt(k: Kind): nat { if k.Hits? then 7 else 8 }
  function SubtractAt(k: Kind): nat { if k.Hits? then 9 else 10 }

  predicate SeenOk(r: Request, k: Kind, pc: nat) {
    var s := SeenIn(r, k);
    && (s.counted || s.reported ==> HasCounted(r, k))
    && (s.marked || s.taken ==> Marked(r, k))
    && (pc > CountAt(k) && s.reported ==> s.counted)
    && (pc > StatAt(k) && s.taken ==> s.marked)
  }

  ghost predicate CountsOk(m: Meter, reqs: seq<Request>, k: Kind) {
    && m.count == Sum(reqs, k, Now)
    && m.gotCount == Sum(reqs, k, Read)
    && m.last == Sum(reqs, k, Reported)
    && m.stat == Sum(reqs, k, Unmarked)
  }

  ghost predicate LocalsOk(m: Meter, reqs: seq<Request>, k: Kind, pc: nat) {
    && (LastAt(k) < pc <= StoreAt(k) ==> m.gotLast == m.last)
    && (StatAt(k) < pc <= SubtractAt(k) ==> m.gotStat == Sum(reqs, k, ReadMarks))
  }

  ghost predicate MeterOk(s: Traffic, k: Kind) {
    && CountsOk(Of(s.w, k), s.reqs, k) && LocalsOk(Of(s.w, k), s.reqs, k, s.w.pc)
    && forall i :: 0 <= i < |s.reqs| ==> SeenOk(s.reqs[i], k, s.w.pc)
  }

  lemma {:induction false} ArriveKeeps(s: Traffic, event: Event, k: Kind)
    requires s.w.pc < LENGTH && MeterOk(s, k) && event.Arrive?
    ensures MeterOk(Take(s, event), k)
  {
    var s' := Take(s, event);
    assert s'.reqs[..|s.reqs|] == s.reqs;
  }

  lemma {:induction false} AdvanceValue(r: Request, k: Kind, part: Part)
    requires r.steps < Length(r) && (SeenIn(r, k).counted || SeenIn(r, k).reported ==> HasCounted(r, k))
    requires SeenIn(r, k).marked || SeenIn(r, k).taken ==> Marked(r, k)
    ensures Value(r.(steps := r.steps + 1), k, part) - Value(r, k, part)
      == if part.Now? && Effect(r).Count? && Effect(r).k == k then Effect(r).n
         else if part.Unmarked? && Effect(r).CountStat? && Effect(r).k == k then Effect(r).n else 0
  {
  }

  // What the next step of a request adds to a sum.
  function Added(r: Request, k: Kind, part: Part): int
    requires r.steps < Length(r)
  {
    if ((part.Now? && Effect(r).Count?) || (part.Unmarked? && Effect(r).CountStat?)) && Effect(r).k == k then Effect(r).n else 0
  }

  lemma {:induction false} AdvanceSum(reqs: seq<Request>, i: nat, k: Kind, part: Part, pc: nat)
    requires i < |reqs| && reqs[i].steps < Length(reqs[i]) && SeenOk(reqs[i], k, pc) && !part.Over? && !part.Under?
    ensures Sum(reqs[i := reqs[i].(steps := reqs[i].steps + 1)], k, part) == Sum(reqs, k, part) + Added(reqs[i], k, part)
  {
    SumChange(reqs, i, reqs[i].(steps := reqs[i].steps + 1), k, part);
    AdvanceValue(reqs[i], k, part);
  }

  lemma {:induction false} EffectMoves(w: World, r: Request, k: Kind)
    requires w.pc < LENGTH && r.steps < Length(r)
    ensures var w' := Step(w, Effect(r));
      w'.pc == w.pc && Of(w', k) == Of(w, k).(
        count := Of(w, k).count + Added(r, k, Now), stat := Of(w, k).stat + Added(r, k, Unmarked), all := Of(w', k).all)
  {
  }

  lemma {:induction false} AdvanceMeter(m: Meter, m': Meter, reqs: seq<Request>, i: nat, k: Kind, pc: nat)
    requires i < |reqs| && reqs[i].steps < Length(reqs[i]) && SeenOk(reqs[i], k, pc)
    requires CountsOk(m, reqs, k) && LocalsOk(m, reqs, k, pc)
    requires m' == m.(count := m.count + Added(reqs[i], k, Now), stat := m.stat + Added(reqs[i], k, Unmarked), all := m'.all)
    ensures var after := reqs[i := reqs[i].(steps := reqs[i].steps + 1)];
      CountsOk(m', after, k) && LocalsOk(m', after, k, pc)
  {
    AdvanceSum(reqs, i, k, Now, pc);
    AdvanceSum(reqs, i, k, Read, pc);
    AdvanceSum(reqs, i, k, Reported, pc);
    AdvanceSum(reqs, i, k, Unmarked, pc);
    AdvanceSum(reqs, i, k, ReadMarks, pc);
  }

  lemma {:induction false} AdvanceKeeps(s: Traffic, i: nat, k: Kind)
    requires s.w.pc < LENGTH && MeterOk(s, k) && i < |s.reqs| && s.reqs[i].steps < Length(s.reqs[i])
    ensures MeterOk(Take(s, Advance(i)), k)
  {
    assert SeenOk(s.reqs[i], k, s.w.pc);
    EffectMoves(s.w, s.reqs[i], k);
    AdvanceMeter(Of(s.w, k), Of(Take(s, Advance(i)).w, k), s.reqs, i, k, s.w.pc);
    AdvanceSeenOk(s.reqs[i], k, s.w.pc);
  }

  lemma {:induction false} AdvanceSeenOk(r: Request, k: Kind, pc: nat)
    requires SeenOk(r, k, pc)
    ensures SeenOk(r.(steps := r.steps + 1), k, pc)
  {
  }

  lemma {:induction false} WitnessValue(r: Request, instr: Instr, k: Kind)
    requires instr == Subtract(k) ==> (SeenIn(r, k).marked ==> Marked(r, k)) && (SeenIn(r, k).taken ==> SeenIn(r, k).marked)
    ensures var r' := Witness(r, instr);
      && Value(r', k, Now) == Value(r, k, Now)
      && Value(r', k, Read) == Value(r, k, if instr == ReadCount(k) then Now else Read)
      && Value(r', k, Reported) == Value(r, k, if instr == Store(k) then Read else Reported)
      && Value(r', k, Unmarked) == Value(r, k, Unmarked) - (if instr == Subtract(k) then Value(r, k, ReadMarks) else 0)
      && (instr != Subtract(k) ==> Value(r', k, ReadMarks) == Value(r, k, if instr == ReadStat(k) then Unmarked else ReadMarks))
  {
  }

  lemma {:induction false} WitnessSums(a: seq<Request>, b: seq<Request>, instr: Instr, k: Kind)
    requires |a| == |b| && forall i :: 0 <= i < |a| ==> b[i] == Witness(a[i], instr)
    requires instr == Subtract(k) ==> forall i :: 0 <= i < |a| ==>
      (SeenIn(a[i], k).marked ==> Marked(a[i], k)) && (SeenIn(a[i], k).taken ==> SeenIn(a[i], k).marked)
    ensures Sum(b, k, Now) == Sum(a, k, Now)
    ensures Sum(b, k, Read) == Sum(a, k, if instr == ReadCount(k) then Now else Read)
    ensures Sum(b, k, Reported) == Sum(a, k, if instr == Store(k) then Read else Reported)
    ensures Sum(b, k, Unmarked) == Sum(a, k, Unmarked) - if instr == Subtract(k) then Sum(a, k, ReadMarks) else 0
    ensures instr != Subtract(k) ==> Sum(b, k, ReadMarks) == Sum(a, k, if instr == ReadStat(k) then Unmarked else ReadMarks)
  {
    if a != [] {
      var n := |a| - 1;
      WitnessSums(a[..n], b[..n], instr, k);
      WitnessValue(a[n], instr, k);
    }
  }

  lemma {:induction false} WitnessSeenOk(r: Request, k: Kind, pc: nat, outcome: Outcome)
    requires pc < LENGTH && SeenOk(r, k, pc)
    ensures SeenOk(Witness(r, Fetch(pc)), k, Ticked(pc, outcome))
  {
  }

  function Ticked(pc: nat, outcome: Outcome): nat {
    if pc == SEND && outcome.Failed? then 0 else (pc + 1) % LENGTH
  }

  // What an instruction does to the fields of a meter.
  ghost predicate Moved(m: Meter, m': Meter, instr: Instr, k: Kind) {
    && m'.count == m.count
    && m'.gotCount == (if instr == ReadCount(k) then m.count else m.gotCount)
    && m'.gotLast == (if instr == ReadLast(k) then m.last else m.gotLast)
    && m'.gotStat == (if instr == ReadStat(k) then m.stat else m.gotStat)
    && m'.last == (if instr == Store(k) then m.gotCount else m.last)
    && m'.stat == m.stat - (if instr == Subtract(k) then m.gotStat else 0)
  }

  lemma {:induction false} MeterMoves(w: World, outcome: Outcome, k: Kind)
    requires w.pc < LENGTH
    ensures var w' := Step(w, Op.KeepAlive(outcome));
      w'.pc == Ticked(w.pc, outcome) && Moved(Of(w, k), Of(w', k), Fetch(w.pc), k)
  {
  }

  lemma {:induction false} PlaceOf(pc: nat, k: Kind)
    requires pc < LENGTH
    ensures Fetch(pc) == ReadCount(k) <==> pc == CountAt(k)
    ensures Fetch(pc) == ReadLast(k) <==> pc == LastAt(k)
    ensures Fetch(pc) == ReadStat(k) <==> pc == StatAt(k)
    ensures Fetch(pc) == Store(k) <==> pc == StoreAt(k)
    ensures Fetch(pc) == Subtract(k) <==> pc == SubtractAt(k)
  {
  }

  lemma {:induction false} SumsFollow(
      m: Meter, m': Meter, a: seq<Request>, b: seq<Request>, pc: nat, outcome: Outcome, k: Kind)
    requires pc < LENGTH && CountsOk(m, a, k) && LocalsOk(m, a, k, pc) && Moved(m, m', Fetch(pc), k)
    requires |a| == |b| && forall i :: 0 <= i < |a| ==> b[i] == Witness(a[i], Fetch(pc)) && SeenOk(a[i], k, pc)
    ensures CountsOk(m', b, k) && LocalsOk(m', b, k, Ticked(pc, outcome))
  {
    PlaceOf(pc, k);
    WitnessSums(a, b, Fetch(pc), k);
  }

  lemma {:induction false} AliveKeeps(s: Traffic, outcome: Outcome, k: Kind)
    requires s.w.pc < LENGTH && MeterOk(s, k)
    ensures MeterOk(Take(s, Alive(outcome)), k)
  {
    var s' := Take(s, Alive(outcome));
    MeterMoves(s.w, outcome, k);
    forall i | 0 <= i < |s.reqs|
      ensures s'.reqs[i] == Witness(s.reqs[i], Fetch(s.w.pc)) && SeenOk(s.reqs[i], k, s.w.pc)
      ensures SeenOk(s'.reqs[i], k, s'.w.pc)
    {
      WitnessSeenOk(s.reqs[i], k, s.w.pc, outcome);
    }
    SumsFollow(Of(s.w, k), Of(s'.w, k), s.reqs, s'.reqs, s.w.pc, outcome, k);
  }

  lemma {:induction false} MetersOk(events: seq<Event>, k: Kind)
    ensures MeterOk(Traced(events), k)
  {
    if events != [] {
      var s, event := Traced(events[..|events| - 1]), events[|events| - 1];
      MetersOk(events[..|events| - 1], k);
      match event
      case Arrive(_, _) => ArriveKeeps(s, event, k);
      case Alive(outcome) => AliveKeeps(s, outcome, k);
      case Advance(i) =>
        if i < |s.reqs| && s.reqs[i].steps < Length(s.reqs[i]) {
          AdvanceKeeps(s, i, k);
        }
    }
  }

  lemma {:induction false} UnderIsLate(r: Request, k: Kind)
    requires SeenOk(r, k, SEND) && Value(r, k, Under) > 0
    ensures r.statOnly && (SeenIn(r, k).reported || !SeenIn(r, k).counted)
  {
  }

  /** Over every interleaving, a report is what its reads have of requests that they take nothing off for,
      less what they take off for requests that they do not have; so it is negative exactly if the second
      outweighs the first. Only stat-only requests are of the second kind: those that an acknowledged
      keep-alive had counted before they were marked, and those that came between the two reads of this one. */
  lemma {:induction false} ReportByRequests(events: seq<Event>, k: Kind)
    requires Traced(events).w.pc == SEND
    ensures var s := Traced(events); var over, under := Sum(s.reqs, k, Over), Sum(s.reqs, k, Under);
      && Report(Of(s.w, k)) == over - under && over >= 0 && under >= 0
      && (Report(Of(s.w, k)) < 0 <==> under > over)
    ensures forall r :: r in Traced(events).reqs && Value(r, k, Under) > 0 ==>
      r.statOnly && (SeenIn(r, k).reported || !SeenIn(r, k).counted)
  {
    MetersOk(events, k);
    var s := Traced(events);
    forall r | r in s.reqs
      ensures SeenIn(r, k).reported ==> SeenIn(r, k).counted
      ensures Value(r, k, Under) > 0 ==> r.statOnly && (SeenIn(r, k).reported || !SeenIn(r, k).counted)
    {
      var i :| 0 <= i < |s.reqs| && s.reqs[i] == r;
      assert SeenOk(s.reqs[i], k, SEND);
      if Value(r, k, Under) > 0 {
        UnderIsLate(r, k);
      }
    }
    ReportSum(s.reqs, k);
  }

  // ---- one request that makes a report negative ----

  function Alives(n: nat): seq<Event> { seq(n, _ => Alive(Acked)) }

  lemma {:induction false} TracedNext(events: seq<Event>, event: Event)
    ensures Traced(events + [event]) == Take(Traced(events), event)
  {
    assert (events + [event])[..|events|] == events;
  }

  predicate SameSteps(a: seq<Request>, b: seq<Request>) {
    |a| == |b| && forall i :: 0 <= i < |a| ==> b[i].steps == a[i].steps && b[i].statOnly == a[i].statOnly
  }

  lemma {:induction false} AliveIsTick(s: Traffic)
    requires s.w.pc < LENGTH
    ensures var s' := Take(s, Alive(Acked));
      s'.w == Step(s.w, Op.KeepAlive(Acked)) && SameSteps(s.reqs, s'.reqs)
  {
  }

  lemma {:induction false} AlivesTick(events: seq<Event>, n: nat)
    ensures Traced(events + Alives(n)).w == Ticks(Traced(events).w, n)
    ensures SameSteps(Traced(events).reqs, Traced(events + Alives(n)).reqs)
  {
    if n == 0 {
      assert events + Alives(0) == events;
    } else {
      var before := events + Alives(n - 1);
      AlivesTick(events, n - 1);
      assert events + Alives(n) == before + [Alive(Acked)];
      TracedNext(before, Alive(Acked));
      AliveIsTick(Traced(before));
    }
  }

  /** It happens: a request is counted, a keep-alive goes through, and only then the request is marked. */
  lemma {:induction false} ReportMayBeNegative(events: seq<Event>)
    requires events == [Arrive(0, true), Advance(0), Advance(0)] + Alives(LENGTH) + [Advance(0)] + Alives(SEND)
    ensures Traced(events).w.pc == SEND && Report(Traced(events).w.hits) == -1
  {
    var a := [Arrive(0, true), Advance(0), Advance(0)];
    TracedNext([], Arrive(0, true));
    TracedNext([Arrive(0, true)], Advance(0));
    TracedNext([Arrive(0, true), Advance(0)], Advance(0));
    assert [] + [Arrive(0, true)] == [Arrive(0, true)];
    assert [Arrive(0, true)] + [Advance(0)] + [Advance(0)] == a;
    var w := Traced(a).w;
    assert w == START.(hits := ZERO.(count := 1));
    AlivesTick(a, LENGTH);
    UninterruptedKeepAliveSettles(w);
    var b := a + Alives(LENGTH);
    TracedNext(b, Advance(0));
    var w' := Traced(b + [Advance(0)]).w;
    assert w'.pc == 0 && Owed(w'.hits) == -1;
    AlivesTick(b + [Advance(0)], SEND);
    UninterruptedKeepAliveSettles(w');
    ReadAll(w');
  }
}
