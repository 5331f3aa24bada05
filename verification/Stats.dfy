/** The ledger of the whole node beside one ledger per storage. */
module Stats {
  import opened Calendar
  import opened Ledger
  import opened LedgerExact

  /** One AddHits call. The clock is read once for the node's ledger and again,
      no earlier, for the storage's. */
  datatype Call = Call(name: string, now: StatTime, later: StatTime, x: Inst)

  class NodeStats {
    var main: StatData
    var sub: map<string, StatData>
    var hits: int
    var bytes: int

    ghost predicate Valid()
      reads this, main, sub.Values
    {
      && main.Valid()
      && main !in sub.Values
      && (forall k :: k in sub ==> sub[k].Valid())
      && (forall j, k :: j in sub && k in sub && j != k ==> sub[j] != sub[k])
    }

    constructor ()
      ensures Valid() && fresh(main)
      ensures main.Snapshot() == EMPTY && sub == map[] && hits == bytes == 0
    {
      main := new StatData();
      sub, hits, bytes := map[], 0, 0;
    }

    method AddHits(c: Call)
      requires Valid() && InRange(c.now) && InRange(c.later)
      modifies this, main, sub.Values
      ensures Valid() && main == old(main) && fresh(sub.Values - old(sub.Values))
      ensures hits == old(hits) + c.x.hits && bytes == old(bytes) + c.x.bytes
      ensures main.Snapshot() == Updated(old(main.Snapshot()), c.now, c.x)
      ensures sub.Keys == old(sub.Keys) + (if c.name == "" then {} else {c.name})
      ensures forall k :: k in old(sub) ==> sub[k] == old(sub[k])
      ensures forall k :: k in old(sub) && k != c.name ==> sub[k].Snapshot() == old(sub[k].Snapshot())
      ensures c.name != "" && c.name in old(sub) ==>
        sub[c.name].Snapshot() == Updated(old(sub[c.name].Snapshot()), c.later, c.x)
      ensures c.name != "" && c.name !in old(sub) ==> sub[c.name].Snapshot() == Updated(EMPTY, c.later, c.x)
    {
      hits, bytes := hits + c.x.hits, bytes + c.x.bytes;
      main.Update(c.now, c.x);
      if c.name != "" {
        if c.name !in sub {
          var ledger := new StatData();
          sub := sub[c.name := ledger];
        }
        sub[c.name].Update(c.later, c.x);
      }
    }
  }

  // ---- Whole runs ----

  ghost predicate ValidCalls(calls: seq<Call>) {
    && (forall i :: 0 <= i < |calls| ==> calls[i].x.hits > 0 && Calendar.Valid(calls[i].now) && Calendar.Valid(calls[i].later))
    && (forall i, j :: 0 <= i <= j < |calls| ==> LessEq(calls[i].now, calls[j].now) && LessEq(calls[i].later, calls[j].later))
  }

  ghost function MainLog(calls: seq<Call>): (log: seq<Event>)
    ensures |log| == |calls|
    ensures forall i :: 0 <= i < |calls| ==> log[i] == Event(calls[i].now, calls[i].x)
  {
    seq(|calls|, i requires 0 <= i < |calls| => Event(calls[i].now, calls[i].x))
  }

  /** The calls that name one storage, in order. */
  ghost function LogOf(calls: seq<Call>, n: nat, name: string): seq<Event>
    requires n <= |calls|
  {
    if n == 0 then []
    else if calls[n - 1].name == name then LogOf(calls, n - 1, name) + [Event(calls[n - 1].later, calls[n - 1].x)]
    else LogOf(calls, n - 1, name)
  }

  ghost function AddedToSub(ledgers: map<string, Data>, c: Call): (r: map<string, Data>)
    requires InRange(c.later)
    requires forall k :: k in ledgers ==> InRange(ledgers[k].date)
    ensures forall k :: k in r ==> InRange(r[k].date)
  {
    if c.name == "" then ledgers
    else ledgers[c.name := Updated(if c.name in ledgers then ledgers[c.name] else EMPTY, c.later, c.x)]
  }

  ghost function SubRun(calls: seq<Call>, n: nat): (ledgers: map<string, Data>)
    requires ValidCalls(calls) && n <= |calls|
    ensures forall k :: k in ledgers ==> InRange(ledgers[k].date)
  {
    if n == 0 then map[] else AddedToSub(SubRun(calls, n - 1), calls[n - 1])
  }

  lemma {:induction false} LogOfValid(calls: seq<Call>, n: nat, name: string)
    requires ValidCalls(calls) && n <= |calls|
    ensures ValidLog(LogOf(calls, n, name))
    ensures forall i :: 0 <= i < |LogOf(calls, n, name)| ==>
              exists j :: 0 <= j < n && LogOf(calls, n, name)[i].t == calls[j].later
  {
    if n > 0 {
      LogOfValid(calls, n - 1, name);
      var log := LogOf(calls, n - 1, name);
      forall i | 0 <= i < |log| ensures LessEq(log[i].t, calls[n - 1].later) {
        var j :| 0 <= j < n - 1 && log[i].t == calls[j].later;
      }
    }
  }

  lemma {:induction false} RunOfPrefix(a: seq<Event>, b: seq<Event>, n: nat)
    requires ValidLog(a) && ValidLog(b) && n <= |a| && n <= |b|
    requires forall i :: 0 <= i < n ==> a[i] == b[i]
    ensures Run(a, n) == Run(b, n)
  {
    if n > 0 {
      RunOfPrefix(a, b, n - 1);
    }
  }

  lemma {:induction false} RunSnoc(log: seq<Event>, e: Event)
    requires ValidLog(log + [e])
    ensures ValidLog(log)
    ensures Run(log + [e], |log| + 1) == Updated(Run(log, |log|), e.t, e.x)
  {
    var longer := log + [e];
    assert forall i :: 0 <= i < |log| ==> log[i] == longer[i];
    RunOfPrefix(log, longer, |log|);
  }

  ghost predicate IsRunOf(ledgers: map<string, Data>, name: string, log: seq<Event>) {
    && ValidLog(log)
    && (name in ledgers <==> log != [])
    && (log != [] ==> ledgers[name] == Run(log, |log|))
  }

  lemma {:induction false} SubOwn(ledgers: map<string, Data>, c: Call, name: string, log: seq<Event>)
    requires InRange(c.later) && IsRunOf(ledgers, name, log) && c.name == name && name != ""
    requires forall k :: k in ledgers ==> InRange(ledgers[k].date)
    requires ValidLog(log + [Event(c.later, c.x)])
    ensures IsRunOf(AddedToSub(ledgers, c), name, log + [Event(c.later, c.x)])
  {
    RunSnoc(log, Event(c.later, c.x));
  }

  lemma {:induction false} SubOther(ledgers: map<string, Data>, c: Call, name: string, log: seq<Event>)
    requires InRange(c.later) && IsRunOf(ledgers, name, log) && c.name != name
    requires forall k :: k in ledgers ==> InRange(ledgers[k].date)
    ensures IsRunOf(AddedToSub(ledgers, c), name, log)
  {
  }

  /** A storage's ledger is exactly the run over its own calls, whatever the other
      storages do in between; it exists as soon as the storage has had a call. */
  lemma {:induction false} SubLedgerRunsAlone(calls: seq<Call>, n: nat, name: string)
    requires ValidCalls(calls) && n <= |calls| && name != ""
    ensures IsRunOf(SubRun(calls, n), name, LogOf(calls, n, name))
  {
    if n > 0 {
      SubLedgerRunsAlone(calls, n - 1, name);
      if calls[n - 1].name == name {
        LogOfValid(calls, n, name);
        SubOwn(SubRun(calls, n - 1), calls[n - 1], name, LogOf(calls, n - 1, name));
      } else {
        SubOther(SubRun(calls, n - 1), calls[n - 1], name, LogOf(calls, n - 1, name));
      }
    }
  }

  // Storage "s" is used in January and in March, another way of serving in February.
  ghost function IdleInFebruary(x: Inst): seq<Call> {
    var jan, feb, mar := StatTime(0, 0, 0, 2024), StatTime(0, 0, 1, 2024), StatTime(0, 0, 2, 2024);
    [Call("s", jan, jan, x), Call("", feb, feb, x), Call("s", mar, mar, x)]
  }

  /** So the month condition applies to each storage's own log: a storage idle for a
      whole month loses exactness although the node's ledger stays exact. */
  lemma {:induction false} IdleStorageIsInexact(x: Inst)
    requires x.hits > 0
    ensures ValidCalls(IdleInFebruary(x))
    ensures var log := MainLog(IdleInFebruary(x)); ValidLog(log) && AlwaysExact(log)
    ensures var log := LogOf(IdleInFebruary(x), 3, "s"); ValidLog(log) && !AlwaysExact(log)
  {
    LedgerRefinesLog(MainLog(IdleInFebruary(x)));
    OwnLogOfIdle(x);
    var own := LogOf(IdleInFebruary(x), 3, "s");
    SkipsFebruary(own, x);
    LedgerRefinesLog(own);
  }

  lemma {:induction false} SkipsFebruary(log: seq<Event>, x: Inst)
    requires x.hits > 0 && log == [Event(StatTime(0, 0, 0, 2024), x), Event(StatTime(0, 0, 2, 2024), x)]
    ensures ValidLog(log) && !NoMonthSkipped(log)
  {
    assert MonthIndex(log[1].t) > MonthIndex(log[0].t) + 1;
  }

  lemma {:induction false} OwnLogOfIdle(x: Inst)
    ensures var calls := IdleInFebruary(x);
      LogOf(calls, 3, "s") == [Event(calls[0].later, x), Event(calls[2].later, x)]
  {
    var calls := IdleInFebruary(x);
    assert LogOf(calls, 1, "s") == [Event(calls[0].later, x)];
    assert LogOf(calls, 2, "s") == [Event(calls[0].later, x)];
  }
}
