/** The hit and byte counters and the keep-alive that reports them. Requests add to the counters at
    any moment, also between the separate reads and writes of a keep-alive. */
module KeepAlive {
  import opened Common

  /** One kind of traffic. `all` counts what `stat` has ever been given, `acked` sums the acknowledged
      reports; the `got` fields are the local variables of the keep-alive. */
  datatype Meter = Meter(
    count: int, stat: int, last: int, gotCount: int, gotLast: int, gotStat: int,
    all: int, acked: int)

  datatype Kind = Hits | Bytes

  datatype Outcome = Failed | Acked

  /** The instructions of a keep-alive in order; it starts over from 0 when it is over. */
  datatype Instr = ReadCount(k: Kind) | ReadLast(k: Kind) | ReadStat(k: Kind) | Send | Store(k: Kind) | Subtract(k: Kind)

  const LENGTH := 11
  const SEND := 6

  function Fetch(pc: nat): Instr
    requires pc < LENGTH
  {
    if pc == 0 then ReadCount(Hits) else if pc == 1 then ReadCount(Bytes)
    else if pc == 2 then ReadLast(Hits) else if pc == 3 then ReadLast(Bytes)
    else if pc == 4 then ReadStat(Hits) else if pc == 5 then ReadStat(Bytes)
    else if pc == SEND then Send
    else if pc == 7 then Store(Hits) else if pc == 8 then Store(Bytes)
    else if pc == 9 then Subtract(Hits) else Subtract(Bytes)
  }

  datatype World = World(hits: Meter, bytes: Meter, pc: nat)

  const ZERO := Meter(0, 0, 0, 0, 0, 0, 0, 0)
  const START := World(ZERO, ZERO, 0)

  /** A request counts, counts as stat-only, or the keep-alive moves on. */
  datatype Op = Count(k: Kind, n: nat) | CountStat(k: Kind, n: nat) | KeepAlive(outcome: Outcome)

  function Of(w: World, k: Kind): Meter { if k.Hits? then w.hits else w.bytes }

  function With(w: World, k: Kind, m: Meter): World {
    if k.Hits? then w.(hits := m) else w.(bytes := m)
  }

  function Report(m: Meter): int { m.gotCount - m.gotLast - m.gotStat }

  function Execute(m: Meter, instr: Instr): Meter {
    match instr
    case ReadCount(_) => m.(gotCount := m.count)
    case ReadLast(_) => m.(gotLast := m.last)
    case ReadStat(_) => m.(gotStat := m.stat)
    case Send => m.(acked := m.acked + Report(m))
    case Store(_) => m.(last := m.gotCount)
    case Subtract(_) => m.(stat := m.stat - m.gotStat)
  }

  function Step(w: World, op: Op): World
    requires w.pc < LENGTH
  {
    match op
    case Count(k, n) => With(w, k, Of(w, k).(count := Of(w, k).count + n))
    case CountStat(k, n) => With(w, k, Of(w, k).(stat := Of(w, k).stat + n, all := Of(w, k).all + n))
    case KeepAlive(outcome) =>
      var instr := Fetch(w.pc);
      var next := (w.pc + 1) % LENGTH;
      if instr.Send? then
        if outcome.Failed? then w.(pc := 0)
        else World(Execute(w.hits, instr), Execute(w.bytes, instr), next)
      else With(w, instr.k, Execute(Of(w, instr.k), instr)).(pc := next)
  }

  function Run(ops: seq<Op>): (w: World)
    ensures w.pc < LENGTH
  {
    if ops == [] then START else Step(Run(ops[..|ops| - 1]), ops[|ops| - 1])
  }

  // What the acknowledged reports come to while the last keep-alive may still have to write it down.
  predicate Balanced(m: Meter, pc: nat, readLast: nat, store: nat, subtract: nat) {
    && (readLast < pc <= SEND ==> m.gotLast == m.last)
    && m.acked == (if SEND < pc <= store then m.gotCount else m.last)
                  - (m.all - m.stat) - (if SEND < pc <= subtract then m.gotStat else 0)
  }

  predicate Inv(w: World) {
    && Balanced(w.hits, w.pc, 2, 7, 9)
    && Balanced(w.bytes, w.pc, 3, 8, 10)
  }

  lemma {:induction false} StepKeepsInv(w: World, op: Op)
    requires w.pc < LENGTH && Inv(w)
    ensures Inv(Step(w, op))
  {
  }

  lemma {:induction false} InvHolds(ops: seq<Op>)
    ensures Inv(Run(ops))
  {
    if ops != [] {
      InvHolds(ops[..|ops| - 1]);
      StepKeepsInv(Run(ops[..|ops| - 1]), ops[|ops| - 1]);
    }
  }

  function Counted(ops: seq<Op>, k: Kind): nat {
    if ops == [] then 0 else
    var op := ops[|ops| - 1];
    Counted(ops[..|ops| - 1], k) + if op.Count? && op.k == k then op.n else 0
  }

  function CountedStat(ops: seq<Op>, k: Kind): nat {
    if ops == [] then 0 else
    var op := ops[|ops| - 1];
    CountedStat(ops[..|ops| - 1], k) + if op.CountStat? && op.k == k then op.n else 0
  }

  lemma {:induction false} CountersCount(ops: seq<Op>, k: Kind)
    ensures Of(Run(ops), k).count == Counted(ops, k) && Of(Run(ops), k).all == CountedStat(ops, k)
  {
    if ops != [] {
      CountersCount(ops[..|ops| - 1], k);
    }
  }

  /** However the steps interleave and whichever keep-alives fail, between keep-alives the acknowledged
      reports and what the counters still owe come to all hits (or bytes) less the stat-only ones. */
  lemma {:induction false} AcknowledgedPlusOwed(ops: seq<Op>, k: Kind)
    requires Run(ops).pc == 0
    ensures var m := Of(Run(ops), k);
      m.acked + (m.count - m.last - m.stat) == Counted(ops, k) - CountedStat(ops, k)
  {
    InvHolds(ops);
    CountersCount(ops, k);
  }

  // ---- one keep-alive after another ----

  function Ticks(w: World, n: nat): (r: World)
    requires w.pc < LENGTH
    ensures r.pc < LENGTH
  {
    if n == 0 then w else Step(Ticks(w, n - 1), KeepAlive(Acked))
  }

  function Owed(m: Meter): int { m.count - m.last - m.stat }

  function Settled(m: Meter): Meter {
    m.(gotCount := m.count, gotLast := m.last, gotStat := m.stat, acked := m.acked + Owed(m), last := m.count, stat := 0)
  }

  /** A keep-alive that nothing interrupts reports what is owed and leaves nothing owed. */
  lemma {:induction false} UninterruptedKeepAliveSettles(w: World)
    requires w.pc == 0
    ensures Report(Ticks(w, SEND).hits) == Owed(w.hits) && Report(Ticks(w, SEND).bytes) == Owed(w.bytes)
    ensures Ticks(w, LENGTH) == World(Settled(w.hits), Settled(w.bytes), 0)
  {
    ReadAll(w);
    WriteAll(w, Ticks(w, SEND));
  }

  lemma {:induction false} ReadAll(w: World)
    requires w.pc == 0
    ensures Ticks(w, SEND) == World(
      w.hits.(gotCount := w.hits.count, gotLast := w.hits.last, gotStat := w.hits.stat),
      w.bytes.(gotCount := w.bytes.count, gotLast := w.bytes.last, gotStat := w.bytes.stat), SEND)
  {
    assert Ticks(w, 1).pc == 1 && Ticks(w, 2).pc == 2;
    assert Ticks(w, 3).pc == 3 && Ticks(w, 4).pc == 4;
    assert Ticks(w, 5).pc == 5;
  }

  lemma {:induction false} WriteAll(w: World, r: World)
    requires w.pc == 0 && Ticks(w, SEND) == r && r.pc == SEND
    ensures Ticks(w, LENGTH) == World(
      r.hits.(acked := r.hits.acked + Report(r.hits), last := r.hits.gotCount, stat := r.hits.stat - r.hits.gotStat),
      r.bytes.(acked := r.bytes.acked + Report(r.bytes), last := r.bytes.gotCount, stat := r.bytes.stat - r.bytes.gotStat), 0)
  {
    assert Ticks(w, 7).pc == 7 && Ticks(w, 8).pc == 8;
    assert Ticks(w, 9).pc == 9 && Ticks(w, 10).pc == 10;
  }

  // ---- counters that wrap ----

  /** Counters of 32 (or 64) bits report exactly what is owed as long as that fits, however often they
      have wrapped. */
  lemma {:induction false} WrappedReportIsExact(m: Meter, half: int)
    requires half > 0 && -half <= Report(m) < half
    ensures Wrap(Wrap(Wrap(m.gotCount, half) - Wrap(m.gotLast, half), half) - Wrap(m.gotStat, half), half) == Report(m)
  {
    WrappedDifference(m.gotCount, m.gotLast, half);
    WrappedDifference(m.gotCount - m.gotLast, m.gotStat, half);
    WrapIs(Report(m), Report(m), 0, half);
  }
}
