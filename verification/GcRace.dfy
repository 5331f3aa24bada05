/** The garbage collections of one storage beside running syncs: testing the flag, looking the file
    up and removing it are separate steps, and any number of collections may be under way. */
module GcRace {
  import opened Presence

  /** `kept` is what committed syncs have found or put on this storage, `pending` what the running one has;
      `tested` are the files for which collections have found the flag clear and have not looked further,
      `decided` those they have then found unnamed and are about to remove, each once for every collection. */
  datatype World = World(
    syncing: bool, present: set<Hash>, pending: set<Hash>, kept: set<Hash>, fileset: set<Hash>,
    tested: multiset<Hash>, decided: multiset<Hash>)

  /** A collection goes by the listing of its walk, so the file it tests may be gone. */
  datatype Op =
    | Begin
    | Found(h: Hash)
    | Stored(h: Hash)
    | Commit(listed: set<Hash>)
    | End
    | Test(h: Hash)
    | Look(h: Hash)
    | Remove(h: Hash)

  /** An operation that cannot happen leaves the world as it is. */
  function Step(w: World, op: Op): World {
    match op
    case Begin => if w.syncing then w else w.(syncing := true, pending := {})
    case Found(h) => if w.syncing && h in w.present then w.(pending := w.pending + {h}) else w
    case Stored(h) => if w.syncing then w.(present := w.present + {h}, pending := w.pending + {h}) else w
    case Commit(listed) =>
      if w.syncing then w.(kept := w.kept + w.pending, fileset := w.fileset + w.pending + listed) else w
    case End => w.(syncing := false, pending := {})
    case Test(h) => if w.syncing then w else w.(tested := w.tested + multiset{h})
    case Look(h) =>
      if h !in w.tested then w
      else w.(tested := w.tested - multiset{h},
              decided := if h in w.fileset then w.decided else w.decided + multiset{h})
    case Remove(h) =>
      if h in w.decided then w.(present := w.present - {h}, decided := w.decided - multiset{h}) else w
  }

  function Run(w: World, ops: seq<Op>): World {
    if ops == [] then w else Step(Run(w, ops[..|ops| - 1]), ops[|ops| - 1])
  }

  const EMPTY := World(false, {}, {}, {}, {}, multiset{}, multiset{})

  /** No collection is under way with a file that the file set does not name. */
  ghost predicate Quiet(w: World) {
    w.decided == multiset{} && forall h :: h in w.tested ==> h in w.fileset
  }

  /** No sync begins between a collection's test of the flag for such a file and its removal. */
  ghost predicate Calm(ops: seq<Op>) {
    forall k :: 0 <= k < |ops| && ops[k].Begin? ==> Quiet(Run(EMPTY, ops[..k]))
  }

  ghost predicate Inv(w: World) {
    && w.kept <= w.present && w.kept <= w.fileset
    && w.pending <= w.present
    && (!w.syncing ==> w.pending == {})
    && (w.syncing ==> Quiet(w))
    && (forall h :: h in w.decided ==> h !in w.fileset)
  }

  lemma {:induction false} CollectionStep(w: World, op: Op)
    requires Inv(w) && (op.Test? || op.Look? || op.Remove?)
    ensures Inv(Step(w, op))
  {
    var w', h := Step(w, op), op.h;
    assert forall x :: x in w'.decided ==> x in w.decided || (x == h && h in w.tested && h !in w.fileset);
    if w.syncing {
      assert w'.decided == w.decided && w'.present == w.present;
      assert forall x :: x in w'.tested ==> x in w.tested;
    }
  }

  lemma {:induction false} StepKeepsInv(w: World, op: Op)
    requires Inv(w) && (op.Begin? ==> Quiet(w))
    ensures Inv(Step(w, op))
  {
    if op.Test? || op.Look? || op.Remove? {
      CollectionStep(w, op);
    }
  }

  /** Then, whatever the order of the other steps, no committed file leaves the storage; in particular
      when test, lookup and removal are one step. */
  lemma {:induction false} CalmRunKeepsCommitted(ops: seq<Op>)
    requires Calm(ops)
    ensures Inv(Run(EMPTY, ops))
    ensures Run(EMPTY, ops).kept <= Run(EMPTY, ops).present
  {
    if ops != [] {
      var n := |ops| - 1;
      forall k | 0 <= k < n && ops[..n][k].Begin?
        ensures Quiet(Run(EMPTY, ops[..n][..k]))
      {
        assert ops[..n][..k] == ops[..k];
      }
      CalmRunKeepsCommitted(ops[..n]);
      StepKeepsInv(Run(EMPTY, ops[..n]), ops[n]);
    }
  }

  // ---- what a collection and a sync do when left alone ----

  /** A test and a look-up take a file up for removal exactly if no sync runs, or the flag had been tested
      before, and the file set does not name it; they change nothing on the storage. */
  lemma {:induction false} LookDecides(w: World, h: Hash)
    ensures var w' := Step(Step(w, Test(h)), Look(h)); var goes := (!w.syncing || h in w.tested) && h !in w.fileset;
      && w'.decided == w.decided + (if goes then multiset{h} else multiset{})
      && (h !in w.tested ==> w'.tested == w.tested)
      && w'.(tested := w.tested, decided := w.decided) == w
  {
    var v := Step(w, Test(h));
    assert !w.syncing ==> v.tested == w.tested + multiset{h} && v.tested - multiset{h} == w.tested;
  }

  /** A removal that was decided takes its file and nothing else, and is then done; another one does nothing. */
  lemma {:induction false} RemoveTakes(w: World, h: Hash)
    ensures Step(w, Remove(h)) ==
      if h in w.decided then w.(present := w.present - {h}, decided := w.decided - multiset{h}) else w
    ensures h in w.decided ==> h !in Step(w, Remove(h)).present
  {
  }

  /** A sync left alone keeps what it has found and what it has stored, names these and its list, and ends. */
  lemma {:induction false} SyncCommits(w: World, old': Hash, older: Hash, new': Hash, listed: set<Hash>)
    requires Inv(w) && !w.syncing && old' in w.present && older in w.present
    ensures var found := Step(Step(Step(w, Begin), Found(old')), Found(older));
      var w' := Step(Step(Step(found, Stored(new')), Commit(listed)), End);
      && w'.present == w.present + {new'}
      && w'.kept == w.kept + {old', older, new'}
      && w'.fileset == w.fileset + {old', older, new'} + listed
      && !w'.syncing && w'.pending == {} && w'.tested == w.tested && w'.decided == w.decided
  {
  }

  /** A second sync does not begin while one is running. */
  lemma {:induction false} OneSyncAtATime(w: World)
    ensures Step(w, Begin).syncing && (w.syncing ==> Step(w, Begin) == w)
  {
  }

  // ---- a sync that begins in between ----

  lemma {:induction false} RunOne(w: World, ops: seq<Op>, op: Op)
    ensures Run(w, ops + [op]) == Step(Run(w, ops), op)
  {
    assert (ops + [op])[..|ops|] == ops;
  }

  /** A sync that stores and commits one file while a collection goes on with it. */
  function Overtaking(h: Hash): seq<Op> { [Begin, Stored(h), Look(h), Commit({h}), End, Remove(h)] }

  lemma {:induction false} RunAppend(w: World, a: seq<Op>, b: seq<Op>)
    ensures Run(w, a + b) == Run(Run(w, a), b)
  {
    if b == [] {
      assert a + b == a;
    } else {
      var front, last := b[..|b| - 1], b[|b| - 1];
      RunAppend(w, a, front);
      RunOne(w, a + front, last);
      assert a + b == a + front + [last];
    }
  }

  lemma {:induction false} RunNext(w: World, ops: seq<Op>, rest: seq<Op>)
    requires ops != [] && rest == ops[1..]
    ensures Run(w, ops) == Run(Step(w, ops[0]), rest)
  {
    assert ops == [ops[0]] + rest;
    RunAppend(w, [ops[0]], rest);
    RunOne(w, [], ops[0]);
    assert [] + [ops[0]] == [ops[0]];
  }

  lemma {:induction false} TwoOps(w: World, ops: seq<Op>, rest: seq<Op>)
    requires |ops| >= 2 && rest == ops[2..]
    ensures Run(w, ops) == Run(Step(Step(w, ops[0]), ops[1]), rest)
  {
    RunNext(w, ops, ops[1..]);
    RunNext(Step(w, ops[0]), ops[1..], rest);
  }

  lemma {:induction false} SixOps(w: World, ops: seq<Op>)
    requires |ops| == 6
    ensures Run(w, ops) == Step(Step(Step(Step(Step(Step(w, ops[0]), ops[1]), ops[2]), ops[3]), ops[4]), ops[5])
  {
    TwoOps(w, ops, ops[2..]);
    var w2 := Step(Step(w, ops[0]), ops[1]);
    TwoOps(w2, ops[2..], ops[4..]);
    var w4 := Step(Step(w2, ops[2]), ops[3]);
    TwoOps(w4, ops[4..], []);
  }

  lemma {:induction false} SixSteps(w: World, h: Hash)
    requires Inv(w) && (h in w.decided || (h in w.tested && h !in w.fileset))
    ensures var w' := Step(Step(Step(Step(Step(Step(w, Begin), Stored(h)), Look(h)), Commit({h})), End), Remove(h));
      h in w'.kept && h in w'.fileset && h !in w'.present
  {
    var w1 := Step(Step(w, Begin), Stored(h));
    assert h in w1.pending && w1.syncing;
    var w2 := Step(w1, Look(h));
    assert h in w2.decided && h in w2.pending && w2.syncing;
    var w3 := Step(Step(w2, Commit({h})), End);
    assert h in w3.kept && h in w3.fileset && h in w3.decided;
  }

  /** The condition is needed in every case: from any state that a calm run reaches, in which a collection is
      under way with a file that the file set does not name, on the storage or not, a sync can begin, store
      the file, commit it and end before the removal. */
  lemma {:induction false} OvertakenRemovalLosesFile(ops: seq<Op>, h: Hash)
    requires Calm(ops)
    requires var w := Run(EMPTY, ops); h in w.decided || (h in w.tested && h !in w.fileset)
    ensures var w := Run(EMPTY, ops + Overtaking(h)); h in w.kept && h in w.fileset && h !in w.present
  {
    CalmRunKeepsCommitted(ops);
    RunAppend(EMPTY, ops, Overtaking(h));
    SixOps(Run(EMPTY, ops), Overtaking(h));
    SixSteps(Run(EMPTY, ops), h);
  }

  lemma {:induction false} OvertakingIsCalm(ops: seq<Op>, h: Hash)
    requires Calm(ops) && Quiet(Run(EMPTY, ops))
    ensures Calm(ops + Overtaking(h))
  {
    var all := ops + Overtaking(h);
    forall k | 0 <= k < |all| && all[k].Begin?
      ensures Quiet(Run(EMPTY, all[..k]))
    {
      if k < |ops| {
        assert all[..k] == ops[..k] && all[k] == ops[k];
      } else {
        assert all[k] == Overtaking(h)[k - |ops|];
        assert all[..k] == ops;
      }
    }
  }

  /** So after a calm run a sync may begin without danger exactly when the collections are quiet. */
  lemma {:induction false} SyncIsSafeExactlyWhenQuiet(ops: seq<Op>)
    requires Calm(ops)
    ensures Quiet(Run(EMPTY, ops)) <==>
      forall h :: Run(EMPTY, ops + Overtaking(h)).kept <= Run(EMPTY, ops + Overtaking(h)).present
  {
    var w := Run(EMPTY, ops);
    if Quiet(w) {
      forall h
        ensures Run(EMPTY, ops + Overtaking(h)).kept <= Run(EMPTY, ops + Overtaking(h)).present
      {
        OvertakingIsCalm(ops, h);
        CalmRunKeepsCommitted(ops + Overtaking(h));
      }
    } else {
      var h :| h in w.decided || (h in w.tested && h !in w.fileset);
      OvertakenRemovalLosesFile(ops, h);
    }
  }
}
