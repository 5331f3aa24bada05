/** The light check of a sync: one goroutine per storage walks its storage, scans the file list and
    records itself as a target of each file it lacks, in a shared map filled by get-or-set. */
module Presence {

  type Hash = string

  datatype FileInfo = FileInfo(hash: Hash, size: int)

  /** What a walk of a storage lists: hashes with their sizes. */
  type Store = map<Hash, int>

  /** The storages in order, and for each whether its walk succeeds. */
  datatype Config = Config(files: seq<FileInfo>, stores: seq<Store>, walks: seq<bool>)

  ghost predicate ValidConfig(c: Config) { |c.walks| == |c.stores| }

  /** The files a check reports: an empty file is never missing. */
  predicate Lacks(store: Store, f: FileInfo) {
    f.size != 0 && !(f.hash in store && store[f.hash] == f.size)
  }

  // Where a goroutine stands; Lookup reads the map under the read lock, Insert looks again under the
  // write lock, Append adds to the targets of an entry that was there.
  datatype At =
    | Walk
    | Scan(i: nat)
    | Lookup(i: nat)
    | Insert(i: nat)
    | Append(i: nat)
    | Done(ok: bool)

  type Missing = map<Hash, seq<nat>>

  datatype State = State(at: seq<At>, missing: Missing)

  ghost function InitState(c: Config): State { State(seq(|c.stores|, _ => Walk), map[]) }

  /** The next step of goroutine s; it does nothing once it is done. */
  function Step(c: Config, st: State, s: nat): State
    requires ValidConfig(c) && Shaped(c, st) && s < |c.stores|
  {
    match st.at[s]
    case Walk => st.(at := st.at[s := if c.walks[s] then Scan(0) else Done(false)])
    case Scan(i) =>
      st.(at := st.at[s :=
        if i == |c.files| then Done(true)
        else if Lacks(c.stores[s], c.files[i]) then Lookup(i) else Scan(i + 1)])
    case Lookup(i) => st.(at := st.at[s := if c.files[i].hash in st.missing then Append(i) else Insert(i)])
    case Insert(i) =>
      var h := c.files[i].hash;
      if h in st.missing then st.(at := st.at[s := Append(i)])
      else State(st.at[s := Scan(i + 1)], st.missing[h := [s]])
    case Append(i) =>
      var h := c.files[i].hash;
      State(st.at[s := Scan(i + 1)], st.missing[h := st.missing[h] + [s]])
    case Done(_) => st
  }

  ghost predicate PlaceOk(c: Config, missing: Missing, at: At, s: nat)
    requires ValidConfig(c) && s < |c.stores|
  {
    match at
    case Walk => true
    case Scan(i) => c.walks[s] && i <= |c.files|
    case Lookup(i) => c.walks[s] && i < |c.files| && Lacks(c.stores[s], c.files[i])
    case Insert(i) => c.walks[s] && i < |c.files| && Lacks(c.stores[s], c.files[i])
    case Append(i) => c.walks[s] && i < |c.files| && Lacks(c.stores[s], c.files[i]) && c.files[i].hash in missing
    case Done(ok) => ok == c.walks[s]
  }

  ghost predicate Shaped(c: Config, st: State)
    requires ValidConfig(c)
  {
    && |st.at| == |c.stores|
    && forall s :: 0 <= s < |st.at| ==> PlaceOk(c, st.missing, st.at[s], s)
  }

  /** How many of the first n listed files have this hash and are lacking. */
  function Lacking(files: seq<FileInfo>, store: Store, h: Hash, n: nat): nat
    requires n <= |files|
  {
    if n == 0 then 0 else
    Lacking(files, store, h, n - 1) + if files[n - 1].hash == h && Lacks(store, files[n - 1]) then 1 else 0
  }

  function Targets(missing: Missing, h: Hash): seq<nat> { if h in missing then missing[h] else [] }

  function Scanned(c: Config, at: At): nat {
    match at
    case Walk => 0
    case Done(ok) => if ok then |c.files| else 0
    case _ => at.i
  }

  /** Each goroutine is among the targets of a hash as often as it has found a file of it lacking. */
  ghost predicate Booked(c: Config, st: State, s: nat, h: Hash)
    requires ValidConfig(c) && Shaped(c, st) && s < |c.stores|
  {
    && Scanned(c, st.at[s]) <= |c.files|
    && multiset(Targets(st.missing, h))[s] == Lacking(c.files, c.stores[s], h, Scanned(c, st.at[s]))
  }

  ghost predicate Inv(c: Config, st: State) {
    && ValidConfig(c) && Shaped(c, st)
    && (forall s: nat, h: Hash :: s < |c.stores| ==> Booked(c, st, s, h))
    && (forall h :: h in st.missing ==> st.missing[h] != [])
    && (forall h, t :: h in st.missing && t in st.missing[h] ==> t < |c.stores|)
  }

  // Whether the next step of goroutine s records it under its current hash.
  ghost predicate Adds(c: Config, st: State, s: nat)
    requires ValidConfig(c) && Shaped(c, st) && s < |c.stores|
  {
    st.at[s].Append? || (st.at[s].Insert? && c.files[st.at[s].i].hash !in st.missing)
  }

  lemma {:induction false} StepAdds(c: Config, st: State, s: nat, h: Hash)
    requires ValidConfig(c) && Shaped(c, st) && s < |c.stores|
    ensures Targets(Step(c, st, s).missing, h)
         == Targets(st.missing, h) + if Adds(c, st, s) && c.files[st.at[s].i].hash == h then [s] else []
  {
  }

  lemma {:induction false} StepAdvances(c: Config, st: State, s: nat, h: Hash)
    requires ValidConfig(c) && Shaped(c, st) && s < |c.stores|
    ensures var n, m := Scanned(c, st.at[s]), Scanned(c, Step(c, st, s).at[s]);
      && n <= |c.files| && m <= |c.files|
      && Lacking(c.files, c.stores[s], h, m) == Lacking(c.files, c.stores[s], h, n)
           + if Adds(c, st, s) && c.files[st.at[s].i].hash == h then 1 else 0
  {
    assert PlaceOk(c, st.missing, st.at[s], s);
  }

  lemma {:induction false} StepKeepsBooked(c: Config, st: State, s: nat, t: nat, h: Hash)
    requires ValidConfig(c) && Shaped(c, st) && s < |c.stores| && t < |c.stores|
    requires Booked(c, st, t, h)
    requires Shaped(c, Step(c, st, s))
    ensures Booked(c, Step(c, st, s), t, h)
  {
    StepAdds(c, st, s, h);
    StepAdvances(c, st, s, h);
    if t != s {
      assert Step(c, st, s).at[t] == st.at[t];
    }
  }

  lemma {:induction false} StepKeepsShape(c: Config, st: State, s: nat)
    requires ValidConfig(c) && Shaped(c, st) && s < |c.stores|
    ensures Shaped(c, Step(c, st, s))
  {
    var st' := Step(c, st, s);
    forall t | 0 <= t < |st'.at|
      ensures PlaceOk(c, st'.missing, st'.at[t], t)
    {
      assert PlaceOk(c, st.missing, st.at[t], t);
    }
  }

  lemma {:induction false} StepKeepsInv(c: Config, st: State, s: nat)
    requires Inv(c, st) && s < |c.stores|
    ensures Inv(c, Step(c, st, s))
  {
    StepKeepsShape(c, st, s);
    forall t: nat, h: Hash | t < |c.stores|
      ensures Booked(c, Step(c, st, s), t, h)
    {
      StepKeepsBooked(c, st, s, t, h);
    }
  }

  /** The state after the goroutines have moved in the order of the schedule. */
  ghost function After(c: Config, schedule: seq<nat>): (st: State)
    requires ValidConfig(c) && forall k :: 0 <= k < |schedule| ==> schedule[k] < |c.stores|
    ensures Inv(c, st)
  {
    if schedule == [] then InitState(c) else
    var n := |schedule| - 1;
    StepKeepsInv(c, After(c, schedule[..n]), schedule[n]);
    Step(c, After(c, schedule[..n]), schedule[n])
  }

  ghost predicate Finished(st: State) { forall s :: 0 <= s < |st.at| ==> st.at[s].Done? }

  ghost predicate Distinct(files: seq<FileInfo>) {
    forall i, j :: 0 <= i < j < |files| ==> files[i].hash != files[j].hash
  }

  lemma {:induction false} LackingOfDistinct(files: seq<FileInfo>, store: Store, i: nat, n: nat)
    requires Distinct(files) && i < |files| && n <= |files|
    ensures Lacking(files, store, files[i].hash, n) == if i < n && Lacks(store, files[i]) then 1 else 0
  {
    if n > 0 {
      LackingOfDistinct(files, store, i, n - 1);
    }
  }

  lemma {:induction false} LackingUnlisted(files: seq<FileInfo>, store: Store, h: Hash, n: nat)
    requires n <= |files| && Lacking(files, store, h, n) > 0
    ensures exists i :: 0 <= i < n && files[i].hash == h && Lacks(store, files[i])
  {
    if !(files[n - 1].hash == h && Lacks(store, files[n - 1])) {
      LackingUnlisted(files, store, h, n - 1);
    }
  }

  /** Whatever the order of the goroutines, the check ends with each storage listed for a hash as often
      as a listed file of that hash is lacking from it; a storage whose walk failed is never listed. */
  lemma {:induction false} CheckCountsLacking(c: Config, schedule: seq<nat>, s: nat, h: Hash)
    requires ValidConfig(c) && forall k :: 0 <= k < |schedule| ==> schedule[k] < |c.stores|
    requires Finished(After(c, schedule)) && s < |c.stores|
    ensures multiset(Targets(After(c, schedule).missing, h))[s]
         == if c.walks[s] then Lacking(c.files, c.stores[s], h, |c.files|) else 0
  {
    assert Booked(c, After(c, schedule), s, h);
    assert PlaceOk(c, After(c, schedule).missing, After(c, schedule).at[s], s);
  }

  /** For a list with distinct hashes the targets of each file are exactly the storages that do not hold it or
      hold it at another size, each once; an empty file has none, and no other hash is reported. */
  lemma {:induction false} CheckIsExact(c: Config, schedule: seq<nat>)
    requires ValidConfig(c) && forall k :: 0 <= k < |schedule| ==> schedule[k] < |c.stores|
    requires Finished(After(c, schedule)) && Distinct(c.files)
    ensures var missing := After(c, schedule).missing;
      && (forall i: nat, s: nat :: i < |c.files| && s < |c.stores| ==>
           var f, store := c.files[i], c.stores[s];
           var lacking := f.size != 0 && (f.hash in store ==> store[f.hash] != f.size);
           multiset(Targets(missing, f.hash))[s] == if c.walks[s] && lacking then 1 else 0)
      && (forall h :: h in missing ==> exists i :: 0 <= i < |c.files| && c.files[i].hash == h)
  {
    var missing := After(c, schedule).missing;
    forall i: nat, s: nat | i < |c.files| && s < |c.stores|
      ensures multiset(Targets(missing, c.files[i].hash))[s] == if c.walks[s] && Lacks(c.stores[s], c.files[i]) then 1 else 0
    {
      CheckCountsLacking(c, schedule, s, c.files[i].hash);
      LackingOfDistinct(c.files, c.stores[s], i, |c.files|);
    }
    forall h | h in missing
      ensures exists i :: 0 <= i < |c.files| && c.files[i].hash == h
    {
      var s := missing[h][0];
      assert s in missing[h] && multiset(missing[h])[s] > 0;
      CheckCountsLacking(c, schedule, s, h);
      LackingUnlisted(c.files, c.stores[s], h, |c.files|);
    }
  }
}
