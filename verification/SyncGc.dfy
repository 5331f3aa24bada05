/** What the light check, a sync and the garbage collection do to the file set and the storages. */
module SyncGc {
  import opened Common
  import opened Presence
  import B = BufSlots

  // ---- The file set ----

  function Restrict(m: map<Hash, int>, keys: set<Hash>): map<Hash, int> {
    map h | h in m && h in keys :: m[h]
  }

  predicate OnSome(missing: Missing, h: Hash, stores: nat) {
    h !in missing || |missing[h]| < stores
  }

  /** The list entries that are not missing from every storage; a later entry wins. */
  function Existing(files: seq<FileInfo>, missing: Missing, stores: nat): map<Hash, int> {
    if files == [] then map[] else
    var f, rest := files[|files| - 1], Existing(files[..|files| - 1], missing, stores);
    if OnSome(missing, f.hash, stores) then rest[f.hash := f.size] else rest
  }

  function Committed(fileset: map<Hash, int>, files: seq<FileInfo>): map<Hash, int> {
    if files == [] then fileset else
    var f := files[|files| - 1];
    Committed(fileset, files[..|files| - 1])[f.hash := f.size]
  }

  class Cluster {
    var fileset: map<Hash, int>
    var issync: bool
    var stores: seq<Store>

    constructor (stores: seq<Store>)
      ensures fileset == map[] && !issync && this.stores == stores
    {
      fileset, issync := map[], false;
      this.stores := stores;
    }

    /** `checked` is the outcome of the light check, nothing if it failed or was interrupted. */
    method SetFilesetByExists(files: seq<FileInfo>, checked: Option<Missing>) returns (ok: bool)
      modifies this`fileset
      ensures ok == checked.Some?
      ensures fileset == FilesetAfter(old(fileset), files, checked, |stores|)
    {
      if checked.None? {
        return false;
      }
      var found: map<Hash, int> := map[];
      for k := 0 to |files|
        invariant found == Existing(files[..k], checked.value, |stores|)
      {
        assert files[..k + 1][..k] == files[..k];
        if OnSome(checked.value, files[k].hash, |stores|) {
          found := found[files[k].hash := files[k].size];
        }
      }
      assert files[..|files|] == files;
      fileset := found;
      ok := true;
    }

    /** A sync that finds another one running does nothing; one that fails commits nothing. The new
        contents of the storages are the outcome of the pipeline. */
    method SyncFiles(files: seq<FileInfo>, outcome: Option<seq<Store>>, stopped: seq<Store>) returns (ok: bool)
      modifies this
      ensures ok == (!old(issync) && outcome.Some?)
      ensures issync == old(issync)
      ensures fileset == if ok then Committed(old(fileset), files) else old(fileset)
      ensures stores == if old(issync) then old(stores) else if ok then outcome.value else stopped
    {
      if issync {
        return false;
      }
      issync := true;
      if outcome.None? {
        stores := stopped;
        issync := false;
        return false;
      }
      stores := outcome.value;
      for k := 0 to |files|
        modifies this`fileset
        invariant fileset == Committed(old(fileset), files[..k])
      {
        assert files[..k + 1][..k] == files[..k];
        fileset := fileset[files[k].hash := files[k].size];
      }
      assert files[..|files|] == files;
      issync := false;
      ok := true;
    }

    /** Walks storage s in some order and removes what the file set does not name, until the flag of a sync
        is found set; `flags[k]` is what the k-th test of the flag reads. */
    method GcFor(s: nat, listing: seq<Hash>, flags: seq<bool>)
      requires s < |stores| && |flags| == |listing|
      modifies this`stores
      ensures stores == old(stores)[s := Collected(old(stores[s]), listing[..ClearTests(flags)], fileset)]
    {
      assert Collected(stores[s], listing[..0], fileset) == stores[s];
      for k := 0 to |listing|
        invariant |stores| == |old(stores)| && k <= ClearTests(flags)
        invariant stores == old(stores)[s := Collected(old(stores[s]), listing[..k], fileset)]
      {
        if flags[k] {
          return;
        }
        CollectNext(old(stores[s]), listing, k, fileset);
        if listing[k] !in fileset {
          stores := stores[s := stores[s] - {listing[k]}];
        }
      }
    }

    method Gc(listings: seq<seq<Hash>>, flags: seq<seq<bool>>)
      requires |listings| == |flags| == |stores|
      requires forall s :: 0 <= s < |stores| ==> |flags[s]| == |listings[s]|
      modifies this`stores
      ensures |stores| == |old(stores)|
      ensures forall s :: 0 <= s < |stores| ==>
        stores[s] == Collected(old(stores[s]), listings[s][..ClearTests(flags[s])], fileset)
    {
      for s := 0 to |stores|
        invariant |stores| == |old(stores)|
        invariant forall t :: 0 <= t < s ==>
          stores[t] == Collected(old(stores[t]), listings[t][..ClearTests(flags[t])], fileset)
        invariant forall t :: s <= t < |stores| ==> stores[t] == old(stores[t])
      {
        GcFor(s, listings[s], flags[s]);
      }
    }
  }

  /** How many tests read a clear flag before the first that does not. */
  function ClearTests(flags: seq<bool>): (n: nat)
    ensures n <= |flags| && (n < |flags| ==> flags[n]) && forall k :: 0 <= k < n ==> !flags[k]
  {
    if flags == [] || flags[0] then 0 else ClearTests(flags[1..]) + 1
  }

  /** The storage without those of the visited files that the file set does not name. */
  function Collected(store: Store, visited: seq<Hash>, fileset: map<Hash, int>): Store {
    map h | h in store && (h in fileset || h !in visited) :: store[h]
  }

  lemma {:induction false} CollectNext(store: Store, listing: seq<Hash>, k: nat, fileset: map<Hash, int>)
    requires k < |listing|
    ensures Collected(store, listing[..k + 1], fileset)
         == var before := Collected(store, listing[..k], fileset);
            if listing[k] in fileset then before else before - {listing[k]}
  {
    assert listing[..k + 1] == listing[..k] + [listing[k]];
  }

  /** A walk that visits every file and meets no sync leaves exactly what the file set names; whatever a
      shorter one visits, it takes nothing that is named. */
  lemma {:induction false} CollectionKeepsNamed(store: Store, listing: seq<Hash>, flags: seq<bool>, fileset: map<Hash, int>)
    requires |flags| == |listing|
    ensures var left := Collected(store, listing[..ClearTests(flags)], fileset);
      && (forall h :: h in store && h in fileset ==> h in left && left[h] == store[h])
      && ((forall h :: h in store ==> h in listing) && true !in flags ==> left == Restrict(store, fileset.Keys))
  {
    if true !in flags {
      assert ClearTests(flags) == |flags| && listing[..|listing|] == listing;
    }
  }

  // ---- The file set holds what exists ----

  /** Some walk has succeeded; otherwise the check fails as a whole. */
  predicate Walked(c: Config) { exists s :: 0 <= s < |c.walks| && c.walks[s] }

  ghost function Checked(c: Config, schedule: seq<nat>): Option<Missing>
    requires ValidConfig(c) && forall k :: 0 <= k < |schedule| ==> schedule[k] < |c.stores|
  {
    if Walked(c) then Some(After(c, schedule).missing) else None
  }

  /** The file set that a check leaves. */
  function FilesetAfter(fileset: map<Hash, int>, files: seq<FileInfo>, checked: Option<Missing>, stores: nat): map<Hash, int> {
    if checked.Some? then Existing(files, checked.value, stores) else fileset
  }

  lemma {:induction false} ExistingOfDistinct(files: seq<FileInfo>, missing: Missing, stores: nat, i: nat)
    requires Distinct(files) && i < |files|
    ensures files[i].hash in Existing(files, missing, stores) <==> OnSome(missing, files[i].hash, stores)
    ensures OnSome(missing, files[i].hash, stores) ==> Existing(files, missing, stores)[files[i].hash] == files[i].size
  {
    var n := |files| - 1;
    if i < n {
      ExistingOfDistinct(files[..n], missing, stores, i);
    } else {
      ExistingListed(files[..n], missing, stores, files[n].hash);
    }
  }

  lemma {:induction false} ExistingListed(files: seq<FileInfo>, missing: Missing, stores: nat, h: Hash)
    requires forall i :: 0 <= i < |files| ==> files[i].hash != h
    ensures h !in Existing(files, missing, stores)
  {
    if files != [] {
      ExistingListed(files[..|files| - 1], missing, stores, h);
    }
  }

  lemma {:induction false} OncePerStore(targets: seq<nat>, s: nat, j: nat, k: nat)
    requires j < k < |targets| && targets[j] == targets[k] == s
    ensures multiset(targets)[s] >= 2
  {
    assert targets == targets[..k] + targets[k..];
    assert targets[..k][j] == s && targets[k..][0] == s;
  }

  // Targets without repetition fill all places exactly when they are all the storages.
  lemma {:induction false} FullTargets(targets: seq<nat>, n: nat)
    requires forall t :: t in targets ==> t < n && multiset(targets)[t] == 1
    ensures |targets| < n <==> exists s: nat :: s < n && s !in targets
  {
    var slots: seq<int> := targets;
    forall j, k | 0 <= j < k < |slots|
      ensures slots[j] != slots[k]
    {
      assert targets[j] in targets;
      if slots[j] == slots[k] {
        OncePerStore(targets, targets[j], j, k);
      }
    }
    if s: nat :| s < n && s !in targets {
      B.NoDuplicatesBound(slots, n, s);
    } else {
      B.CountDistinct(slots);
      SubsetSize(Below(n), set x | x in slots);
    }
  }

  /** For a list with distinct hashes, the file set names exactly the files that some storage holds at
      the listed size, counting every storage whose walk failed as holding all; if every walk failed it stays
      as it was. */
  lemma {:induction false} FilesetIsWhatExists(c: Config, schedule: seq<nat>, fileset: map<Hash, int>, i: nat)
    requires ValidConfig(c) && forall k :: 0 <= k < |schedule| ==> schedule[k] < |c.stores|
    requires Presence.Finished(After(c, schedule)) && Distinct(c.files) && i < |c.files|
    ensures var found := FilesetAfter(fileset, c.files, Checked(c, schedule), |c.stores|); var f := c.files[i];
      if Walked(c) then
        && (f.hash in found <==> exists s :: 0 <= s < |c.stores| && (!c.walks[s] || !Lacks(c.stores[s], f)))
        && (f.hash in found ==> found[f.hash] == f.size)
      else found == fileset
  {
    var missing, n, f := After(c, schedule).missing, |c.stores|, c.files[i];
    CheckIsExact(c, schedule);
    ExistingOfDistinct(c.files, missing, n, i);
    var targets: seq<nat> := Targets(missing, f.hash);
    forall s: nat | s < n
      ensures s in targets <==> c.walks[s] && Lacks(c.stores[s], f)
    {
      assert multiset(Targets(missing, f.hash))[s] == if c.walks[s] && Lacks(c.stores[s], f) then 1 else 0;
    }
    FullTargets(targets, n);
  }

  // ---- and for any list ----

  /** How often a storage that was walked lacks a listed file of the hash, over the first n storages. */
  function LackingSum(c: Config, h: Hash, n: nat): nat
    requires ValidConfig(c) && n <= |c.stores|
  {
    if n == 0 then 0 else
    LackingSum(c, h, n - 1) + if c.walks[n - 1] then Lacking(c.files, c.stores[n - 1], h, |c.files|) else 0
  }

  function SlotSum(targets: seq<nat>, n: nat): nat {
    if n == 0 then 0 else SlotSum(targets, n - 1) + multiset(targets)[n - 1]
  }

  lemma {:induction false} SlotSumNext(targets: seq<nat>, t: nat, n: nat)
    ensures SlotSum(targets + [t], n) == SlotSum(targets, n) + if t < n then 1 else 0
  {
    if n > 0 {
      SlotSumNext(targets, t, n - 1);
    }
  }

  lemma {:induction false} SlotSumOfNone(n: nat)
    ensures SlotSum([], n) == 0
  {
    if n > 0 {
      SlotSumOfNone(n - 1);
    }
  }

  lemma {:induction false} TargetsBySlot(targets: seq<nat>, n: nat)
    requires forall t :: t in targets ==> t < n
    ensures |targets| == SlotSum(targets, n)
  {
    if targets == [] {
      SlotSumOfNone(n);
    } else {
      var k := |targets| - 1;
      assert forall t :: t in targets[..k] ==> t in targets;
      TargetsBySlot(targets[..k], n);
      SlotSumNext(targets[..k], targets[k], n);
      assert targets == targets[..k] + [targets[k]] && targets[k] in targets;
    }
  }

  lemma {:induction false} TargetsAreLacking(c: Config, schedule: seq<nat>, h: Hash, n: nat)
    requires ValidConfig(c) && forall k :: 0 <= k < |schedule| ==> schedule[k] < |c.stores|
    requires Presence.Finished(After(c, schedule)) && n <= |c.stores|
    ensures SlotSum(Targets(After(c, schedule).missing, h), n) == LackingSum(c, h, n)
  {
    if n > 0 {
      TargetsAreLacking(c, schedule, h, n - 1);
      CheckCountsLacking(c, schedule, n - 1, h);
    }
  }

  predicate Listed(files: seq<FileInfo>, h: Hash) { exists i :: 0 <= i < |files| && files[i].hash == h }

  lemma {:induction false} ExistingExactly(files: seq<FileInfo>, missing: Missing, stores: nat, h: Hash)
    ensures h in Existing(files, missing, stores) <==> Listed(files, h) && OnSome(missing, h, stores)
  {
    if files != [] {
      var n := |files| - 1;
      ExistingExactly(files[..n], missing, stores, h);
      if Listed(files, h) && files[n].hash != h {
        var i :| 0 <= i < |files| && files[i].hash == h;
        assert files[..n][i].hash == h;
      }
    }
  }

  /** For every list, a hash is in the file set exactly if it is listed and lacking less often, counted over
      all storages and all its entries, than there are storages, unless every walk failed. */
  lemma {:induction false} FilesetExactly(c: Config, schedule: seq<nat>, fileset: map<Hash, int>, h: Hash)
    requires ValidConfig(c) && forall k :: 0 <= k < |schedule| ==> schedule[k] < |c.stores|
    requires Presence.Finished(After(c, schedule))
    ensures var found := FilesetAfter(fileset, c.files, Checked(c, schedule), |c.stores|);
      if Walked(c) then h in found <==> Listed(c.files, h) && LackingSum(c, h, |c.stores|) < |c.stores|
      else found == fileset
  {
    var missing, n := After(c, schedule).missing, |c.stores|;
    ExistingExactly(c.files, missing, n, h);
    TargetsBySlot(Targets(missing, h), n);
    TargetsAreLacking(c, schedule, h, n);
  }

  // ---- a hash that the list repeats ----

  /** How many entries of the list have this hash. */
  function Times(files: seq<FileInfo>, h: Hash, n: nat): nat
    requires n <= |files|
  {
    if n == 0 then 0 else Times(files, h, n - 1) + if files[n - 1].hash == h then 1 else 0
  }

  /** How many of the first n storages were walked and lack the file. */
  function LackingStores(c: Config, f: FileInfo, n: nat): nat
    requires ValidConfig(c) && n <= |c.stores|
  {
    if n == 0 then 0 else
    LackingStores(c, f, n - 1) + if c.walks[n - 1] && Lacks(c.stores[n - 1], f) then 1 else 0
  }

  lemma {:induction false} LackingOfSame(files: seq<FileInfo>, store: Store, f: FileInfo, n: nat)
    requires n <= |files| && forall i :: 0 <= i < |files| && files[i].hash == f.hash ==> files[i].size == f.size
    ensures Lacking(files, store, f.hash, n) == if Lacks(store, f) then Times(files, f.hash, n) else 0
  {
    if n > 0 {
      LackingOfSame(files, store, f, n - 1);
    }
  }

  lemma {:induction false} OneMoreTime(times: int, k: int)
    ensures times * (k + 1) == times * k + times
  {
  }

  lemma {:induction false} LackingSumOfSame(c: Config, f: FileInfo, n: nat)
    requires ValidConfig(c) && n <= |c.stores|
    requires forall i :: 0 <= i < |c.files| && c.files[i].hash == f.hash ==> c.files[i].size == f.size
    ensures LackingSum(c, f.hash, n) == Times(c.files, f.hash, |c.files|) * LackingStores(c, f, n)
  {
    if n > 0 {
      LackingSumOfSame(c, f, n - 1);
      LackingOfSame(c.files, c.stores[n - 1], f, |c.files|);
      OneMoreTime(Times(c.files, f.hash, |c.files|), LackingStores(c, f, n - 1));
    }
  }

  lemma {:induction false} SomeStoreHolds(c: Config, f: FileInfo, n: nat)
    requires ValidConfig(c) && n <= |c.stores|
    ensures LackingStores(c, f, n) <= n
    ensures LackingStores(c, f, n) < n <==> exists s :: 0 <= s < n && (!c.walks[s] || !Lacks(c.stores[s], f))
  {
    if n > 0 {
      SomeStoreHolds(c, f, n - 1);
    }
  }

  /** A file that some storage holds (or may hold, if its walk failed) is left out of the file set exactly if
      its entries in the list times the storages that lack it are no fewer than the storages. A file listed
      once is never left out so. If every walk failed the file set stays as it was. */
  lemma {:induction false} RepeatedHashHidesExactly(c: Config, schedule: seq<nat>, fileset: map<Hash, int>, f: FileInfo)
    requires ValidConfig(c) && forall k :: 0 <= k < |schedule| ==> schedule[k] < |c.stores|
    requires Presence.Finished(After(c, schedule))
    requires f in c.files
    requires forall i :: 0 <= i < |c.files| && c.files[i].hash == f.hash ==> c.files[i].size == f.size
    requires exists s :: 0 <= s < |c.stores| && (!c.walks[s] || !Lacks(c.stores[s], f))
    ensures var found := FilesetAfter(fileset, c.files, Checked(c, schedule), |c.stores|);
      var times := Times(c.files, f.hash, |c.files|);
      if Walked(c) then
        && (f.hash !in found <==> times * LackingStores(c, f, |c.stores|) >= |c.stores|)
        && (times == 1 ==> f.hash in found)
      else found == fileset
  {
    FilesetExactly(c, schedule, fileset, f.hash);
    LackingSumOfSame(c, f, |c.stores|);
    SomeStoreHolds(c, f, |c.stores|);
    var i :| 0 <= i < |c.files| && c.files[i] == f;
    assert Listed(c.files, f.hash);
  }

  /** The smallest case: two entries, and one of two storages holds the file. */
  lemma {:induction false} RepeatedHashIsHidden(c: Config, schedule: seq<nat>, fileset: map<Hash, int>, f: FileInfo)
    requires f.size != 0
    requires c == Config([f, f], [map[], map[f.hash := f.size]], [true, true])
    requires forall k :: 0 <= k < |schedule| ==> schedule[k] < |c.stores|
    requires Presence.Finished(After(c, schedule))
    ensures !Lacks(c.stores[1], f) && f.hash !in FilesetAfter(fileset, c.files, Checked(c, schedule), |c.stores|)
  {
    assert !Lacks(c.stores[1], f);
    assert Times(c.files, f.hash, 1) == 1 && LackingStores(c, f, 1) == 1;
    assert c.walks[0];
    RepeatedHashHidesExactly(c, schedule, fileset, f);
  }
}
