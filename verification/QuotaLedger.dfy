/** Over whole runs the quota counters are the unreleased grants since the last clean. */
module QuotaLedger {
  import opened Quota

  /** A granted request: when it was granted, in cleans and hour cleans so far. */
  datatype Grant = Grant(id: string, cleans: nat, hourCleans: nat, cleanId: int)

  datatype Op = Try(id: string) | Release(k: nat) | Clean(hour: bool)

  /** Grants are numbered in order; `live` are those not released yet. */
  datatype World = World(set': Set, cleans: nat, hourCleans: nat, grants: seq<Grant>, live: set<nat>)

  function Start(perMin: int, perHour: int): World {
    World(Set(perMin, perHour, 1, map[], map[]), 0, 0, [], {})
  }

  // The request handler treats exactly an epoch of zero as a rejection, and only what it
  // has not rejected can be released later.
  predicate Accepted(r: Result) {
    r.Returned? && r.cleanId != 0
  }

  predicate CanRelease(w: World, k: nat) {
    k < |w.grants| && k in w.live
  }

  function Step(w: World, op: Op): World {
    match op
    case Try(id) =>
      var (s, r) := Tried(w.set', id);
      if Granted(w.set', id) then
        w.(set' := s, grants := w.grants + [Grant(id, w.cleans, w.hourCleans, w.set'.cleanCount)],
           live := w.live + {|w.grants|})
      else w.(set' := s)
    case Release(k) =>
      if !CanRelease(w, k) || w.grants[k].cleanId == 0 then w
      else w.(set' := Released(w.set', w.grants[k].id, w.grants[k].cleanId), live := w.live - {k})
    case Clean(hour) =>
      w.(set' := Cleaned(w.set', hour), cleans := w.cleans + 1,
         hourCleans := if hour then w.hourCleans + 1 else w.hourCleans)
  }

  // ---- The specification ----

  /** Room under both limits. */
  predicate Granted(s: Set, id: string) {
    && (ChecksHour(s) || ChecksMin(s))
    && (ChecksHour(s) ==> Count(s.accessHour, id) < s.perHour)
    && (ChecksMin(s) ==> Count(s.accessMin, id) < s.perMin)
  }

  ghost function LiveMin(w: World, id: string): set<nat> {
    set k | k in w.live && k < |w.grants| && w.grants[k].id == id && w.grants[k].cleans == w.cleans
  }

  ghost function LiveHour(w: World, id: string): set<nat> {
    set k | k in w.live && k < |w.grants| && w.grants[k].id == id && w.grants[k].hourCleans == w.hourCleans
  }

  ghost predicate CountsExact(w: World, id: string) {
    MinExact(w, id) && HourExact(w, id)
  }

  ghost predicate MinExact(w: World, id: string) {
    ChecksMin(w.set') ==> Count(w.set'.accessMin, id) == |LiveMin(w, id)| <= w.set'.perMin
  }

  ghost predicate HourExact(w: World, id: string) {
    ChecksHour(w.set') ==> Count(w.set'.accessHour, id) == |LiveHour(w, id)| <= w.set'.perHour
  }

  ghost predicate Inv(w: World) {
    && w.set'.cleanCount == Pack(w.cleans, w.hourCleans)
    && (forall k :: k in w.live ==> k < |w.grants|)
    && (forall k :: 0 <= k < |w.grants| ==>
          && w.grants[k].cleans <= w.cleans && w.grants[k].hourCleans <= w.hourCleans
          && w.grants[k].cleanId == Pack(w.grants[k].cleans, w.grants[k].hourCleans))
    && (forall id :: CountsExact(w, id))
  }

  /** The packed epoch after so many cleans and hour cleans; it starts at one. */
  function Pack(cleans: nat, hourCleans: nat): nat {
    hourCleans % HOUR_EPOCHS * 0x1_0000 + (1 + cleans) % MIN_EPOCHS
  }

  lemma {:induction false} PackParts(cleans: nat, hourCleans: nat)
    ensures MinPart(Pack(cleans, hourCleans)) == (1 + cleans) % MIN_EPOCHS
    ensures HourPart(Pack(cleans, hourCleans)) == hourCleans % HOUR_EPOCHS * 0x1_0000
  {
  }

  lemma {:induction false} CleanPacks(s: Set, cleans: nat, hourCleans: nat, hour: bool)
    requires s.cleanCount == Pack(cleans, hourCleans)
    ensures Cleaned(s, hour).cleanCount == Pack(cleans + 1, if hour then hourCleans + 1 else hourCleans)
  {
    PackParts(cleans, hourCleans);
    NextMin(cleans, hourCleans);
    var count := HourPart(s.cleanCount) + MinPart(s.cleanCount + 1);
    assert count == Pack(cleans + 1, hourCleans);
    if hour {
      PackParts(cleans + 1, hourCleans);
      NextHour(cleans + 1, hourCleans);
    }
  }

  lemma {:induction false} NextMin(cleans: nat, hourCleans: nat)
    ensures MinPart(Pack(cleans, hourCleans) + 1) == (2 + cleans) % MIN_EPOCHS
  {
  }

  lemma {:induction false} NextHour(cleans: nat, hourCleans: nat)
    ensures HourPart(Pack(cleans, hourCleans) + 0x1_0000) == (hourCleans + 1) % HOUR_EPOCHS * 0x1_0000
  {
    var h, m := hourCleans % HOUR_EPOCHS, (1 + cleans) % MIN_EPOCHS;
    assert (Pack(cleans, hourCleans) + 0x1_0000) / 0x1_0000 == h + 1;
  }

  /** Two epochs agree under a mask exactly when their distance is a multiple of its range. */
  lemma {:induction false} SamePart(cleans: nat, later: nat, hourCleans: nat, hourLater: nat)
    ensures MinPart(Pack(cleans, hourCleans)) == MinPart(Pack(later, hourLater))
      <==> (later - cleans) % MIN_EPOCHS == 0
    ensures HourPart(Pack(cleans, hourCleans)) == HourPart(Pack(later, hourLater))
      <==> (hourLater - hourCleans) % HOUR_EPOCHS == 0
  {
    PackParts(cleans, hourCleans);
    PackParts(later, hourLater);
  }

  // ---- Every operation keeps the books ----

  /** What the code returns is what the specification grants, and an undone try changes no count. */
  lemma {:induction false} TryMeetsSpec(s: Set, id: string)
    ensures var (s', r) := Tried(s, id);
      && (Granted(s, id) ==>
            && r == Returned(if ChecksHour(s) then s.perHour - Count(s.accessHour, id) - 1 else -1,
                             if ChecksMin(s) then s.perMin - Count(s.accessMin, id) - 1 else -1, s.cleanCount)
            && Count(s'.accessHour, id) == Count(s.accessHour, id) + (if ChecksHour(s) then 1 else 0)
            && (ChecksMin(s) ==> Count(s'.accessMin, id) == Count(s.accessMin, id) + 1))
      && (ChecksHour(s) && !Granted(s, id) ==>
            && r.Returned? && r.cleanId == 0
            && Count(s'.accessHour, id) == Count(s.accessHour, id)
            && Count(s'.accessMin, id) == Count(s.accessMin, id))
      && (forall other :: other != id ==>
            && Count(s'.accessHour, other) == Count(s.accessHour, other)
            && Count(s'.accessMin, other) == Count(s.accessMin, other))
      && s'.(accessMin := map[], accessHour := map[]) == s.(accessMin := map[], accessHour := map[])
  {
  }

  /** A try creates the counters it looks up: the hour's, and the minute's together with it or once the hour's
      limit has let it pass. */
  lemma {:induction false} TryCreates(s: Set, id: string)
    ensures var s' := Tried(s, id).0;
      && s'.accessHour.Keys == s.accessHour.Keys + (if s.perHour > 0 then {id} else {})
      && (s'.accessMin.Keys == s.accessMin.Keys + (
           if s.perMin > 0 && (s.perHour > 0 ==> id !in s.accessHour || Count(s.accessHour, id) < s.perHour)
           then {id} else {}))
  {
  }

  /** Without limits every request is let through, nothing is counted and nothing will be given back. */
  lemma {:induction false} NoLimitNoReject(s: Set, id: string)
    requires s.perHour <= 0 && s.perMin <= 0
    ensures var (s', r) := Tried(s, id);
      s' == s && r == Returned(-1, -1, -1) && Accepted(r) && Released(s, id, r.cleanId) == s
  {
  }

  /** What a request that is turned away is told: no hour left if it was the hour's limit, and otherwise what
      the hour had left for it; and no minute left. So it is sent to the next hour exactly if the hour has at
      most this one request left. */
  lemma {:induction false} RejectedAnswer(s: Set, id: string)
    requires s.perHour > 0 && !Granted(s, id)
    ensures var r, count := Tried(s, id).1, Count(s.accessHour, id);
      && r.Returned? && !Accepted(r)
      && r.leftHour == (if count >= s.perHour then 0 else s.perHour - count - 1)
      && r.leftMin == (if s.perMin > 0 then 0 else -1)
      && (r.leftHour == 0 <==> count + 1 >= s.perHour)
      && forall t: Set :: Released(t, id, r.cleanId) == t
  {
  }

  /** The nil counter is reached exactly by exhausting a minute limit that stands alone. */
  lemma {:induction false} PanicExactly(s: Set, id: string)
    ensures Tried(s, id).1.Panicked?
      <==> !ChecksHour(s) && ChecksMin(s) && Count(s.accessMin, id) >= s.perMin
    ensures Tried(s, id).1.Panicked? ==> Count(Tried(s, id).0.accessMin, id) == Count(s.accessMin, id) + 1
  {
  }

  lemma {:induction false} TrySets(w: World, id: string, other: string)
    requires Inv(w)
    ensures var w', one := Step(w, Try(id)), if Granted(w.set', id) && other == id then {|w.grants|} else {};
      && LiveMin(w', other) == LiveMin(w, other) + one
      && LiveHour(w', other) == LiveHour(w, other) + one
      && one !! LiveMin(w, other) && one !! LiveHour(w, other)
  {
  }

  lemma {:induction false} TryCounts(w: World, id: string, other: string)
    requires Inv(w) && (ChecksHour(w.set') || !ChecksMin(w.set'))
    ensures CountsExact(Step(w, Try(id)), other)
  {
    TryMeetsSpec(w.set', id);
    TrySets(w, id, other);
    assert CountsExact(w, other);
  }

  lemma {:induction false} TryKeepsBooks(w: World, id: string)
    requires Inv(w) && (ChecksHour(w.set') || !ChecksMin(w.set'))
    ensures Inv(Step(w, Try(id)))
  {
    TryMeetsSpec(w.set', id);
    forall other ensures CountsExact(Step(w, Try(id)), other) {
      TryCounts(w, id, other);
    }
  }

  lemma {:induction false} CleanKeepsBooks(w: World, hour: bool)
    requires Inv(w)
    ensures Inv(Step(w, Clean(hour)))
  {
    CleanPacks(w.set', w.cleans, w.hourCleans, hour);
    var w' := Step(w, Clean(hour));
    forall id ensures CountsExact(w', id) {
      assert CountsExact(w, id);
      assert LiveMin(w', id) == {};
      if hour {
        assert LiveHour(w', id) == {};
      } else {
        assert LiveHour(w', id) == LiveHour(w, id);
      }
    }
  }

  /** Grant k and the current time are the same epoch, or tell apart under the masks. */
  predicate NotWrapped(w: World, k: nat)
    requires k < |w.grants|
  {
    var g := w.grants[k];
    && (ChecksMin(w.set') && g.id in w.set'.accessMin && (w.cleans - g.cleans) % MIN_EPOCHS == 0 ==> w.cleans == g.cleans)
    && (ChecksHour(w.set') && g.id in w.set'.accessHour && (w.hourCleans - g.hourCleans) % HOUR_EPOCHS == 0
        ==> w.hourCleans == g.hourCleans)
  }

  lemma {:induction false} FreshIsNotWrapped(w: World, k: nat)
    requires Inv(w) && k < |w.grants|
    requires w.cleans - w.grants[k].cleans < MIN_EPOCHS && w.hourCleans - w.grants[k].hourCleans < HOUR_EPOCHS
    ensures NotWrapped(w, k)
  {
  }

  lemma {:induction false} ReleasedCounts(s: Set, id: string, cleanId: nat, other: string, sameMin: bool, sameHour: bool)
    requires cleanId > 0
    requires sameMin <==> MinPart(cleanId) == MinPart(s.cleanCount)
    requires sameHour <==> HourPart(cleanId) == HourPart(s.cleanCount)
    ensures var s' := Released(s, id, cleanId);
      && s'.(accessMin := s.accessMin, accessHour := s.accessHour) == s
      && Count(s'.accessMin, other) == Count(s.accessMin, other) - (
           if other == id && ChecksMin(s) && sameMin && id in s.accessMin then 1 else 0)
      && Count(s'.accessHour, other) == Count(s.accessHour, other) - (
           if other == id && ChecksHour(s) && sameHour && id in s.accessHour then 1 else 0)
  {
  }

  lemma {:induction false} ReleaseChange(w: World, k: nat, id: string)
    requires Inv(w) && CanRelease(w, k) && w.grants[k].cleanId != 0 && NotWrapped(w, k)
    ensures var g, s, s' := w.grants[k], w.set', Step(w, Release(k)).set';
      && s'.(accessMin := s.accessMin, accessHour := s.accessHour) == s
      && Count(s'.accessMin, id) == Count(s.accessMin, id) - (
           if id == g.id && ChecksMin(s) && g.cleans == w.cleans && id in s.accessMin then 1 else 0)
      && Count(s'.accessHour, id) == Count(s.accessHour, id) - (
           if id == g.id && ChecksHour(s) && g.hourCleans == w.hourCleans && id in s.accessHour then 1 else 0)
  {
    var g := w.grants[k];
    SamePart(g.cleans, w.cleans, g.hourCleans, w.hourCleans);
    ReleasedCounts(w.set', g.id, g.cleanId, id,
                   (w.cleans - g.cleans) % MIN_EPOCHS == 0, (w.hourCleans - g.hourCleans) % HOUR_EPOCHS == 0);
  }

  lemma {:induction false} ReleaseMin(w: World, k: nat, id: string)
    requires Inv(w) && CanRelease(w, k) && w.grants[k].cleanId != 0 && NotWrapped(w, k)
    ensures MinExact(Step(w, Release(k)), id)
  {
    var g := w.grants[k];
    ReleaseChange(w, k, id);
    ReleaseSets(w, k, id);
    assert CountsExact(w, id);
    if g.id == id && g.cleans == w.cleans {
      assert k in LiveMin(w, id);
    }
  }

  lemma {:induction false} ReleaseHour(w: World, k: nat, id: string)
    requires Inv(w) && CanRelease(w, k) && w.grants[k].cleanId != 0 && NotWrapped(w, k)
    ensures HourExact(Step(w, Release(k)), id)
  {
    var g := w.grants[k];
    ReleaseChange(w, k, id);
    ReleaseSets(w, k, id);
    assert CountsExact(w, id);
    if g.id == id && g.hourCleans == w.hourCleans {
      assert k in LiveHour(w, id);
    }
  }

  /** A release takes back the minute and the hour unit of its own epoch, and is a no-op
      for a unit whose counter has been cleaned since. */
  lemma {:induction false} ReleaseKeepsBooks(w: World, k: nat)
    requires Inv(w) && CanRelease(w, k) && w.grants[k].cleanId != 0 && NotWrapped(w, k)
    ensures Inv(Step(w, Release(k)))
    ensures w.grants[k].cleans != w.cleans ==> Step(w, Release(k)).set'.accessMin == w.set'.accessMin
    ensures w.grants[k].hourCleans != w.hourCleans ==> Step(w, Release(k)).set'.accessHour == w.set'.accessHour
  {
    var g := w.grants[k];
    SamePart(g.cleans, w.cleans, g.hourCleans, w.hourCleans);
    forall id ensures CountsExact(Step(w, Release(k)), id) {
      ReleaseMin(w, k, id);
      ReleaseHour(w, k, id);
    }
  }

  lemma {:induction false} ReleaseSets(w: World, k: nat, id: string)
    requires CanRelease(w, k) && w.grants[k].cleanId != 0
    ensures var w', g := Step(w, Release(k)), w.grants[k];
      && LiveMin(w', id) == LiveMin(w, id) - (if g.id == id && g.cleans == w.cleans then {k} else {})
      && LiveHour(w', id) == LiveHour(w, id) - (if g.id == id && g.hourCleans == w.hourCleans then {k} else {})
  {
  }

  /** Otherwise the release takes a unit of the new epoch that some other request holds. */
  lemma {:induction false} WrappedReleaseBreaksBooks(w: World, k: nat)
    requires Inv(w) && CanRelease(w, k) && w.grants[k].cleanId != 0 && !NotWrapped(w, k)
    ensures !Inv(Step(w, Release(k)))
  {
    var g, w' := w.grants[k], Step(w, Release(k));
    SamePart(g.cleans, w.cleans, g.hourCleans, w.hourCleans);
    ReleasedCounts(w.set', g.id, g.cleanId, g.id,
                   (w.cleans - g.cleans) % MIN_EPOCHS == 0, (w.hourCleans - g.hourCleans) % HOUR_EPOCHS == 0);
    ReleaseSets(w, k, g.id);
    assert CountsExact(w, g.id);
    assert !MinExact(w', g.id) || !HourExact(w', g.id);
    assert !CountsExact(w', g.id);
  }

  // ---- Whole runs ----

  function Run(ops: seq<Op>, n: nat, perMin: int, perHour: int): World
    requires n <= |ops|
  {
    if n == 0 then Start(perMin, perHour) else Step(Run(ops, n - 1, perMin, perHour), ops[n - 1])
  }

  /** No release comes 2^16 cleans, or 256 hour cleans, after its grant. */
  ghost predicate TimelyReleases(ops: seq<Op>, perMin: int, perHour: int) {
    forall n, k :: 0 <= n < |ops| && ops[n] == Release(k) ==> Timely(Run(ops, n, perMin, perHour), k)
  }

  predicate Timely(w: World, k: nat) {
    CanRelease(w, k) ==>
      && w.cleans - w.grants[k].cleans < MIN_EPOCHS
      && w.hourCleans - w.grants[k].hourCleans < HOUR_EPOCHS
  }

  lemma {:induction false} RunLimits(ops: seq<Op>, n: nat, perMin: int, perHour: int)
    requires n <= |ops|
    ensures Run(ops, n, perMin, perHour).set'.perMin == perMin
    ensures Run(ops, n, perMin, perHour).set'.perHour == perHour
  {
    if n > 0 {
      RunLimits(ops, n - 1, perMin, perHour);
    }
  }

  /** Main result: with the hour limit on, every counter is at every moment the number of
      unreleased grants of its id in its epoch, and within the limit. */
  lemma {:induction false} CountersAreUnreleasedGrants(ops: seq<Op>, n: nat, perMin: int, perHour: int)
    requires n <= |ops| && perHour > 0 && TimelyReleases(ops, perMin, perHour)
    ensures Inv(Run(ops, n, perMin, perHour))
  {
    if n > 0 {
      var w := Run(ops, n - 1, perMin, perHour);
      CountersAreUnreleasedGrants(ops, n - 1, perMin, perHour);
      RunLimits(ops, n - 1, perMin, perHour);
      match ops[n - 1]
      case Try(id) => TryKeepsBooks(w, id);
      case Clean(hour) => CleanKeepsBooks(w, hour);
      case Release(k) =>
        assert Timely(w, k);
        if CanRelease(w, k) && w.grants[k].cleanId != 0 {
          FreshIsNotWrapped(w, k);
          ReleaseKeepsBooks(w, k);
        }
    } else {
      var w := Start(perMin, perHour);
      forall id ensures CountsExact(w, id) {
        assert LiveMin(w, id) == {} && LiveHour(w, id) == {};
      }
    }
  }

  /** A request within both limits is still turned away exactly when the packed epoch has
      wrapped to zero; its unit then stays taken until the next clean. */
  lemma {:induction false} EpochZeroRejects(w: World, id: string)
    requires Inv(w) && Granted(w.set', id) && (ChecksHour(w.set') || !ChecksMin(w.set'))
    ensures Accepted(Tried(w.set', id).1)
      <==> !((1 + w.cleans) % MIN_EPOCHS == 0 && w.hourCleans % HOUR_EPOCHS == 0)
    ensures var w', k := Step(w, Try(id)), |w.grants|;
      !Accepted(Tried(w.set', id).1) ==> k in w'.live && Step(w', Release(k)) == w'
  {
    TryMeetsSpec(w.set', id);
    PackParts(w.cleans, w.hourCleans);
  }

  /** The ticker makes every 61st clean an hour clean; on that schedule the packed epoch
      is never zero, so no request within the limits is turned away. */
  lemma {:induction false} ScheduleAvoidsEpochZero(cleans: nat)
    ensures Pack(cleans, cleans / 61) != 0
  {
    var hours, r := cleans / 61, cleans % 61;
    if hours % HOUR_EPOCHS == 0 {
      var m := hours / HOUR_EPOCHS;
      assert 1 + cleans == 256 * (61 * m) + (1 + r) && 0 < 1 + r < 256;
      RemainderOf(61 * m, 1 + r);
      RemainderDivides(1 + cleans);
    }
  }

  lemma {:induction false} RemainderOf(q: nat, r: nat)
    requires r < 256
    ensures (256 * q + r) % 256 == r
  {
  }

  lemma {:induction false} RemainderDivides(n: nat)
    ensures n % MIN_EPOCHS == 0 ==> n % 256 == 0
  {
    assert n == 256 * (256 * (n / MIN_EPOCHS)) + n % MIN_EPOCHS;
  }
}
