/** The two-level request quota: counters per minute and per hour, cleaned under a packed
    epoch, with undo on rejection and release of grants that do not count. */
module Quota {

  const MIN_EPOCHS := 0x1_0000
  const HOUR_EPOCHS := 0x100

  // The epoch is packed as one integer; these are its values under the masks 0xffff and 0xff0000.
  function MinPart(epoch: nat): nat { epoch % 0x1_0000 }
  function HourPart(epoch: nat): nat { epoch / 0x1_0000 % 0x100 * 0x1_0000 }

  lemma {:induction false} PartsAreMasks(c: bv32)
    ensures c & 0xffff == c % 0x1_0000
    ensures c & 0xff_0000 == c / 0x1_0000 % 0x100 * 0x1_0000
    ensures (c & 0xff_0000) | ((c + 1) & 0xffff) == (c & 0xff_0000) + ((c + 1) & 0xffff)
  {
  }

  datatype Set = Set(perMin: int, perHour: int, cleanCount: nat,
                     accessMin: map<string, int>, accessHour: map<string, int>)

  /** `Panicked`: the code calls a method on the hour counter it never looked up. */
  datatype Result = Returned(leftHour: int, leftMin: int, cleanId: int) | Panicked

  function Count(m: map<string, int>, id: string): int {
    if id in m then m[id] else 0
  }

  function Created(m: map<string, int>, id: string): map<string, int> {
    m[id := Count(m, id)]
  }

  // ---- The operations on a snapshot ----

  predicate ChecksHour(s: Set) { s.perHour > 0 }
  predicate ChecksMin(s: Set) { s.perMin > 0 }

  function Tried(s: Set, id: string): (Set, Result) {
    if !ChecksHour(s) && !ChecksMin(s) then (s, Returned(-1, -1, -1)) else
    var createsMin := ChecksMin(s) && ChecksHour(s) && id !in s.accessHour;
    var s1 := s.(accessHour := if ChecksHour(s) then Created(s.accessHour, id) else s.accessHour,
                 accessMin := if createsMin then Created(s.accessMin, id) else s.accessMin);
    var leftHour := if ChecksHour(s) then s.perHour - (Count(s.accessHour, id) + 1) else -1;
    if ChecksHour(s) && leftHour < 0 then (s1, Returned(0, if ChecksMin(s) then 0 else -1, 0)) else
    var s2 := if ChecksHour(s) then s1.(accessHour := s.accessHour[id := Count(s.accessHour, id) + 1]) else s1;
    if !ChecksMin(s) then (s2, Returned(leftHour, -1, s.cleanCount)) else
    var leftMin := s.perMin - (Count(s.accessMin, id) + 1);
    var s3 := s2.(accessMin := s.accessMin[id := Count(s.accessMin, id) + 1]);
    if leftMin >= 0 then (s3, Returned(leftHour, leftMin, s.cleanCount))
    else if !ChecksHour(s) then (s3, Panicked)
    else (s1.(accessMin := Created(s.accessMin, id)), Returned(leftHour, 0, 0))
  }

  function Released(s: Set, id: string, cleanId: int): Set {
    if cleanId <= 0 || (!ChecksHour(s) && !ChecksMin(s)) then s else
    var hour := ChecksHour(s) && HourPart(cleanId) == HourPart(s.cleanCount) && id in s.accessHour;
    var min := ChecksMin(s) && MinPart(cleanId) == MinPart(s.cleanCount) && id in s.accessMin;
    s.(accessHour := if hour then s.accessHour[id := s.accessHour[id] - 1] else s.accessHour,
       accessMin := if min then s.accessMin[id := s.accessMin[id] - 1] else s.accessMin)
  }

  function Cleaned(s: Set, hour: bool): Set {
    var count := HourPart(s.cleanCount) + MinPart(s.cleanCount + 1);
    if hour then
      s.(cleanCount := HourPart(count + 0x1_0000) + MinPart(count), accessMin := map[], accessHour := map[])
    else s.(cleanCount := count, accessMin := map[])
  }

  // ---- The object; each method body runs under the lock or on atomic counters ----

  class LimitSet {
    var perMin: int
    var perHour: int
    var cleanCount: nat
    var accessMin: map<string, int>
    var accessHour: map<string, int>

    ghost function Snapshot(): Set
      reads this
    {
      Set(perMin, perHour, cleanCount, accessMin, accessHour)
    }

    constructor (perMin: int, perHour: int)
      ensures Snapshot() == Set(perMin, perHour, 1, map[], map[])
    {
      this.perMin, this.perHour := perMin, perHour;
      cleanCount, accessMin, accessHour := 1, map[], map[];
    }

    // Fetches the hour counter of id, creating it, and then also the minute counter, when missing.
    method AddHour(id: string)
      modifies this`accessHour, this`accessMin
      ensures accessHour == old(accessHour)[id := Count(old(accessHour), id) + 1]
      ensures accessMin == if perMin > 0 && id !in old(accessHour) then Created(old(accessMin), id) else old(accessMin)
    {
      if id !in accessHour {
        accessHour := accessHour[id := 0];
        if perMin > 0 && id !in accessMin {
          accessMin := accessMin[id := 0];
        }
      }
      accessHour := accessHour[id := accessHour[id] + 1];
    }

    method AddMin(id: string)
      modifies this`accessMin
      ensures accessMin == old(accessMin)[id := Count(old(accessMin), id) + 1]
    {
      if id !in accessMin {
        accessMin := accessMin[id := 0];
      }
      accessMin := accessMin[id := accessMin[id] + 1];
    }

    method Try(id: string) returns (r: Result)
      modifies this
      ensures (Snapshot(), r) == Tried(old(Snapshot()), id)
    {
      var checkHour, checkMin := perHour > 0, perMin > 0;
      var leftHour := if checkHour then 0 else -1;
      var leftMin := if checkMin then 0 else -1;
      if !checkHour && !checkMin {
        return Returned(leftHour, leftMin, -1);
      }
      if checkHour {
        AddHour(id);
        leftHour := perHour - accessHour[id];
        if leftHour < 0 {
          accessHour := accessHour[id := accessHour[id] - 1];
          assert accessHour == Created(old(accessHour), id);
          return Returned(0, leftMin, 0);
        }
      }
      if checkMin {
        AddMin(id);
        assert accessMin == old(accessMin)[id := Count(old(accessMin), id) + 1];
        leftMin := perMin - accessMin[id];
        if leftMin < 0 {
          if !checkHour {
            return Panicked;
          }
          accessHour := accessHour[id := accessHour[id] - 1];
          accessMin := accessMin[id := accessMin[id] - 1];
          assert accessHour == Created(old(accessHour), id);
          assert accessMin == Created(old(accessMin), id);
          return Returned(leftHour, 0, 0);
        }
      }
      return Returned(leftHour, leftMin, cleanCount);
    }

    method Release(id: string, cleanId: int)
      modifies this
      ensures Snapshot() == Released(old(Snapshot()), id, cleanId)
    {
      if cleanId <= 0 || (perHour <= 0 && perMin <= 0) {
        return;
      }
      var releaseHour := perHour > 0 && HourPart(cleanId) == HourPart(cleanCount);
      var releaseMin := perMin > 0 && MinPart(cleanId) == MinPart(cleanCount);
      if releaseHour && id in accessHour {
        accessHour := accessHour[id := accessHour[id] - 1];
      }
      if releaseMin && id in accessMin {
        accessMin := accessMin[id := accessMin[id] - 1];
      }
    }

    method Clean(hour: bool)
      modifies this
      ensures Snapshot() == Cleaned(old(Snapshot()), hour)
    {
      cleanCount := HourPart(cleanCount) + MinPart(cleanCount + 1);
      accessMin := map[];
      if hour {
        cleanCount := HourPart(cleanCount + 0x1_0000) + MinPart(cleanCount);
        accessHour := map[];
      }
    }
  }
}
