/** The slot channel of limited/util.go: `free` holds the slots in the channel, and each
    array says which slot, if any, a goroutine of that kind holds. */
module BufSlots {
  import opened Common

  const NONE := -1

  predicate NoDuplicates(s: seq<int>) {
    forall i, j :: 0 <= i < j < |s| ==> s[i] != s[j]
  }

  predicate HeldIn(holders: seq<int>, slot: int) {
    exists i :: 0 <= i < |holders| && holders[i] == slot
  }

  // Within one kind, no slot is held twice or held and free at once.
  predicate Exclusive(free: seq<int>, holders: seq<int>, size: nat) {
    && (forall i :: 0 <= i < |holders| && holders[i] != NONE ==> 0 <= holders[i] < size && holders[i] !in free)
    && (forall i, j :: 0 <= i < j < |holders| && holders[i] != NONE ==> holders[i] != holders[j])
  }

  /** Every slot is in the channel or with exactly one holder, and nowhere twice. */
  ghost predicate Partition(free: seq<int>, a: seq<int>, b: seq<int>, size: nat) {
    && NoDuplicates(free)
    && (forall x :: x in free ==> 0 <= x < size)
    && Exclusive(free, a, size) && Exclusive(free, b, size)
    && (forall i, j :: 0 <= i < |a| && 0 <= j < |b| && a[i] != NONE ==> a[i] != b[j])
    && (forall x :: 0 <= x < size ==> x in free || HeldIn(a, x) || HeldIn(b, x))
  }

  // The slots below size, without `slot`, fill at most size - 1 places.
  lemma {:induction false} NoDuplicatesBound(s: seq<int>, size: nat, slot: int)
    requires NoDuplicates(s) && 0 <= slot < size && slot !in s
    requires forall x :: x in s ==> 0 <= x < size
    ensures |s| < size
  {
    var used := set x | x in s;
    CountDistinct(s);
    SubsetSize(used + {slot}, Below(size));
  }

  lemma {:induction false} CountDistinct(s: seq<int>)
    requires NoDuplicates(s)
    ensures |set x | x in s| == |s|
  {
    if s != [] {
      CountDistinct(s[1..]);
      assert (set x | x in s) == (set x | x in s[1..]) + {s[0]};
    }
  }

  /** Taking the slot at the head of the channel. */
  lemma {:induction false} TakeHead(free: seq<int>, a: seq<int>, b: seq<int>, size: nat, i: nat)
    requires Partition(free, a, b, size) && free != [] && i < |a| && a[i] == NONE
    ensures Partition(free[1..], a[i := free[0]], b, size)
  {
    var a' := a[i := free[0]];
    var rest := free[1..];
    assert forall k :: 0 <= k < |rest| ==> rest[k] == free[k + 1];
    assert free[0] !in rest && NoDuplicates(rest);
    assert forall x :: x in rest ==> x in free;
    assert free[0] in free;
    assert Exclusive(rest, a', size) && Exclusive(rest, b, size);
    assert forall x :: x in free <==> x == free[0] || x in free[1..];
    forall x | 0 <= x < size ensures x in free[1..] || HeldIn(a', x) || HeldIn(b, x) {
      if x == free[0] {
        assert a'[i] == x;
      } else if HeldIn(a, x) {
        var k :| 0 <= k < |a| && a[k] == x;
        assert a'[k] == x;
      }
    }
  }

  /** Giving a slot back: the channel always has room for it. */
  lemma {:induction false} GiveBack(free: seq<int>, a: seq<int>, b: seq<int>, size: nat, i: nat)
    requires Partition(free, a, b, size) && i < |a| && a[i] != NONE
    ensures |free| < size
    ensures Partition(free + [a[i]], a[i := NONE], b, size)
  {
    NoDuplicatesBound(free, size, a[i]);
    var a' := a[i := NONE];
    forall x | 0 <= x < size ensures x in free + [a[i]] || HeldIn(a', x) || HeldIn(b, x) {
      if HeldIn(a, x) && x != a[i] {
        var k :| 0 <= k < |a| && a[k] == x;
        assert a'[k] == x;
      }
    }
  }

  lemma {:induction false} Symmetric(free: seq<int>, a: seq<int>, b: seq<int>, size: nat)
    requires Partition(free, a, b, size)
    ensures Partition(free, b, a, size)
  {
  }

  // With nobody holding a slot, the channel is full.
  lemma {:induction false} AllFree(free: seq<int>, a: seq<int>, b: seq<int>, size: nat)
    requires Partition(free, a, b, size)
    requires forall i :: 0 <= i < |a| ==> a[i] == NONE
    requires forall i :: 0 <= i < |b| ==> b[i] == NONE
    ensures |free| == size && forall x :: 0 <= x < size ==> x in free
  {
    assert forall x :: 0 <= x < size ==> x in free;
    assert (set x | x in free) == Below(size);
    CountDistinct(free);
  }

  // ---- The channel as an object ----

  /** What Alloc hands out: the slot and the once-only function that frees it. */
  class Ticket {
    const slot: int
    var freed: bool

    constructor (slot: int)
      ensures this.slot == slot && !freed
    {
      this.slot, freed := slot, false;
    }
  }

  class SlotChannel {
    const size: nat
    var c: seq<int>
    ghost var issued: seq<Ticket>

    ghost function Holders(): (r: seq<int>)
      reads this, issued
      ensures |r| == |issued|
    {
      seq(|issued|, i requires 0 <= i < |issued| reads this, issued => if issued[i].freed then NONE else issued[i].slot)
    }

    /** Every slot is in the channel or with exactly one ticket that has not been freed. */
    ghost predicate Valid()
      reads this, issued
    {
      && Partition(c, Holders(), [], size)
      && (forall i :: 0 <= i < |issued| ==> 0 <= issued[i].slot < size)
      && (forall i, j :: 0 <= i < j < |issued| ==> issued[i] != issued[j])
    }

    constructor (size: nat)
      ensures Valid() && this.size == size && |c| == size && issued == []
    {
      this.size := size;
      c, issued := seq(size, i => i), [];
      new;
      forall x | 0 <= x < size ensures x in c {
        assert c[x] == x;
      }
    }

    /** Blocks on an empty channel, so it returns only when there is a slot. */
    method Alloc() returns (t: Ticket)
      requires Valid() && c != []
      modifies this
      ensures Valid() && fresh(t) && !t.freed && issued == old(issued) + [t]
      ensures t.slot == old(c)[0] && c == old(c)[1..]
    {
      t := new Ticket(c[0]);
      ghost var was := Holders();
      issued := issued + [t];
      assert c[0] in c;
      AllocNew(c, was, size);
      c := c[1..];
      assert Holders() == was + [t.slot];
    }

    /** Whoever calls it, and however often: the slot goes back once, and never waits for room. */
    method Free(t: Ticket)
      requires Valid() && t in issued
      modifies this`c, t
      ensures Valid() && t.freed
      ensures if old(t.freed) then c == old(c) else |old(c)| < size && c == old(c) + [t.slot]
    {
      if !t.freed {
        ghost var i :| 0 <= i < |issued| && issued[i] == t;
        ghost var was := Holders();
        GiveBack(c, was, [], size, i);
        c := c + [t.slot];
        t.freed := true;
        assert Holders() == was[i := NONE];
      }
    }
  }

  lemma {:induction false} AllocNew(free: seq<int>, a: seq<int>, size: nat)
    requires Partition(free, a, [], size) && free != []
    ensures Partition(free[1..], a + [free[0]], [], size)
  {
    var wider := a + [NONE];
    forall x | 0 <= x < size && x !in free ensures HeldIn(wider, x) {
      var k :| 0 <= k < |a| && a[k] == x;
      assert wider[k] == x;
    }
    TakeHead(free, wider, [], size, |a|);
    assert wider[|a| := free[0]] == a + [free[0]];
  }
}
