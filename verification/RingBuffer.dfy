/** The ring buffer of the dashboard: an array with one place more than its size, from `start` round to
    `end`. */
module RingBuffer {

  /** The last n of a sequence, or all of it. */
  function LastOf<T>(s: seq<T>, n: nat): seq<T> {
    if |s| <= n then s else s[|s| - n..]
  }

  function Between<T>(r: seq<T>, start: nat, end: nat): seq<T>
    requires start < |r| && end < |r|
  {
    if start <= end then r[start..end] else r[start..] + r[..end]
  }

  function Turned(x: nat, length: nat): nat { if x < length then x else x - length }

  lemma {:induction false} TurnedIs(x: nat, length: nat)
    requires length > 0 && x < 2 * length
    ensures x % length == Turned(x, length)
  {
    if x >= length {
      assert x == length + (x - length) && (x - length) / length == 0;
    }
  }

  /** The cells and the two places. */
  datatype Buffer<T> = Buffer(r: seq<T>, start: nat, end: nat)

  ghost predicate Sound<T>(b: Buffer<T>) { |b.r| >= 2 && b.start < |b.r| && b.end < |b.r| }

  lemma {:induction false} BetweenAt<T>(r: seq<T>, start: nat, end: nat, i: nat)
    requires start < |r| && end < |r| && i < |Between(r, start, end)|
    ensures Turned(start + i, |r|) < |r| && Between(r, start, end)[i] == r[Turned(start + i, |r|)]
  {
  }

  lemma {:induction false} BetweenSet<T>(r: seq<T>, start: nat, end: nat, i: nat, v: T)
    requires start < |r| && end < |r| && i < |Between(r, start, end)|
    ensures Turned(start + i, |r|) < |r|
    ensures Between(r[Turned(start + i, |r|) := v], start, end) == Between(r, start, end)[i := v]
  {
    var r', place := r[Turned(start + i, |r|) := v], Turned(start + i, |r|);
    if start <= end {
      assert r'[start..end] == r[start..end][i := v];
    } else if start + i < |r| {
      assert r'[start..] == r[start..][i := v] && r'[..end] == r[..end];
    } else {
      assert r'[start..] == r[start..] && r'[..end] == r[..end][place := v];
    }
  }

  /** A bulk push that runs past the end of the array although `end` is already behind `start`. */
  predicate Overruns(length: nat, start: nat, end: nat, adding: nat) {
    adding + 1 < length && end < start && end + adding >= length
  }

  class Ring<T(0)> {
    const cells: array<T>
    var start: nat
    var end: nat

    ghost predicate Valid()
      reads this
    {
      cells.Length >= 2 && start < cells.Length && end < cells.Length
    }

    ghost function State(): Buffer<T>
      reads this, cells
    {
      Buffer(cells[..], start, end)
    }

    ghost function Contents(): seq<T>
      requires Valid()
      reads this, cells
    {
      Between(cells[..], start, end)
    }

    function Size(): nat
      requires cells.Length > 0
    {
      cells.Length - 1
    }

    constructor (size: nat)
      requires size >= 1
      ensures Valid() && fresh(cells) && Size() == size && Contents() == []
    {
      cells := new T[size + 1];
      start, end := 0, 0;
    }

    function Avaliable(): (n: nat)
      requires Valid()
      reads this, cells
      ensures n == |Contents()| <= Size()
    {
      if start <= end then end - start else cells.Length - start + end
    }

    method At(i: nat) returns (v: T)
      requires Valid()
      ensures i < |Contents()| ==> v == Contents()[i]
    {
      if i < Avaliable() {
        TurnedIs(start + i, cells.Length);
        BetweenAt(cells[..], start, end, i);
      }
      v := cells[(start + i) % cells.Length];
    }

    method Set(i: nat, v: T)
      requires Valid()
      modifies cells
      ensures Valid()
      ensures i < |old(Contents())| ==> Contents() == old(Contents())[i := v]
    {
      ghost var r := cells[..];
      var place := (start + i) % cells.Length;
      cells[place] := v;
      assert cells[..] == r[place := v];
      if i < |Between(r, start, end)| {
        TurnedIs(start + i, cells.Length);
        BetweenSet(r, start, end, i, v);
      }
    }

    /** The places of the contents in order. */
    method Keys() returns (keys: seq<nat>)
      requires Valid()
      ensures |keys| == |Contents()|
      ensures forall k :: 0 <= k < |keys| ==> keys[k] < cells.Length && cells[keys[k]] == Contents()[k]
    {
      keys := [];
      ghost var r := cells[..];
      if start <= end {
        for i := start to end
          invariant |keys| == i - start
          invariant forall k :: 0 <= k < |keys| ==> keys[k] == start + k
        {
          keys := keys + [i];
        }
      } else {
        for i := start to cells.Length
          invariant |keys| == i - start
          invariant forall k :: 0 <= k < |keys| ==> keys[k] == start + k
        {
          keys := keys + [i];
        }
        for i := 0 to end
          invariant |keys| == cells.Length - start + i
          invariant forall k :: 0 <= k < |keys| ==> keys[k] == Turned(start + k, cells.Length)
        {
          keys := keys + [i];
        }
      }
      forall k | 0 <= k < |keys|
        ensures keys[k] < cells.Length && cells[keys[k]] == Contents()[k]
      {
        BetweenAt(r, start, end, k);
      }
    }

    method Replace(pos: nat, items: seq<T>)
      requires pos + |items| <= cells.Length
      modifies cells
      ensures forall p :: 0 <= p < cells.Length ==>
        cells[p] == if pos <= p < pos + |items| then items[p - pos] else old(cells[p])
    {
      for i := 0 to |items|
        invariant forall p :: 0 <= p < cells.Length ==>
          cells[p] == if pos <= p < pos + i then items[p - pos] else old(cells[p])
      {
        cells[pos + i] := items[i];
      }
    }

    // Writes on from `end`, and from the beginning what does not fit.
    method ReplaceRound(items: seq<T>)
      requires Valid() && |items| < Size()
      modifies cells
      ensures WrittenRound(old(cells[..]), end, items, cells[..])
    {
      var right := cells.Length - end;
      if |items| > right {
        Replace(end, items[..right]);
        Replace(0, items[right..]);
      } else {
        Replace(end, items);
      }
    }

    // Fewer items than the ring has room for.
    method PushFew(items: seq<T>)
      requires Valid() && |items| < Size()
      modifies this, cells
      ensures Valid()
      ensures IsPush(old(State()), items, State())
    {
      ReplaceRound(items);
      var oldend := end;
      TurnedIs(oldend + |items|, cells.Length);
      end := (oldend + |items|) % cells.Length;
      if (start <= end && end < oldend) || (oldend < start && start <= end) {
        TurnedIs(end + 1, cells.Length);
        start := (end + 1) % cells.Length;
      }
    }

    // As many items as the ring has room for, or more: the last of them fill it.
    method Refill(items: seq<T>)
      requires Valid() && |items| >= Size()
      modifies this, cells
      ensures Valid() && IsPush(old(State()), items, State())
    {
      Replace(0, items[|items| - Size()..]);
      start, end := 0, Size();
    }

    /** Adds to the end and drops what no longer fits from the front, except that a push that overruns
        keeps only those of its items that stand from `start` on, fewer than there is room for. */
    method Push(items: seq<T>) returns (avaliable: nat)
      requires Valid()
      modifies this, cells
      ensures Valid() && avaliable == |Contents()| && IsPush(old(State()), items, State())
      ensures Contents() == LastOf(old(Contents()) + items, Room(cells.Length, old(start), old(end), |items|))
    {
      ghost var old' := State();
      if |items| >= Size() {
        Refill(items);
      } else {
        PushFew(items);
      }
      avaliable := Avaliable();
      PushedContents(old', items, State());
    }
  }

  /** How many items a push leaves at most: the size, unless it overruns. */
  function Room(length: nat, start: nat, end: nat, adding: nat): int
    requires length >= 2
  {
    if Overruns(length, start, end, adding) then adding - (start - end) else length - 1
  }

  // ---- places ----

  function Count(length: nat, start: nat, end: nat): nat
    requires start < length && end < length
  {
    if start <= end then end - start else length - start + end
  }

  function NewEnd(length: nat, end: nat, adding: nat): nat { Turned(end + adding, length) }

  function NewStart(length: nat, start: nat, end: nat, adding: nat): nat {
    var e := NewEnd(length, end, adding);
    if (start <= e && e < end) || (end < start && start <= e) then Turned(e + 1, length) else start
  }

  // How far a place is from where the writing begins.
  function Offset(length: nat, end: nat, place: nat): nat
    requires end < length
  {
    if place >= end then place - end else place + length - end
  }

  lemma {:induction false} NewCount(length: nat, start: nat, end: nat, adding: nat)
    requires start < length && end < length && adding + 1 < length
    ensures var s, e := NewStart(length, start, end, adding), NewEnd(length, end, adding);
      && s < length && e < length
      && var total := Count(length, start, end) + adding;
      && (if Overruns(length, start, end, adding) then Count(length, s, e) == adding - (start - end) < length - 1
          else Count(length, s, e) == if total < length then total else length - 1)
      && Count(length, s, e) <= total
  {
  }

  // The place holds entry k of all: it is old and in its place, or new and where it was written.
  predicate Holds(length: nat, start: nat, end: nat, adding: nat, place: nat, k: nat)
    requires start < length && end < length
  {
    var before := Count(length, start, end);
    && place < length
    && (k < before ==> place == Turned(start + k, length) && Offset(length, end, place) >= adding)
    && (k >= before ==> Offset(length, end, place) == k - before)
  }

  // Entry i of n that are left.
  predicate KeepsEntry(length: nat, start: nat, end: nat, adding: nat, s: nat, n: nat, i: nat)
    requires start < length && end < length && n <= Count(length, start, end) + adding
  {
    Holds(length, start, end, adding, Turned(s + i, length), Count(length, start, end) + adding - n + i)
  }

  lemma {:induction false} PlaceOf(length: nat, start: nat, end: nat, adding: nat, s: nat, e: nat, i: nat)
    requires start < length && end < length && adding + 1 < length
    requires s == NewStart(length, start, end, adding) && e == NewEnd(length, end, adding)
    requires s < length && e < length && i < Count(length, s, e) <= Count(length, start, end) + adding
    ensures KeepsEntry(length, start, end, adding, s, Count(length, s, e), i)
  {
  }

  // The items are written from `end` on, round the end of the array.
  ghost predicate WrittenRound<T>(r: seq<T>, end: nat, items: seq<T>, r': seq<T>)
    requires end < |r|
  {
    && |r'| == |r|
    && forall p :: 0 <= p < |r| ==>
         r'[p] == if Offset(|r|, end, p) < |items| then items[Offset(|r|, end, p)] else r[p]
  }

  lemma {:induction false} EntryOf<T>(r: seq<T>, start: nat, end: nat, items: seq<T>, r': seq<T>, place: nat, k: nat)
    requires start < |r| && end < |r| && WrittenRound(r, end, items, r')
    requires k < Count(|r|, start, end) + |items| && Holds(|r|, start, end, |items|, place, k)
    ensures |r'| == |r| && r'[place] == (Between(r, start, end) + items)[k]
  {
    if k < Count(|r|, start, end) {
      BetweenAt(r, start, end, k);
    }
  }

  lemma {:induction false} LastOfAt<T>(all: seq<T>, n: nat, i: nat)
    requires i < n <= |all|
    ensures |LastOf(all, n)| == n && LastOf(all, n)[i] == all[|all| - n + i]
  {
  }

  lemma {:induction false} LastEntry<T>(
      r: seq<T>, start: nat, end: nat, items: seq<T>, r': seq<T>, s: nat, e: nat, n: nat, i: nat)
    requires start < |r| && end < |r| && s < |r| && e < |r| && WrittenRound(r, end, items, r')
    requires i < n == Count(|r|, s, e) <= Count(|r|, start, end) + |items|
    requires KeepsEntry(|r|, start, end, |items|, s, n, i)
    ensures var all := Between(r, start, end) + items;
      i < |Between(r', s, e)| && i < |LastOf(all, n)| && Between(r', s, e)[i] == LastOf(all, n)[i]
  {
    var all := Between(r, start, end) + items;
    assert |Between(r', s, e)| == n && |all| == Count(|r|, start, end) + |items|;
    EntryOf(r, start, end, items, r', Turned(s + i, |r|), |all| - n + i);
    LastOfAt(all, n, i);
    BetweenAt(r', s, e, i);
  }

  lemma {:induction false} LastEntries<T>(
      r: seq<T>, start: nat, end: nat, items: seq<T>, r': seq<T>, s: nat, e: nat, n: nat)
    requires start < |r| && end < |r| && s < |r| && e < |r| && WrittenRound(r, end, items, r')
    requires n == Count(|r|, s, e) <= Count(|r|, start, end) + |items|
    requires forall i: nat :: i < n ==> KeepsEntry(|r|, start, end, |items|, s, n, i)
    ensures Between(r', s, e) == LastOf(Between(r, start, end) + items, n)
  {
    var left, last := Between(r', s, e), LastOf(Between(r, start, end) + items, n);
    assert |left| == n == |last|;
    forall i: nat | i < n
      ensures left[i] == last[i]
    {
      LastEntry(r, start, end, items, r', s, e, n, i);
    }
  }

  /** A push of as many items as there is room for starts anew with the last of them; another one writes on
      from the end. */
  ghost predicate IsPush<T>(b: Buffer<T>, items: seq<T>, b': Buffer<T>)
    requires Sound(b)
  {
    var size := |b.r| - 1;
    if |items| >= size then
      |b'.r| == |b.r| && b'.start == 0 && b'.end == size && b'.r[..size] == items[|items| - size..]
    else
      && WrittenRound(b.r, b.end, items, b'.r)
      && b'.start == NewStart(|b.r|, b.start, b.end, |items|) && b'.end == NewEnd(|b.r|, b.end, |items|)
  }

  lemma {:induction false} FewContents<T>(r: seq<T>, start: nat, end: nat, items: seq<T>, r': seq<T>, s: nat, e: nat)
    requires start < |r| && end < |r| && |items| + 1 < |r| && WrittenRound(r, end, items, r')
    requires s == NewStart(|r|, start, end, |items|) && e == NewEnd(|r|, end, |items|)
    ensures s < |r| && e < |r|
    ensures Between(r', s, e) == LastOf(Between(r, start, end) + items, Count(|r|, s, e))
  {
    NewCount(|r|, start, end, |items|);
    var n := Count(|r|, s, e);
    forall i: nat | i < n
      ensures KeepsEntry(|r|, start, end, |items|, s, n, i)
    {
      PlaceOf(|r|, start, end, |items|, s, e, i);
    }
    LastEntries(r, start, end, items, r', s, e, n);
  }

  /** What a push leaves: the last of the old contents and the new items, as many as there is room for. */
  lemma {:induction false} PushedContents<T>(b: Buffer<T>, items: seq<T>, b': Buffer<T>)
    requires Sound(b) && IsPush(b, items, b')
    ensures Sound(b') && |b'.r| == |b.r|
    ensures Between(b'.r, b'.start, b'.end)
         == LastOf(Between(b.r, b.start, b.end) + items, Room(|b.r|, b.start, b.end, |items|))
  {
    if |items| >= |b.r| - 1 {
      LastOfLonger(Between(b.r, b.start, b.end), items, |b.r| - 1);
    } else {
      NewCount(|b.r|, b.start, b.end, |items|);
      FewContents(b.r, b.start, b.end, items, b'.r, b'.start, b'.end);
    }
  }

  lemma {:induction false} LastOfLonger<T>(a: seq<T>, b: seq<T>, n: nat)
    requires |b| >= n
    ensures LastOf(a + b, n) == b[|b| - n..]
  {
    assert (a + b)[|a| + |b| - n..] == b[|b| - n..];
  }

  /** A push leaves the last of everything, up to the size, exactly when it does not overrun. */
  lemma {:induction false} PushIsExactUnlessOverrun<T>(before: seq<T>, items: seq<T>, length: nat, start: nat, end: nat)
    requires start < length && end < length && length >= 2 && |before| == Count(length, start, end)
    ensures Room(length, start, end, |items|) >= 0
    ensures LastOf(before + items, Room(length, start, end, |items|)) == LastOf(before + items, length - 1)
      <==> !Overruns(length, start, end, |items|)
  {
  }

  // ---- whole runs ----

  lemma {:induction false} SinglePushNeverOverruns(length: nat, start: nat, end: nat)
    requires length >= 2 && start < length && end < length
    ensures !Overruns(length, start, end, 1)
  {
  }

  function Joined<T>(batches: seq<seq<T>>): seq<T> {
    if batches == [] then [] else Joined(batches[..|batches| - 1]) + batches[|batches| - 1]
  }

  lemma {:induction false} LastOfLast<T>(a: seq<T>, b: seq<T>, n: nat)
    ensures LastOf(LastOf(a, n) + b, n) == LastOf(a + b, n)
  {
    if |a| > n {
      assert LastOf(a, n) + b == (a + b)[|a| - n..];
    }
  }

  ghost predicate IsPushAt<T>(run: seq<Buffer<T>>, batches: seq<seq<T>>, k: nat)
    requires k < |batches| < |run|
  {
    Sound(run[k]) && IsPush(run[k], batches[k], run[k + 1])
  }

  predicate OverrunsAt<T>(run: seq<Buffer<T>>, batches: seq<seq<T>>, k: nat)
    requires k < |batches| < |run|
  {
    Overruns(|run[k].r|, run[k].start, run[k].end, |batches[k]|)
  }

  /** The buffers before and after each of the pushes, from an empty one. */
  ghost predicate IsRun<T>(run: seq<Buffer<T>>, batches: seq<seq<T>>) {
    && |run| == |batches| + 1 && Sound(run[0]) && run[0].start == run[0].end
    && forall k :: 0 <= k < |batches| ==> IsPushAt(run, batches, k)
  }

  /** None of the first n pushes overruns. */
  ghost predicate NoneOverruns<T>(run: seq<Buffer<T>>, batches: seq<seq<T>>, n: nat)
    requires n <= |batches| < |run|
  {
    forall k :: 0 <= k < n ==> !OverrunsAt(run, batches, k)
  }

  /** The contents are the last of everything that was ever pushed, as many as fit. */
  ghost predicate KeepsLast<T>(b: Buffer<T>, pushed: seq<seq<T>>) {
    Sound(b) && Between(b.r, b.start, b.end) == LastOf(Joined(pushed), |b.r| - 1)
  }

  ghost predicate KeepsLastAt<T>(run: seq<Buffer<T>>, batches: seq<seq<T>>, k: nat)
    requires k <= |batches| < |run|
  {
    KeepsLast(run[k], batches[..k])
  }

  lemma {:induction false} PushKeepsLast<T>(b: Buffer<T>, b': Buffer<T>, pushed: seq<seq<T>>, items: seq<T>)
    requires Sound(b) && IsPush(b, items, b') && KeepsLast(b, pushed)
    ensures KeepsLast(b', pushed + [items]) <==> !Overruns(|b.r|, b.start, b.end, |items|)
  {
    PushedContents(b, items, b');
    PushIsExactUnlessOverrun(Between(b.r, b.start, b.end), items, |b.r|, b.start, b.end);
    LastOfLast(Joined(pushed), items, |b.r| - 1);
    JoinedOne(pushed, items);
  }

  lemma {:induction false} JoinedOne<T>(pushed: seq<seq<T>>, items: seq<T>)
    ensures Joined(pushed + [items]) == Joined(pushed) + items
  {
    assert (pushed + [items])[..|pushed|] == pushed;
  }

  /** So do the first n buffers. */
  ghost predicate AllKeepLast<T>(run: seq<Buffer<T>>, batches: seq<seq<T>>, n: nat)
    requires n <= |batches| < |run|
  {
    forall k :: 0 <= k <= n ==> KeepsLastAt(run, batches, k)
  }

  lemma {:induction false} StepKeepsLast<T>(run: seq<Buffer<T>>, batches: seq<seq<T>>, k: nat)
    requires IsRun(run, batches) && k < |batches| && KeepsLastAt(run, batches, k)
    ensures KeepsLastAt(run, batches, k + 1) <==> !OverrunsAt(run, batches, k)
  {
    assert IsPushAt(run, batches, k);
    assert batches[..k] + [batches[k]] == batches[..k + 1];
    PushKeepsLast(run[k], run[k + 1], batches[..k], batches[k]);
  }

  lemma {:induction false} StartKeepsLast<T>(run: seq<Buffer<T>>, batches: seq<seq<T>>)
    requires IsRun(run, batches)
    ensures KeepsLastAt(run, batches, 0)
  {
    assert batches[..0] == [];
  }

  lemma {:induction false} OneMore<T>(run: seq<Buffer<T>>, batches: seq<seq<T>>, n: nat)
    requires 0 < n <= |batches| < |run|
    ensures AllKeepLast(run, batches, n) <==> AllKeepLast(run, batches, n - 1) && KeepsLastAt(run, batches, n)
    ensures NoneOverruns(run, batches, n) <==> NoneOverruns(run, batches, n - 1) && !OverrunsAt(run, batches, n - 1)
  {
  }

  /** Every buffer of a run keeps the last of everything pushed before it exactly as long as none of the
      pushes overruns. */
  lemma {:induction false} RunKeepsLast<T>(run: seq<Buffer<T>>, batches: seq<seq<T>>, n: nat)
    requires IsRun(run, batches) && n <= |batches|
    ensures AllKeepLast(run, batches, n) <==> NoneOverruns(run, batches, n)
  {
    if n == 0 {
      StartKeepsLast(run, batches);
    } else {
      OneMore(run, batches, n);
      RunKeepsLast(run, batches, n - 1);
      if AllKeepLast(run, batches, n - 1) {
        StepKeepsLast(run, batches, n - 1);
      }
    }
  }
}
