/** The rotation of the access logs. Slot 0 is the log being written, slot k the k-th last one; the slots
    from 2 on are compressed. The number of slots is configured. */
module AccessLogs {
  import opened Common

  datatype File = Plain(text: string) | Gzip(file: File)

  function Text(f: File): string {
    match f
    case Plain(text) => text
    case Gzip(file) => Text(file)
  }

  type Dir = map<nat, File>

  /** The end of the unbroken run of logs that starts at slot n: the slot it grows into, or the last one. */
  function Last(files: Dir, n: nat, slots: nat): (last: nat)
    ensures n <= slots ==> n <= last <= slots && (last == slots || last !in files)
    ensures forall k :: n <= k < last ==> k in files
    decreases |files|, slots + 1 - n
  {
    if n > slots then slots
    else if n !in files || n == slots then n
    else Last(files, n + 1, slots)
  }

  predicate AtOrAfter(k: nat, n: nat) { n <= k }

  function Between(n: nat, last: nat): set<nat> { set k: nat | k <= last && AtOrAfter(k, n) }

  /** What slot k is given: the log of the slot before it, compressed on its way into slot 2. */
  function Shifted(files: Dir, k: nat): File
    requires k > 0 && k - 1 in files
  {
    if k == 2 then Gzip(files[k - 1]) else files[k - 1]
  }

  /** The directory after the run that starts below slot n has moved up by one. */
  function Moved(files: Dir, n: nat, slots: nat): Dir
    requires 1 <= n <= slots + 1 && n - 1 in files
  {
    var last := Last(files, n, slots);
    map k: nat | k in Between(n, last) + (files.Keys - (if n == 2 && n <= slots then {} else {n - 1})) ::
      if n <= k <= last then Shifted(files, k) else files[k]
  }

  // One call: what is in slot n moves on first, then slot n is filled.
  lemma {:induction false} MovedOnce(files: Dir, n: nat, slots: nat)
    requires 1 <= n <= slots && n - 1 in files
    ensures var rest := if n in files then Moved(files, n + 1, slots) else files;
      && n - 1 in rest && rest[n - 1] == files[n - 1]
      && Moved(files, n, slots) == if n == 2 then rest[n := Gzip(files[n - 1])] else rest[n := files[n - 1]] - {n - 1}
  {
  }

  class Logger {
    const slots: nat
    var files: Dir

    constructor (slots: nat, files: Dir)
      ensures this.slots == slots && this.files == files
    {
      this.slots, this.files := slots, files;
    }

    /** Moves the log in slot n - 1 up by one, and before it those that are in its way. */
    method MoveAccessLogs(n: nat)
      requires 1 <= n <= slots + 1 && n - 1 in files
      modifies this
      ensures files == Moved(old(files), n, slots)
      decreases slots + 1 - n
    {
      if n > slots {
        files := files - {n - 1};
        return;
      }
      MovedOnce(files, n, slots);
      if n in files {
        MoveAccessLogs(n + 1);
      }
      if n == 2 {
        files := files[n := Gzip(files[n - 1])];
      } else {
        files := files[n := files[n - 1]] - {n - 1};
      }
    }

    /** A log that has grown too long is moved away. */
    method Rotate(text: string)
      modifies this
      ensures files == Moved(old(files)[0 := Plain(text)], 1, slots)
    {
      files := files[0 := Plain(text)];
      MoveAccessLogs(1);
    }
  }

  /** A rotation moves each log of the unbroken run up by one slot in its order, and leaves alone what is
      behind a gap. Only the text of the last slot is lost, and only when all slots are taken. */
  lemma {:induction false} RotationKeepsTexts(files: Dir, slots: nat, k: nat)
    requires 0 in files && k in files
    ensures var moved := Moved(files, 1, slots); var full := forall j :: 1 <= j <= slots ==> j in files;
      && 0 !in moved
      && (k < Last(files, 1, slots) ==> k + 1 in moved && Text(moved[k + 1]) == Text(files[k]))
      && (k > Last(files, 1, slots) ==> k in moved && moved[k] == files[k])
      && (k == Last(files, 1, slots) ==> k == slots && full)
  {
  }

  function AfterAll(logs: seq<string>, slots: nat): Dir {
    if logs == [] then map[] else
    var n := |logs| - 1;
    Moved(AfterAll(logs[..n], slots)[0 := Plain(logs[n])], 1, slots)
  }

  function Kept(logs: seq<string>, k: nat): File
    requires 1 <= k <= |logs|
  {
    if k == 1 then Plain(logs[|logs| - 1]) else Gzip(Plain(logs[|logs| - k]))
  }

  /** The newest of the logs in their order, the newest in slot 1. */
  function Newest(logs: seq<string>, slots: nat): Dir {
    map k: nat | k in Between(1, Min(|logs|, slots)) :: Kept(logs, k)
  }

  lemma {:induction false} KeptShift(logs: seq<string>, text: string, k: nat)
    requires 2 <= k <= |logs| + 1
    ensures Kept(logs + [text], k) == if k == 2 then Gzip(Kept(logs, 1)) else Kept(logs, k - 1)
  {
  }

  lemma {:induction false} RotatedKeys(logs: seq<string>, text: string, slots: nat)
    ensures var before, last := Newest(logs, slots)[0 := Plain(text)], Min(|logs| + 1, slots);
      && Last(before, 1, slots) == last && Moved(before, 1, slots).Keys == Between(1, last)
  {
    var before, last := Newest(logs, slots)[0 := Plain(text)], Min(|logs| + 1, slots);
    if slots > 0 {
      LastIs(before, 1, last, slots);
    }
    assert before.Keys - {0} <= Between(1, last);
  }

  lemma {:induction false} RotateNewest(logs: seq<string>, text: string, slots: nat)
    ensures Moved(Newest(logs, slots)[0 := Plain(text)], 1, slots) == Newest(logs + [text], slots)
  {
    var before := Newest(logs, slots)[0 := Plain(text)];
    var moved := Moved(before, 1, slots);
    RotatedKeys(logs, text, slots);
    forall k: nat | k in moved
      ensures moved[k] == Kept(logs + [text], k)
    {
      assert moved[k] == Shifted(before, k);
      if k >= 2 {
        KeptShift(logs, text, k);
      }
    }
  }

  /** However many rotations there have been, the slots hold the newest logs, newest first. */
  lemma {:induction false} SlotsHoldNewest(logs: seq<string>, slots: nat)
    ensures AfterAll(logs, slots) == Newest(logs, slots)
  {
    if logs != [] {
      var n := |logs| - 1;
      var earlier := logs[..n];
      SlotsHoldNewest(earlier, slots);
      RotateNewest(earlier, logs[n], slots);
      assert logs == earlier + [logs[n]];
    }
  }

  lemma {:induction false} LastIs(files: Dir, n: nat, last: nat, slots: nat)
    requires 1 <= n <= last <= slots
    requires forall k :: n <= k < last ==> k in files
    requires last == slots || last !in files
    ensures Last(files, n, slots) == last
    decreases last - n
  {
    if n < last {
      LastIs(files, n + 1, last, slots);
    }
  }
}
