/** The string functions the range parsers rely on: trimming, cutting, splitting, integers. */
module Text {
  import opened Common

  const MAX_INT64 := 0x7fff_ffff_ffff_ffff

  predicate IsSpace(c: char) { c == ' ' || c == '\t' || c == '\n' || c == '\r' }

  function TrimLeft(s: string): string {
    if s != [] && IsSpace(s[0]) then TrimLeft(s[1..]) else s
  }

  function TrimRight(s: string): string {
    if s != [] && IsSpace(s[|s| - 1]) then TrimRight(s[..|s| - 1]) else s
  }

  function Trim(s: string): string { TrimRight(TrimLeft(s)) }

  // The position of the first c, or the length of s when there is none.
  function Index(s: string, c: char): (i: nat)
    ensures i <= |s|
  {
    if s == [] || s[0] == c then 0 else Index(s[1..], c) + 1
  }

  lemma {:induction false} IndexIsFirst(s: string, c: char)
    ensures var i := Index(s, c);
      && (i < |s| ==> s[i] == c)
      && c !in s[..i]
  {
    if s != [] && s[0] != c {
      IndexIsFirst(s[1..], c);
      assert s[..Index(s, c)] == [s[0]] + s[1..][..Index(s[1..], c)];
    }
  }

  /** What stands before and after the first c. */
  function Cut(s: string, c: char): Option<(string, string)> {
    var i := Index(s, c);
    if i < |s| then Some((s[..i], s[i + 1..])) else None
  }

  function Split(s: string, c: char): (r: seq<string>)
    ensures r != []
  {
    var i := Index(s, c);
    if i < |s| then [s[..i]] + Split(s[i + 1..], c) else [s]
  }

  predicate IsDigit(c: char) { '0' <= c <= '9' }

  predicate AllDigits(s: string) { forall i :: 0 <= i < |s| ==> IsDigit(s[i]) }

  function Decimal(s: string): nat
    requires AllDigits(s)
  {
    if s == [] then 0 else 10 * Decimal(s[..|s| - 1]) + (s[|s| - 1] as int - '0' as int)
  }

  /** A base 10 integer of 64 bits with an optional sign. */
  function ParseInt(s: string): Option<int> {
    var negative := s != [] && s[0] == '-';
    var digits := if s != [] && (s[0] == '-' || s[0] == '+') then s[1..] else s;
    if digits == [] || !AllDigits(digits) then None else
    var value := (if negative then -1 else 1) * Decimal(digits);
    if -MAX_INT64 - 1 <= value <= MAX_INT64 then Some(value) else None
  }

  function Itoa(n: nat): string {
    var last := ['0' + (n % 10) as char];
    if n < 10 then last else Itoa(n / 10) + last
  }

  lemma {:induction false} ItoaIsDigits(n: nat)
    ensures Itoa(n) != [] && AllDigits(Itoa(n))
  {
    if n >= 10 {
      ItoaIsDigits(n / 10);
    }
  }

  lemma {:induction false} DecimalOfItoa(n: nat)
    ensures AllDigits(Itoa(n)) && Decimal(Itoa(n)) == n
  {
    var s := Itoa(n);
    ItoaIsDigits(n);
    if n >= 10 {
      DecimalOfItoa(n / 10);
      assert s[..|s| - 1] == Itoa(n / 10);
    } else {
      assert s[..0] == [];
    }
  }

  lemma {:induction false} ParseOfItoa(n: nat)
    requires n <= MAX_INT64
    ensures ParseInt(Itoa(n)) == Some(n)
  {
    ItoaIsDigits(n);
    DecimalOfItoa(n);
    assert IsDigit(Itoa(n)[0]);
  }

  /** With a sign a number parses to itself or its negative, in 64 bits of two's complement. */
  lemma {:induction false} SignedParses(n: int)
    requires n >= 0
    ensures ParseInt(Itoa(n)) == if n <= MAX_INT64 then Some(n) else None
    ensures ParseInt(['+'] + Itoa(n)) == if n <= MAX_INT64 then Some(n) else None
    ensures ParseInt(['-'] + Itoa(n)) == if n <= MAX_INT64 + 1 then Some(-n) else None
  {
    ItoaIsDigits(n);
    DecimalOfItoa(n);
    assert IsDigit(Itoa(n)[0]);
    assert (['+'] + Itoa(n))[1..] == Itoa(n) && (['-'] + Itoa(n))[1..] == Itoa(n);
  }

  /** Anything else than digits after an optional sign is no number. */
  lemma {:induction false} OnlyDigitsParse(s: string)
    requires s == [] || s == ['-'] || s == ['+'] || exists i :: 1 <= i < |s| && !IsDigit(s[i])
    ensures ParseInt(s) == None
  {
    if |s| > 1 {
      var i :| 1 <= i < |s| && !IsDigit(s[i]);
      assert s[1..][i - 1] == s[i];
    }
  }

  lemma {:induction false} IndexOf(a: string, c: char, b: string)
    requires c !in a
    ensures Index(a + [c] + b, c) == |a|
  {
    var s := a + [c] + b;
    if a != [] {
      assert s[0] == a[0] && s[1..] == a[1..] + [c] + b;
      IndexOf(a[1..], c, b);
    }
  }

  lemma {:induction false} CutAt(a: string, c: char, b: string)
    requires c !in a
    ensures Cut(a + [c] + b, c) == Some((a, b))
    ensures Split(a + [c] + b, c) == [a] + Split(b, c)
  {
    IndexOf(a, c, b);
    assert (a + [c] + b)[..|a|] == a && (a + [c] + b)[|a| + 1..] == b;
  }

  lemma {:induction false} NoCut(a: string, c: char)
    requires c !in a
    ensures Cut(a, c) == None && Split(a, c) == [a]
  {
    IndexIsFirst(a, c);
  }

  function Join(parts: seq<string>, c: char): string {
    if parts == [] then [] else if |parts| == 1 then parts[0] else parts[0] + [c] + Join(parts[1..], c)
  }

  lemma {:induction false} SplitOfJoin(parts: seq<string>, c: char)
    requires parts != [] && forall i :: 0 <= i < |parts| ==> c !in parts[i]
    ensures Split(Join(parts, c), c) == parts
  {
    if |parts| == 1 {
      NoCut(parts[0], c);
    } else {
      SplitOfJoin(parts[1..], c);
      CutAt(parts[0], c, Join(parts[1..], c));
    }
  }

  predicate Blank(s: string) { forall i :: 0 <= i < |s| ==> s[i] in {' ', '\t', '\n', '\r'} }

  lemma {:induction false} TrimLeftIs(s: string) returns (left: string)
    ensures s == left + TrimLeft(s) && Blank(left)
    ensures TrimLeft(s) != [] ==> TrimLeft(s)[0] !in {' ', '\t', '\n', '\r'}
  {
    if s != [] && IsSpace(s[0]) {
      left := TrimLeftIs(s[1..]);
      left := [s[0]] + left;
    } else {
      left := [];
    }
  }

  lemma {:induction false} TrimRightIs(s: string) returns (right: string)
    ensures s == TrimRight(s) + right && Blank(right)
    ensures TrimRight(s) != [] ==> TrimRight(s)[|TrimRight(s)| - 1] !in {' ', '\t', '\n', '\r'}
  {
    var n := |s| - 1;
    if s != [] && IsSpace(s[n]) {
      right := TrimRightIs(s[..n]);
      right := right + [s[n]];
    } else {
      right := [];
    }
  }

  /** Trimming takes off blanks at both ends, and all of them. */
  lemma {:induction false} TrimIs(s: string) returns (left: string, right: string)
    ensures s == left + Trim(s) + right && Blank(left) && Blank(right)
    ensures Trim(s) != [] ==>
      var t := Trim(s); t[0] !in {' ', '\t', '\n', '\r'} && t[|t| - 1] !in {' ', '\t', '\n', '\r'}
    ensures Trim(s) == [] <==> Blank(s)
  {
    left := TrimLeftIs(s);
    right := TrimRightIs(TrimLeft(s));
    var t := Trim(s);
    assert TrimLeft(s) == t + right;
    if t != [] {
      assert TrimLeft(s)[0] == t[0];
      assert s[|left|] == t[0];
    }
  }

  lemma {:induction false} TrimOfTight(s: string)
    requires s != [] && !IsSpace(s[0]) && !IsSpace(s[|s| - 1])
    ensures Trim(s) == s
  {
  }

  lemma {:induction false} TrimLeftBefore(a: string, c: char, b: string)
    requires !IsSpace(c)
    ensures TrimLeft(a + [c] + b) == TrimLeft(a) + [c] + b
  {
    if a != [] && IsSpace(a[0]) {
      assert (a + [c] + b)[1..] == a[1..] + [c] + b;
      TrimLeftBefore(a[1..], c, b);
    }
  }

  lemma {:induction false} TrimRightAfter(a: string, c: char, b: string)
    requires !IsSpace(c)
    ensures TrimRight(a + [c] + b) == a + [c] + TrimRight(b)
  {
    if b != [] && IsSpace(b[|b| - 1]) {
      var s := a + [c] + b;
      assert s[..|s| - 1] == a + [c] + b[..|b| - 1];
      TrimRightAfter(a, c, b[..|b| - 1]);
    } else if b == [] {
      assert a + [c] + b == a + [c];
    }
  }

  lemma {:induction false} TrimLeftTwice(s: string)
    ensures TrimLeft(TrimLeft(s)) == TrimLeft(s)
  {
    if s != [] && IsSpace(s[0]) {
      TrimLeftTwice(s[1..]);
    }
  }

  lemma {:induction false} TrimLeftKeeps(s: string, c: char)
    requires c !in s
    ensures c !in TrimLeft(s)
  {
    if s != [] && IsSpace(s[0]) {
      TrimLeftKeeps(s[1..], c);
    }
  }

  lemma {:induction false} TrimKeeps(s: string, c: char)
    requires c !in s
    ensures c !in Trim(s)
  {
    TrimLeftKeeps(s, c);
    TrimRightKeeps(TrimLeft(s), c);
  }

  lemma {:induction false} TrimRightKeeps(s: string, c: char)
    requires c !in s
    ensures c !in TrimRight(s)
  {
    if s != [] && IsSpace(s[|s| - 1]) {
      TrimRightKeeps(s[..|s| - 1], c);
    }
  }

  /** Trimming the whole and then what stands before c is trimming what stands before c. */
  lemma {:induction false} TrimThenCut(s: string, c: char)
    requires !IsSpace(c) && Cut(s, c).Some?
    ensures Cut(Trim(s), c).Some?
    ensures Trim(Cut(Trim(s), c).value.0) == Trim(Cut(s, c).value.0)
  {
    var a, b := Cut(s, c).value.0, Cut(s, c).value.1;
    IndexIsFirst(s, c);
    assert s == a + [c] + b;
    TrimLeftBefore(a, c, b);
    TrimRightAfter(TrimLeft(a), c, b);
    TrimLeftKeeps(a, c);
    CutAt(TrimLeft(a), c, TrimRight(b));
    TrimLeftTwice(a);
  }
}
