/** The Range header of section 2.1 of RFC 7233: the parser, its fast sibling, and the
    response size computed from the ranges. */
module HttpRange {
  import opened Common
  import opened Text

  datatype Range = Range(start: int, length: int)

  /** `Ranges([])` also stands for a header that is absent. */
  datatype Result = Ranges(rs: seq<Range>) | Invalid | NoOverlap

  const PREFIX := "bytes="

  // One element of the list: blank, malformed, beyond the content, or a range of it.
  datatype Part = Blank | Malformed | Beyond | Within(r: Range)

  // No start: the end counts back from the end of the content.
  function ParseSuffix(end: string, size: int): Part {
    if end == "" || end[0] == '-' then Malformed else
    var i := ParseInt(end);
    if i.None? || i.value < 0 then Malformed else
    var first := size - if i.value > size then size else i.value;
    Within(Range(first, size - first))
  }

  function ParseFrom(start: string, end: string, size: int): Part {
    var i := ParseInt(start);
    if i.None? || i.value < 0 then Malformed
    else if i.value >= size then Beyond
    else if end == "" then Within(Range(i.value, size - i.value)) else
    var j := ParseInt(end);
    if j.None? || i.value > j.value then Malformed else
    var last := if j.value >= size then size - 1 else j.value;
    Within(Range(i.value, last - i.value + 1))
  }

  function ParsePart(part: string, size: int): Part {
    var ra := Trim(part);
    if ra == "" then Blank else
    var cut := Cut(ra, '-');
    if cut.None? then Malformed else
    var start, end := Trim(cut.value.0), Trim(cut.value.1);
    if start == "" then ParseSuffix(end, size) else ParseFrom(start, end, size)
  }

  function ParseParts(parts: seq<string>, size: int): (ps: seq<Part>)
    ensures |ps| == |parts|
  {
    seq(|parts|, i requires 0 <= i < |parts| => ParsePart(parts[i], size))
  }

  ghost function Kept(ps: seq<Part>): seq<Range> {
    if ps == [] then [] else
    var last := ps[|ps| - 1];
    Kept(ps[..|ps| - 1]) + if last.Within? then [last.r] else []
  }

  lemma {:induction false} KeptOneMore(ps: seq<Part>, k: nat)
    requires k < |ps|
    ensures Kept(ps[..k + 1]) == Kept(ps[..k]) + if ps[k].Within? then [ps[k].r] else []
    ensures forall p :: p in ps[..k + 1] <==> p in ps[..k] || p == ps[k]
  {
    assert ps[..k + 1][..k] == ps[..k];
    assert ps[..k + 1] == ps[..k] + [ps[k]];
  }

  ghost function Answer(ps: seq<Part>): Result {
    if Malformed in ps then Invalid
    else if Beyond in ps && Kept(ps) == [] then NoOverlap
    else Ranges(Kept(ps))
  }

  /** The meaning of a header. */
  ghost function Parsed(s: string, size: int): Result {
    if s == "" then Ranges([])
    else if !(PREFIX <= s) then Invalid else
    Answer(ParseParts(Split(s[|PREFIX|..], ','), size))
  }

  method ParseRange(s: string, size: int) returns (r: Result)
    ensures r == Parsed(s, size)
  {
    if s == "" {
      return Ranges([]);
    }
    if !(PREFIX <= s) {
      return Invalid;
    }
    var parts := Split(s[|PREFIX|..], ',');
    ghost var ps := ParseParts(parts, size);
    var ranges, noOverlap := [], false;
    for k := 0 to |parts|
      invariant ranges == Kept(ps[..k])
      invariant noOverlap <==> Beyond in ps[..k]
      invariant Malformed !in ps[..k]
    {
      KeptOneMore(ps, k);
      match ParsePart(parts[k], size)
      case Blank =>
      case Malformed => return Invalid;
      case Beyond => noOverlap := true;
      case Within(ra) => ranges := ranges + [ra];
    }
    assert ps[..|parts|] == ps;
    if noOverlap && |ranges| == 0 {
      return NoOverlap;
    }
    return Ranges(ranges);
  }

  // ---- bounds ----

  ghost predicate Inside(r: Range, size: int) {
    && 0 <= r.start && 0 <= r.length && r.start + r.length <= size
    && (r.length == 0 ==> r.start == size)
  }

  lemma {:induction false} PartIsInside(part: string, size: int)
    requires size >= 0 && ParsePart(part, size).Within?
    ensures Inside(ParsePart(part, size).r, size)
  {
  }

  lemma {:induction false} KeptAreThere(ps: seq<Part>, r: Range)
    requires r in Kept(ps)
    ensures Within(r) in ps
  {
    var n := |ps| - 1;
    if ps[n] != Within(r) {
      KeptAreThere(ps[..n], r);
    }
  }

  /** Every range lies inside the content, and only one that starts at its end is empty. */
  lemma {:induction false} RangesAreInside(s: string, size: int)
    requires size >= 0 && Parsed(s, size).Ranges?
    ensures forall r :: r in Parsed(s, size).rs ==> Inside(r, size)
  {
    if s != "" {
      var parts := Split(s[|PREFIX|..], ',');
      var ps := ParseParts(parts, size);
      forall r | r in Kept(ps)
        ensures Inside(r, size)
      {
        KeptAreThere(ps, r);
        var i :| 0 <= i < |ps| && ps[i] == Within(r);
        PartIsInside(parts[i], size);
      }
    }
  }

  // ---- round trip ----

  function PrintRange(r: Range): string
    requires 0 <= r.start && 1 <= r.length
  {
    Itoa(r.start) + ['-'] + Itoa(r.start + r.length - 1)
  }

  function Printed(rs: seq<Range>): (parts: seq<string>)
    requires forall r :: r in rs ==> 0 <= r.start && 1 <= r.length
    ensures |parts| == |rs| && forall i :: 0 <= i < |rs| ==> parts[i] == PrintRange(rs[i])
  {
    if rs == [] then [] else Printed(rs[..|rs| - 1]) + [PrintRange(rs[|rs| - 1])]
  }

  function Print(rs: seq<Range>): string
    requires forall r :: r in rs ==> 0 <= r.start && 1 <= r.length
  {
    if rs == [] then "" else PREFIX + Join(Printed(rs), ',')
  }

  predicate Tight(s: string) { s != [] && !IsSpace(s[0]) && !IsSpace(s[|s| - 1]) }

  lemma {:induction false} DashCuts(a: string, b: string)
    requires Tight(a) && Tight(b) && '-' !in a
    ensures var part := a + ['-'] + b;
      Trim(part) == part && Cut(part, '-') == Some((a, b)) && Trim(a) == a && Trim(b) == b
  {
    TrimOfTight(a);
    TrimOfTight(b);
    TrimOfTight(a + ['-'] + b);
    CutAt(a, '-', b);
  }

  lemma {:induction false} ParsePartOf(part: string, a: string, b: string, size: int)
    requires Trim(part) == part != [] && Cut(part, '-') == Some((a, b))
    requires Trim(a) == a != [] && Trim(b) == b
    ensures ParsePart(part, size) == ParseFrom(a, b, size)
  {
  }

  lemma {:induction false} ItoaIsTight(n: nat)
    ensures Tight(Itoa(n)) && '-' !in Itoa(n) && ',' !in Itoa(n)
  {
    ItoaIsDigits(n);
    assert IsDigit(Itoa(n)[0]) && IsDigit(Itoa(n)[|Itoa(n)| - 1]);
  }

  lemma {:induction false} ItoaParses(n: nat)
    requires n <= MAX_INT64
    ensures Tight(Itoa(n)) && '-' !in Itoa(n) && ParseInt(Itoa(n)) == Some(n)
  {
    ItoaIsTight(n);
    ParseOfItoa(n);
  }

  // ---- what each kind of element means ----

  /** A suffix range is the last n bytes, or everything if there are fewer. */
  lemma {:induction false} SuffixElement(n: nat, size: nat)
    requires n <= MAX_INT64
    ensures ParsePart(['-'] + Itoa(n), size) == Within(Range(size - Min(n, size), Min(n, size)))
  {
    ItoaParses(n);
    SuffixOf(Itoa(n), n, size);
  }

  lemma {:induction false} SuffixOf(b: string, n: nat, size: nat)
    requires Tight(b) && '-' !in b && ParseInt(b) == Some(n)
    ensures ParsePart(['-'] + b, size) == Within(Range(size - Min(n, size), Min(n, size)))
  {
    var part := ['-'] + b;
    assert part == [] + ['-'] + b && b[0] in b;
    CutAt([], '-', b);
    TrimOfTight(b);
    TrimOfTight(part);
  }

  /** A range without an end goes on to the end of the content; from there on it does not overlap. */
  lemma {:induction false} OpenElement(i: nat, size: nat)
    requires i <= MAX_INT64
    ensures ParsePart(Itoa(i) + ['-'], size) == if i >= size then Beyond else Within(Range(i, size - i))
  {
    ItoaParses(i);
    OpenOf(Itoa(i), i, size);
  }

  lemma {:induction false} OpenOf(a: string, i: nat, size: nat)
    requires Tight(a) && '-' !in a && ParseInt(a) == Some(i)
    ensures ParsePart(a + ['-'], size) == if i >= size then Beyond else Within(Range(i, size - i))
  {
    var part := a + ['-'];
    assert part == a + ['-'] + [];
    CutAt(a, '-', []);
    TrimOfTight(a);
    TrimOfTight(part);
  }

  /** A range with both ends is cut to the content; one that ends before it starts is malformed unless it
      starts beyond the content. */
  lemma {:induction false} ClosedElement(i: nat, j: nat, size: nat)
    requires i <= MAX_INT64 && j <= MAX_INT64
    ensures ParsePart(Itoa(i) + ['-'] + Itoa(j), size)
         == if i >= size then Beyond else if j < i then Malformed else Within(Range(i, Min(j, size - 1) - i + 1))
  {
    ItoaParses(i);
    ItoaParses(j);
    ClosedOf(Itoa(i), Itoa(j), Itoa(i) + ['-'] + Itoa(j), i, j, size);
  }

  lemma {:induction false} ClosedOf(a: string, b: string, part: string, i: nat, j: nat, size: nat)
    requires Tight(a) && Tight(b) && '-' !in a && part == a + ['-'] + b
    requires ParseInt(a) == Some(i) && ParseInt(b) == Some(j)
    ensures ParsePart(part, size)
         == if i >= size then Beyond else if j < i then Malformed else Within(Range(i, Min(j, size - 1) - i + 1))
  {
    DashCuts(a, b);
    ParsePartOf(part, a, b, size);
  }

  lemma {:induction false} PartRoundTrip(r: Range, size: int)
    requires 0 <= r.start && 1 <= r.length && r.start + r.length <= size <= MAX_INT64
    ensures ParsePart(PrintRange(r), size) == Within(r)
  {
    var i, j := r.start, r.start + r.length - 1;
    ItoaParses(i);
    ItoaParses(j);
    ClosedOf(Itoa(i), Itoa(j), PrintRange(r), i, j, size);
  }

  lemma {:induction false} NoComma(r: Range)
    requires 0 <= r.start && 1 <= r.length
    ensures ',' !in PrintRange(r)
  {
    ItoaIsTight(r.start);
    ItoaIsTight(r.start + r.length - 1);
  }

  lemma {:induction false} PrintedParts(rs: seq<Range>)
    requires forall r :: r in rs ==> 0 <= r.start && 1 <= r.length
    requires rs != []
    ensures Split(Print(rs)[|PREFIX|..], ',') == Printed(rs)
  {
    forall i | 0 <= i < |rs|
      ensures ',' !in Printed(rs)[i]
    {
      NoComma(rs[i]);
    }
    SplitOfJoin(Printed(rs), ',');
    assert Print(rs)[|PREFIX|..] == Join(Printed(rs), ',');
  }

  lemma {:induction false} KeepAll(ps: seq<Part>, rs: seq<Range>)
    requires |ps| == |rs|
    requires forall i :: 0 <= i < |rs| ==> ps[i] == Within(rs[i])
    ensures Kept(ps) == rs && Answer(ps) == Ranges(rs)
  {
    if ps != [] {
      var n := |ps| - 1;
      KeepAll(ps[..n], rs[..n]);
      assert rs == rs[..n] + [rs[n]];
    }
  }

  lemma {:induction false} PrintedParse(rs: seq<Range>, size: int)
    requires size <= MAX_INT64
    requires forall r :: r in rs ==> 0 <= r.start && 1 <= r.length && r.start + r.length <= size
    ensures Answer(ParseParts(Printed(rs), size)) == Ranges(rs)
  {
    var ps := ParseParts(Printed(rs), size);
    forall i | 0 <= i < |rs|
      ensures ps[i] == Within(rs[i])
    {
      PartRoundTrip(rs[i], size);
    }
    KeepAll(ps, rs);
  }

  /** Printing a list of non-empty ranges of the content and parsing it gives the list back. */
  lemma {:induction false} RoundTrip(rs: seq<Range>, size: int)
    requires size <= MAX_INT64
    requires forall r :: r in rs ==> 0 <= r.start && 1 <= r.length && r.start + r.length <= size
    ensures Parsed(Print(rs), size) == Ranges(rs)
  {
    if rs != [] {
      PrintedParts(rs);
      PrintedParse(rs, size);
    }
  }

  // ---- errors ----

  predicate IsNumber(s: string) { ParseInt(s).Some? && ParseInt(s).value >= 0 }

  lemma {:induction false} CutIsThere(s: string, c: char)
    ensures Cut(s, c).Some? <==> c in s
    ensures Cut(s, c).Some? ==> s == Cut(s, c).value.0 + [c] + Cut(s, c).value.1 && c !in Cut(s, c).value.0
  {
    IndexIsFirst(s, c);
    if Cut(s, c).None? {
      assert s[..|s|] == s;
    }
  }

  /** A blank element is skipped. Another one is malformed if it has no dash, or no number before it, unless
      nothing stands there; if nothing does, if no unsigned number follows; and if what follows a start inside
      the content is not empty and not a number from the start on. It is beyond the content exactly if it
      starts there. */
  lemma {:induction false} ElementErrors(part: string, start: string, end: string, size: nat)
    requires '-' in Trim(part) ==> Cut(Trim(part), '-') == Some((start, end))
    ensures ParsePart(part, size) == Blank <==> Trim(part) == ""
    ensures var a, b := Trim(start), Trim(end);
      && (ParsePart(part, size) == Malformed <==>
           || (Trim(part) != "" && '-' !in part)
           || ('-' in part && a == "" && (b == "" || b[0] == '-' || !IsNumber(b)))
           || ('-' in part && a != "" && !IsNumber(a))
           || ('-' in part && IsNumber(a) && ParseInt(a).value < size && b != ""
               && (ParseInt(b).None? || ParseInt(b).value < ParseInt(a).value)))
      && (ParsePart(part, size) == Beyond <==> '-' in part && IsNumber(a) && ParseInt(a).value >= size)
  {
    DashIsKept(part);
    CutIsThere(part, '-');
    CutIsThere(Trim(part), '-');
  }

  lemma {:induction false} NothingKept(ps: seq<Part>)
    ensures Kept(ps) == [] <==> forall p :: p in ps ==> !p.Within?
  {
    if ps != [] {
      NothingKept(ps[..|ps| - 1]);
      assert ps == ps[..|ps| - 1] + [ps[|ps| - 1]];
    }
  }

  /** A header is rejected exactly if it does not begin as it must or one of its elements is malformed; it does
      not overlap exactly if none is, one is beyond the content and none is a range of it. */
  lemma {:induction false} ErrorsExactly(s: string, parts: seq<string>, size: int)
    requires PREFIX <= s ==> parts == Split(s[|PREFIX|..], ',')
    requires !(PREFIX <= s) ==> parts == []
    ensures Parsed(s, size) == Invalid <==>
      s != "" && (!(PREFIX <= s) || exists i :: 0 <= i < |parts| && ParsePart(parts[i], size) == Malformed)
    ensures Parsed(s, size) == NoOverlap <==>
      && (exists i :: 0 <= i < |parts| && ParsePart(parts[i], size) == Beyond)
      && forall i :: 0 <= i < |parts| ==> ParsePart(parts[i], size).Blank? || ParsePart(parts[i], size).Beyond?
  {
    var ps := ParseParts(parts, size);
    NothingKept(ps);
    assert forall i :: 0 <= i < |parts| ==> ps[i] == ParsePart(parts[i], size);
  }

  /** Such a header asks for everything from one place on. */
  lemma {:induction false} OpenHeader(i: nat, size: nat)
    requires i <= MAX_INT64
    ensures Parsed(PREFIX + (Itoa(i) + ['-']), size)
         == if i >= size then NoOverlap else Ranges([Range(i, size - i)])
  {
    var part := Itoa(i) + ['-'];
    var s := PREFIX + part;
    assert s[|PREFIX|..] == part;
    ItoaIsTight(i);
    NoCut(part, ',');
    OpenElement(i, size);
    ErrorsExactly(s, [part], size);
    if i < size {
      KeepAll(ParseParts([part], size), [Range(i, size - i)]);
    }
  }

  // ---- the fast form ----

  /** The first start, -1 for a suffix range, or nothing. */
  function FirstStart(header: string): Option<int> {
    if !(PREFIX <= header) then None else
    var rest := header[|PREFIX|..];
    var comma := Cut(rest, ',');
    var first := if comma.Some? then comma.value.0 else rest;
    var dash := Cut(first, '-');
    if dash.None? then None else
    var start := Trim(dash.value.0);
    if start == "" then Some(-1) else ParseInt(start)
  }

  lemma {:induction false} FirstPart(s: string)
    ensures var comma := Cut(s, ',');
      Split(s, ',')[0] == if comma.Some? then comma.value.0 else s
  {
  }

  lemma {:induction false} FirstKept(ps: seq<Part>)
    requires ps != [] && ps[0].Within?
    ensures Kept(ps) != [] && Kept(ps)[0] == ps[0].r
  {
    var n := |ps| - 1;
    if n > 0 {
      FirstKept(ps[..n]);
    } else {
      assert ps[..n] == [];
    }
  }

  lemma {:induction false} DashIsKept(part: string)
    ensures Cut(part, '-').Some? <==> Cut(Trim(part), '-').Some?
    ensures Cut(part, '-').Some? ==> Trim(Cut(part, '-').value.0) == Trim(Cut(Trim(part), '-').value.0)
  {
    if Cut(part, '-').Some? {
      TrimThenCut(part, '-');
    } else {
      IndexIsFirst(part, '-');
      assert part == part[..Index(part, '-')];
      TrimKeeps(part, '-');
      NoCut(Trim(part), '-');
    }
  }

  /** Whenever the parser accepts the header, the fast form answers what its first element says:
      the start of the first range, -1 for a suffix range, a start beyond the content, or nothing
      for an element that is blank. */
  lemma {:induction false} FastFormRefines(s: string, size: int)
    requires s != "" && size >= 0 && Parsed(s, size).Ranges?
    ensures var rs, fast := Parsed(s, size).rs, FirstStart(s);
      && (fast.Some? && 0 <= fast.value < size ==> rs != [] && rs[0].start == fast.value)
      && (fast == Some(-1) ==> rs != [] && rs[0].start + rs[0].length == size)
      && (fast.Some? ==> fast.value >= -1)
      && (fast == None <==> Trim(Split(s[|PREFIX|..], ',')[0]) == "")
  {
    var parts := Split(s[|PREFIX|..], ',');
    FirstPart(s[|PREFIX|..]);
    DashIsKept(parts[0]);
    var ps := ParseParts(parts, size);
    assert ps[0] == ParsePart(parts[0], size) && ps[0] != Malformed;
    if ps[0].Within? {
      FirstKept(ps);
    }
  }

  // ---- the size of the response ----

  const TWO63 := 0x8000_0000_0000_0000

  function Wrap64(x: int): int { Wrap(x, TWO63) }

  function Total(rs: seq<Range>): int {
    if rs == [] then 0 else Total(rs[..|rs| - 1]) + rs[|rs| - 1].length
  }

  method CorrectedSize(header: string, size: int) returns (n: int)
    ensures match Parsed(header, size)
      case Ranges(rs) => n == if rs == [] then size else Min(size, Wrap64(Total(rs)))
      case _ => n == size
  {
    n := size;
    var parsed := ParseRange(header, size);
    if parsed.Ranges? && |parsed.rs| > 0 {
      var rs, newSize := parsed.rs, 0;
      for k := 0 to |rs|
        invariant newSize == Wrap64(Total(rs[..k]))
      {
        assert rs[..k + 1][..k] == rs[..k];
        WrappedSum(Total(rs[..k]), rs[k].length, TWO63);
        newSize := Wrap64(newSize + rs[k].length);
      }
      assert rs[..|rs|] == rs;
      if newSize < size {
        n := newSize;
      }
    }
  }

  lemma {:induction false} TotalIsBounded(rs: seq<Range>, size: int)
    requires forall r :: r in rs ==> Inside(r, size)
    ensures 0 <= Total(rs) <= |rs| * size
  {
    if rs != [] {
      TotalIsBounded(rs[..|rs| - 1], size);
      assert Inside(rs[|rs| - 1], size);
    }
  }

  lemma {:induction false} MinOfWrapped(total: nat, size: nat)
    requires size <= MAX_INT64
    ensures Min(size, Wrap64(total)) == Min(size, total) <==> total < TWO63 || Wrap64(total) >= size
    ensures total < TWO63 ==> Wrap64(total) == total
  {
  }

  /** The corrected size is the smaller of the size and the sum of the lengths, and so lies in
      [0, size], unless the sum passes the 64 bits; then it is that only if the wrapped sum is
      large enough not to be taken. */
  lemma {:induction false} CorrectedSizeIsMin(s: string, size: int)
    requires 0 <= size <= MAX_INT64 && Parsed(s, size).Ranges?
    ensures var rs := Parsed(s, size).rs; var total := Total(rs);
      && (Min(size, Wrap64(total)) == Min(size, total) <==> total < TWO63 || Wrap64(total) >= size)
      && (total < TWO63 ==> 0 <= Min(size, Wrap64(total)) <= size)
      && (|rs| * size < TWO63 ==> total < TWO63)
  {
    RangesAreInside(s, size);
    var rs := Parsed(s, size).rs;
    TotalIsBounded(rs, size);
    MinOfWrapped(Total(rs), size);
  }

  lemma {:induction false} TotalOfTwo(a: Range, b: Range)
    ensures Total([a, b]) == a.length + b.length
  {
    assert [a, b][..1] == [a] && [a][..0] == [];
    assert Total([a]) == a.length;
  }

  lemma {:induction false} TwiceIsTooMuch(rs: seq<Range>, all: Range)
    requires all == Range(0, TWO63 / 2) && rs == [all, all]
    ensures Min(all.length, Wrap64(Total(rs))) == -TWO63
  {
    TotalOfTwo(all, all);
  }

  /** Asking twice for a whole content of 2^62 bytes makes the size negative. */
  lemma {:induction false} SizeMayTurnNegative(all: Range)
    requires all == Range(0, TWO63 / 2)
    ensures Parsed(Print([all, all]), all.length) == Ranges([all, all])
    ensures Min(all.length, Wrap64(Total([all, all]))) == -TWO63
  {
    RoundTrip([all, all], all.length);
    TwiceIsTooMuch([all, all], all);
  }
}
