/** Code previews by line range (internal/codepreview/resolver.go), from the bytes of the
    file and the URL's fragment on. Characters stand for bytes. */
module Preview {
  import opened Lines
  import opened Outcomes

  datatype Error = InvalidAnchor | Binary | RangeTooBig | OutOfRange

  datatype View = View(content: string, startLine: int, endLine: int, totalLines: int, truncated: bool)

  const MAX_FILE_BYTES := 512000
  const BINARY_SNIFF_BYTES := 512
  const MAX_LINE_RANGE := 500
  const INT_LIMIT := 0x8000_0000_0000_0000

  // ---- Anchors --------------------------------------------------------------

  predicate IsDigit(c: char) {
    '0' <= c <= '9'
  }

  predicate AllDigits(s: string) {
    forall i :: 0 <= i < |s| ==> IsDigit(s[i])
  }

  function DigitValue(c: char): nat
    requires IsDigit(c)
  {
    c as int - '0' as int
  }

  function Value(s: string): nat
    requires AllDigits(s)
  {
    if s == "" then 0
    else
      assert IsDigit(s[|s| - 1]);
      10 * Value(s[..|s| - 1]) + DigitValue(s[|s| - 1])
  }

  /** strconv.Atoi on 64 bits: an optional sign, then decimal digits only. */
  function Atoi(s: string): (r: Option<int>)
    ensures r.Some? ==> -INT_LIMIT <= r.value < INT_LIMIT
  {
    var signed := s != "" && (s[0] == '+' || s[0] == '-');
    var digits := if signed then s[1..] else s;
    if digits == "" || !AllDigits(digits) then None
    else
      var n: int := if signed && s[0] == '-' then 0 - Value(digits) else Value(digits);
      if -INT_LIMIT <= n < INT_LIMIT then Some(n) else None
  }

  /** Where `t` first occurs in `s`, or |s| + 1. */
  function Index(s: string, t: string): (k: nat)
    ensures k <= |s| ==> |t| <= |s| - k && s[k..k + |t|] == t
  {
    if |s| < |t| then |s| + 1
    else if s[..|t|] == t then 0
    else if s == "" then 1
    else
      var k := Index(s[1..], t);
      assert k <= |s| - 1 ==> s[1..][k..k + |t|] == s[k + 1..k + 1 + |t|];
      k + 1
  }

  function Positive(s: string): Result<int, Error> {
    var n := Atoi(s);
    if n.None? || n.value < 1 then Err(InvalidAnchor) else Ok(n.value)
  }

  /** (0, 0) stands for no anchor. */
  function ParseAnchor(fragment: string): (r: Result<(int, int), Error>)
    ensures r.Ok? ==> (fragment == "" && r.value == (0, 0)) || 1 <= r.value.0 <= r.value.1 < INT_LIMIT
  {
    if fragment == "" then Ok((0, 0))
    else if fragment[0] != 'L' then Err(InvalidAnchor)
    else
      var rest := fragment[1..];
      var k := Index(rest, "-L");
      if k <= |rest| then
        var start, end := Positive(rest[..k]), Positive(rest[k + 2..]);
        if start.Err? || end.Err? || end.value < start.value then Err(InvalidAnchor) else Ok((start.value, end.value))
      else
        var n := Positive(rest);
        if n.Err? then Err(InvalidAnchor) else Ok((n.value, n.value))
  }

  function Digits(n: nat): (s: string)
    ensures s != "" && AllDigits(s)
  {
    if n < 10 then [('0' as int + n) as char] else Digits(n / 10) + Digits(n % 10)
  }

  lemma {:induction false} ValueOfDigits(n: nat)
    ensures Value(Digits(n)) == n
  {
    if n >= 10 {
      ValueOfDigits(n / 10);
      assert Digits(n)[..|Digits(n)| - 1] == Digits(n / 10);
    } else {
      assert Digits(n)[..0] == "";
    }
  }

  lemma AtoiOfDigits(n: nat)
    requires n < INT_LIMIT
    ensures Atoi(Digits(n)) == Some(n)
  {
    ValueOfDigits(n);
    assert IsDigit(Digits(n)[0]);
  }

  /** A dash first occurs where it is put after a text without one. */
  lemma {:induction false} IndexOfDash(s: string, t: string)
    requires '-' !in s
    ensures Index(s + "-L" + t, "-L") == |s|
    ensures Index(s, "-L") == |s| + 1
  {
    var whole := s + "-L" + t;
    if s == "" {
      assert whole[..2] == "-L";
    } else {
      IndexOfDash(s[1..], t);
      assert whole[1..] == s[1..] + "-L" + t;
      assert whole[..2][0] == s[0];
      assert |s| >= 2 ==> s[..2][0] == s[0];
    }
  }

  lemma ParseRange(a: string, b: string)
    requires '-' !in a
    ensures ParseAnchor("L" + a + "-L" + b) ==
      var start, end := Positive(a), Positive(b);
      if start.Err? || end.Err? || end.value < start.value then Err(InvalidAnchor) else Ok((start.value, end.value))
  {
    IndexOfDash(a, b);
    var rest := a + "-L" + b;
    assert ("L" + a + "-L" + b)[1..] == rest;
    assert rest[..|a|] == a && rest[|a| + 2..] == b;
  }

  lemma ParseLine(a: string)
    requires '-' !in a
    ensures ParseAnchor("L" + a) == var n := Positive(a); if n.Err? then Err(InvalidAnchor) else Ok((n.value, n.value))
  {
    IndexOfDash(a, "");
    assert ("L" + a)[1..] == a;
  }

  /** Decimal digits, with or without a plus sign, for a positive number of 63 bits. */
  ghost predicate IsNumeral(s: string, n: int) {
    && 1 <= n < 0x8000_0000_0000_0000
    && exists digits :: digits != "" && AllDigits(digits) && Value(digits) == n && (s == digits || s == "+" + digits)
  }

  lemma PositiveIff(s: string, n: int)
    ensures Positive(s) == Ok(n) <==> IsNumeral(s, n)
  {
    if Positive(s) == Ok(n) {
      var signed := s[0] == '+' || s[0] == '-';
      var digits := if signed then s[1..] else s;
      assert s == if signed then [s[0]] + s[1..] else s;
      assert digits != "" && AllDigits(digits) && Value(digits) == n;
    }
    if IsNumeral(s, n) {
      var digits :| digits != "" && AllDigits(digits) && Value(digits) == n && (s == digits || s == "+" + digits);
      assert IsDigit(digits[0]) && ("+" + digits)[1..] == digits;
    }
  }

  lemma NumeralHasNoDash(s: string, n: int)
    requires IsNumeral(s, n)
    ensures '-' !in s
  {
    var digits :| digits != "" && AllDigits(digits) && Value(digits) == n && (s == digits || s == "+" + digits);
  }

  ghost predicate IsLineAnchor(fragment: string, x: string, n: int) {
    fragment == "L" + x && IsNumeral(x, n)
  }

  ghost predicate IsRangeAnchor(fragment: string, x: string, y: string, start: int, end: int) {
    fragment == "L" + x + "-L" + y && IsNumeral(x, start) && IsNumeral(y, end)
  }

  lemma CutAt(rest: string, k: nat)
    requires k + 2 <= |rest| && rest[k..k + 2] == "-L"
    ensures rest == rest[..k] + "-L" + rest[k + 2..]
  {
    assert rest == rest[..k] + rest[k..k + 2] + rest[k + 2..];
  }

  lemma RangeParts(fragment: string, rest: string, k: nat, start: int, end: int)
    requires fragment == "L" + rest && k + 2 <= |rest| && rest[k..k + 2] == "-L"
    requires Positive(rest[..k]) == Ok(start) && Positive(rest[k + 2..]) == Ok(end)
    ensures IsRangeAnchor(fragment, rest[..k], rest[k + 2..], start, end)
  {
    CutAt(rest, k);
    Joined(fragment, rest, rest[..k], rest[k + 2..]);
    PositiveIff(rest[..k], start);
    PositiveIff(rest[k + 2..], end);
  }

  lemma LinePart(fragment: string, rest: string, start: int)
    requires fragment == "L" + rest && Positive(rest) == Ok(start)
    ensures IsLineAnchor(fragment, rest, start)
  {
    PositiveIff(rest, start);
  }

  /** The parts of an accepted fragment, and whether it has the dash. */
  lemma ReadParts(fragment: string, start: int, end: int) returns (rest: string, k: nat, ranged: bool)
    requires ParseAnchor(fragment) == Ok((start, end)) && fragment != ""
    ensures fragment == "L" + rest
    ensures ranged ==> k + 2 <= |rest| && rest[k..k + 2] == "-L"
    ensures ranged ==> Positive(rest[..k]) == Ok(start) && Positive(rest[k + 2..]) == Ok(end) && start <= end
    ensures !ranged ==> Positive(rest) == Ok(start) && start == end
  {
    rest := fragment[1..];
    k := Index(rest, "-L");
    ranged := k <= |rest|;
  }

  lemma AnchorParts(fragment: string, start: int, end: int)
    requires ParseAnchor(fragment) == Ok((start, end)) && fragment != ""
    ensures start <= end
    ensures (start == end && exists x :: IsLineAnchor(fragment, x, start))
         || exists x, y :: IsRangeAnchor(fragment, x, y, start, end)
  {
    var rest, k, ranged := ReadParts(fragment, start, end);
    if ranged {
      RangeParts(fragment, rest, k, start, end);
    } else {
      LinePart(fragment, rest, start);
    }
  }

  lemma Joined(fragment: string, rest: string, x: string, y: string)
    requires fragment == "L" + rest && rest == x + "-L" + y
    ensures fragment == "L" + x + "-L" + y
  {
  }

  /** A fragment is accepted if and only if it is L and a line number, or L and two numbers
      in order with "-L" between them. */
  lemma AnchorIff(fragment: string, start: int, end: int)
    requires fragment != ""
    ensures ParseAnchor(fragment) == Ok((start, end)) <==>
      || (start == end && exists x :: IsLineAnchor(fragment, x, start))
      || (start <= end && exists x, y :: IsRangeAnchor(fragment, x, y, start, end))
  {
    if ParseAnchor(fragment) == Ok((start, end)) {
      AnchorParts(fragment, start, end);
    }
    if start == end {
      if x :| IsLineAnchor(fragment, x, start) {
        NumeralHasNoDash(x, start);
        ParseLine(x);
        PositiveIff(x, start);
      }
    }
    if start <= end {
      if x, y :| IsRangeAnchor(fragment, x, y, start, end) {
        NumeralHasNoDash(x, start);
        ParseRange(x, y);
        PositiveIff(x, start);
        PositiveIff(y, end);
      }
    }
  }

  /** Anchors as links are written, L<n> and L<start>-L<end>, are read back. */
  lemma AnchorRoundTrip(start: nat, end: nat)
    requires 1 <= start <= end < INT_LIMIT
    ensures ParseAnchor("L" + Digits(start) + "-L" + Digits(end)) == Ok((start, end))
    ensures ParseAnchor("L" + Digits(start)) == Ok((start, start))
  {
    AtoiOfDigits(start);
    AtoiOfDigits(end);
    assert !IsDigit('-') && forall c :: c in Digits(start) ==> IsDigit(c);
    ParseRange(Digits(start), Digits(end));
    ParseLine(Digits(start));
  }

  // ---- Lines ----------------------------------------------------------------

  /** bytes.ReplaceAll of "\r\n" by "\n". */
  function Unify(s: string): (u: string)
    ensures |u| <= |s|
  {
    if |s| < 2 then s
    else if s[0] == '\r' && s[1] == '\n' then "\n" + Unify(s[2..])
    else [s[0]] + Unify(s[1..])
  }

  predicate CrLfAt(s: string, i: nat) {
    i + 1 < |s| && s[i] == '\r' && s[i + 1] == '\n'
  }

  ghost predicate HasCrLf(s: string) {
    exists i :: CrLfAt(s, i)
  }

  predicate EndsInNewline(s: string) {
    s != "" && s[|s| - 1] == '\n'
  }

  function DropNewline(s: string): string {
    if EndsInNewline(s) then s[..|s| - 1] else s
  }

  /** The lines of a file; a final newline ends its last line. */
  function FileLines(raw: string): (ls: seq<string>)
    ensures ls != [] && AllOneLine(ls)
  {
    SplitLines(Unify(DropNewline(raw)))
  }

  lemma {:induction false} UnifyChangesIff(s: string)
    ensures Unify(s) == s <==> !HasCrLf(s)
    ensures HasCrLf(s) ==> |Unify(s)| < |s|
  {
    if |s| >= 2 {
      if s[0] == '\r' && s[1] == '\n' {
        assert CrLfAt(s, 0);
      } else {
        UnifyChangesIff(s[1..]);
        assert s == [s[0]] + s[1..];
        assert forall i: nat :: CrLfAt(s[1..], i) ==> CrLfAt(s, i + 1);
        if HasCrLf(s) {
          var i: nat :| CrLfAt(s, i);
          assert CrLfAt(s[1..], i - 1);
        }
      }
    }
  }

  function DropCr(line: string): string {
    if line != "" && line[|line| - 1] == '\r' then line[..|line| - 1] else line
  }

  /** Every line but the last one without its carriage return. */
  function WithoutCrs(ls: seq<string>): (r: seq<string>)
    ensures |r| == |ls| && forall i :: 0 <= i < |ls| ==> r[i] == if i < |ls| - 1 then DropCr(ls[i]) else ls[i]
  {
    seq(|ls|, i requires 0 <= i < |ls| => if i < |ls| - 1 then DropCr(ls[i]) else ls[i])
  }

  lemma CrsOfMore(first: string, ls: seq<string>)
    requires ls != []
    ensures WithoutCrs([first] + ls) == [DropCr(first)] + WithoutCrs(ls)
  {
  }

  lemma CrsOfLonger(c: char, ls: seq<string>)
    requires ls != [] && (c == '\r' && |ls| > 1 ==> ls[0] != "")
    ensures WithoutCrs([[c] + ls[0]] + ls[1..]) == [[c] + WithoutCrs(ls)[0]] + WithoutCrs(ls)[1..]
  {
    assert ls[0] != "" ==> DropCr([c] + ls[0]) == [c] + DropCr(ls[0]);
  }

  lemma FirstLineEmpty(s: string)
    requires |SplitLines(s)| > 1 && SplitLines(s)[0] == ""
    ensures s != "" && s[0] == '\n'
  {
  }

  lemma CrFirst(ls: seq<string>)
    ensures ([""] + ls)[0] == "" && ([""] + ls)[1..] == ls
    ensures [['\r'] + ([""] + ls)[0]] + ([""] + ls)[1..] == ["\r"] + ls
  {
    assert ['\r'] + "" == "\r";
  }

  /** Normalising line ends takes one carriage return off every line that is ended. */
  lemma {:induction false} UnifyLines(s: string)
    ensures SplitLines(Unify(s)) == WithoutCrs(SplitLines(s))
  {
    if |s| < 2 {
      assert s != "" ==> s == [s[0]] && s[1..] == "";
    } else if s[0] == '\r' && s[1] == '\n' {
      UnifyLines(s[2..]);
      SplitHead('\n', Unify(s[2..]));
      assert s == ['\r'] + (['\n'] + s[2..]);
      SplitHead('\n', s[2..]);
      SplitHead('\r', ['\n'] + s[2..]);
      CrsOfMore("\r", SplitLines(s[2..]));
      CrFirst(SplitLines(s[2..]));
    } else {
      UnifyLines(s[1..]);
      UnifyFirst(s[0], s[1..]);
      assert s == [s[0]] + s[1..];
    }
  }

  lemma UnifyFirst(c: char, s: string)
    requires s != "" && !(c == '\r' && s[0] == '\n') && SplitLines(Unify(s)) == WithoutCrs(SplitLines(s))
    ensures SplitLines([c] + Unify(s)) == WithoutCrs(SplitLines([c] + s))
  {
    SplitHead(c, Unify(s));
    SplitHead(c, s);
    if c == '\n' {
      CrsOfMore("", SplitLines(s));
    } else {
      if |SplitLines(s)| > 1 && SplitLines(s)[0] == "" {
        FirstLineEmpty(s);
      }
      CrsOfLonger(c, SplitLines(s));
    }
  }

  /** The lines of a file are those between its newlines, each without the carriage return
      before its newline; a newline at the very end begins no further line, and a carriage
      return before that one stays. */
  lemma FileLinesAre(raw: string)
    ensures FileLines(raw) == WithoutCrs(SplitLines(if EndsInNewline(raw) then raw[..|raw| - 1] else raw))
  {
    UnifyLines(DropNewline(raw));
  }

  method SplitFile(raw: string) returns (ls: seq<string>)
    ensures ls == FileLines(raw)
  {
    if |raw| == 0 {
      return [""];
    }
    var trimmed := raw;
    if trimmed[|trimmed| - 1] == '\n' {
      trimmed := trimmed[..|trimmed| - 1];
    }
    var unified := Unify(trimmed);
    ls := SplitLines(unified);
  }

  // ---- Previews -------------------------------------------------------------

  /** The part of the file that is read. */
  function Head(file: string): string {
    if |file| <= MAX_FILE_BYTES then file else file[..MAX_FILE_BYTES]
  }

  predicate LooksBinary(raw: string) {
    '\0' in (if |raw| < BINARY_SNIFF_BYTES then raw else raw[..BINARY_SNIFF_BYTES])
  }

  /** Lines start..end, counted from 1. */
  function Slice(ls: seq<string>, start: nat, end: nat): string
    requires 1 <= start <= end <= |ls|
  {
    JoinLines(ls[start - 1..end])
  }

  /** What Resolve shows of a whole file that it has read to the end. */
  function FullContent(raw: string): string {
    Slice(FileLines(raw), 1, |FileLines(raw)|) + if EndsInNewline(raw) then "\n" else ""
  }

  /** `probe` says whether the read past the cap went through. */
  method Resolve(file: string, fragment: string, probe: bool) returns (r: Result<View, Error>)
    ensures var anchor, ls := ParseAnchor(fragment), FileLines(if |file| <= 512_000 then file else file[..512_000]);
      && (anchor.Err? ==> r == Err(InvalidAnchor))
      && (anchor.Ok? && (exists i :: 0 <= i < |file| && i < 512 && file[i] == '\0') <==> r == Err(Binary))
      && (anchor.Ok? && !LooksBinary(Head(file)) ==>
            var (start, end) := anchor.value;
            if start == 0 then r.Ok? && r.value.startLine == 1 && r.value.endLine == |ls|
            else if end - start + 1 > 500 then r == Err(RangeTooBig)
            else if end > |ls| then r == Err(OutOfRange)
            else r.Ok? && r.value.startLine == start && r.value.endLine == end)
    ensures r.Ok? ==>
      var v, ls := r.value, FileLines(Head(file));
      var whole := v.startLine == 1 && v.endLine == |ls|;
      && 1 <= v.startLine <= v.endLine <= |ls|
      && (whole && !v.truncated ==> v.content == FullContent(Head(file)))
      && v.totalLines == |ls| && (v.truncated <==> probe && |file| > 512_000)
      && v.content == Slice(ls, v.startLine, v.endLine)
                    + if !v.truncated && whole && EndsInNewline(Head(file)) then "\n" else ""
  {
    var anchor := ParseAnchor(fragment);
    if anchor.Err? {
      return Err(InvalidAnchor);
    }
    var (start, end) := anchor.value;
    var raw := Head(file);
    var truncated := false;
    if |raw| == MAX_FILE_BYTES {
      truncated := probe && |file| > MAX_FILE_BYTES;
    }
    if LooksBinary(raw) {
      return Err(Binary);
    }
    var lines := SplitFile(raw);
    var totalLines := |lines|;
    if start == 0 {
      start, end := 1, totalLines;
    } else {
      if end - start + 1 > MAX_LINE_RANGE {
        return Err(RangeTooBig);
      }
      if start > totalLines || end > totalLines {
        return Err(OutOfRange);
      }
    }
    var content := JoinLines(lines[start - 1..end]);
    if !truncated && start == 1 && end == totalLines && |raw| > 0 && raw[|raw| - 1] == '\n' {
      content := content + "\n";
    }
    assert JoinLines(lines[start - 1..end]) + "" == JoinLines(lines[start - 1..end]);
    r := Ok(View(content, start, end, totalLines, truncated));
  }

  /** A full preview is the file, byte for byte, exactly when the file has no "\r\n" before
      its final newline: a file whose only "\r\n" ends it is still shown as it is. */
  lemma FullPreviewIsFileIff(raw: string)
    ensures FullContent(raw) == raw <==> !HasCrLf(DropNewline(raw))
  {
    var body := DropNewline(raw);
    var ls := FileLines(raw);
    JoinSplit(Unify(body));
    assert ls[1 - 1..|ls|] == ls;
    UnifyChangesIff(body);
    assert raw == body + if EndsInNewline(raw) then "\n" else "";
    if HasCrLf(body) {
      assert |FullContent(raw)| < |raw|;
    }
  }

  /** A range comes back as exactly its end - start + 1 lines. */
  lemma RangeHasItsLines(raw: string, start: nat, end: nat)
    requires 1 <= start <= end <= |FileLines(raw)|
    ensures SplitLines(Slice(FileLines(raw), start, end)) == FileLines(raw)[start - 1..end]
  {
    SliceSplits(FileLines(raw), start, end);
  }

  lemma SliceSplits(ls: seq<string>, start: nat, end: nat)
    requires AllOneLine(ls) && 1 <= start <= end <= |ls|
    ensures SplitLines(Slice(ls, start, end)) == ls[start - 1..end]
  {
    SplitJoin(ls[start - 1..end]);
  }

  /** Cut points after `from`, the last of n lines at most. */
  predicate AreCuts(n: nat, from: nat, cuts: seq<nat>)
    decreases |cuts|
  {
    cuts == [] || (from < cuts[0] <= n && AreCuts(n, cuts[0], cuts[1..]))
  }

  /** The ranges between the cut points, the first from line `from` + 1 on. */
  function Pieces(ls: seq<string>, from: nat, cuts: seq<nat>): seq<string>
    requires AreCuts(|ls|, from, cuts)
    decreases |cuts|
  {
    if cuts == [] then [] else [Slice(ls, from + 1, cuts[0])] + Pieces(ls, cuts[0], cuts[1..])
  }

  lemma {:induction false} CutsGrow(n: nat, from: nat, cuts: seq<nat>)
    requires cuts != [] && AreCuts(n, from, cuts)
    ensures from < cuts[0] <= cuts[|cuts| - 1] <= n
    decreases |cuts|
  {
    if |cuts| > 1 {
      CutsGrow(n, cuts[0], cuts[1..]);
    }
  }

  lemma SliceSum(ls: seq<string>, from: nat, mid: nat, end: nat)
    requires from < mid < end <= |ls|
    ensures Slice(ls, from + 1, end) == Slice(ls, from + 1, mid) + "\n" + Slice(ls, mid + 1, end)
  {
    JoinSum(ls[from..mid], ls[mid..end]);
    assert ls[from..end] == ls[from..mid] + ls[mid..end];
  }

  /** Adjacent ranges, joined by newlines, give back the range they cover. */
  lemma {:induction false} RangesRebuild(ls: seq<string>, from: nat, cuts: seq<nat>)
    requires cuts != [] && AreCuts(|ls|, from, cuts)
    ensures from < cuts[|cuts| - 1] <= |ls|
    ensures JoinLines(Pieces(ls, from, cuts)) == Slice(ls, from + 1, cuts[|cuts| - 1])
    decreases |cuts|
  {
    CutsGrow(|ls|, from, cuts);
    if |cuts| == 1 {
      assert Pieces(ls, cuts[0], cuts[1..]) == [];
    } else {
      var first, rest := Slice(ls, from + 1, cuts[0]), Pieces(ls, cuts[0], cuts[1..]);
      RangesRebuild(ls, cuts[0], cuts[1..]);
      JoinHead(first, rest);
      SliceSum(ls, from, cuts[0], cuts[|cuts| - 1]);
    }
  }

  /** Cutting a file into ranges and joining what they show gives the full preview, but
      for the file's final newline. */
  lemma WholeFileFromRanges(raw: string, cuts: seq<nat>)
    requires cuts != [] && cuts[|cuts| - 1] == |FileLines(raw)| && AreCuts(|FileLines(raw)|, 0, cuts)
    ensures JoinLines(Pieces(FileLines(raw), 0, cuts)) + (if EndsInNewline(raw) then "\n" else "") == FullContent(raw)
  {
    RangesRebuild(FileLines(raw), 0, cuts);
  }
}
