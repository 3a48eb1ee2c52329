/** The one-pass Markdown block splitter (internal/history/differ.go), a simplified
    form of ATX headings and fenced code blocks (sections 4.2 and 4.5 of CommonMark 0.31). */
module Splitter {
  import opened Blocks
  import opened Lines

  // ---- Kinds of lines -----------------------------------------------------

  predicate HasPrefix(s: string, p: string) {
    |p| <= |s| && s[..|p|] == p
  }

  function Hashes(s: string, i: nat): (level: nat)
    requires i <= |s|
    ensures i <= level <= |s|
    decreases |s| - i
  {
    if i < |s| && s[i] == '#' then Hashes(s, i + 1) else i
  }

  datatype HeadingLine = NotHeading | HeadingLine(level: nat, rest: string)

  function ParseHeading(s: string): HeadingLine {
    var level := Hashes(s, 0);
    if level == 0 || level > 6 then NotHeading
    else if level < |s| && s[level] != ' ' then NotHeading
    else HeadingLine(level, if level < |s| then s[level + 1..] else "")
  }

  function Digits(s: string, i: nat): (end: nat)
    requires i <= |s|
    ensures i <= end <= |s|
    decreases |s| - i
  {
    if i < |s| && '0' <= s[i] <= '9' then Digits(s, i + 1) else i
  }

  predicate IsListMarker(s: string) {
    || (|s| > 1 && (s[0] == '-' || s[0] == '*' || s[0] == '+') && s[1] == ' ')
    || (var i := Digits(s, 0); 0 < i && i + 1 < |s| && s[i] == '.' && s[i + 1] == ' ')
  }

  predicate IsFence(s: string) {
    |s| >= 3 && (s[0] == s[1] == s[2] == '`' || s[0] == s[1] == s[2] == '~')
  }

  // ---- Where a block ends -------------------------------------------------

  datatype Scan = FrontScan | FenceScan(fence: string) | ListScan | ParagraphScan

  /** Whether a line ends the scan for the end of a block. */
  ghost predicate Stops(scan: Scan, line: string) {
    var t := Trim(line);
    match scan
    case FrontScan => t == "---"
    case FenceScan(fence) => HasPrefix(t, fence)
    case ListScan => t == "" || !(IsListMarker(t) || (line != "" && (line[0] == ' ' || line[0] == '\t')))
    case ParagraphScan => t == "" || ParseHeading(t).HeadingLine? || IsFence(t) || IsListMarker(t)
  }

  ghost predicate IsFirstStop(ls: seq<string>, j: nat, scan: Scan, k: nat) {
    && j <= k <= |ls| && (k < |ls| ==> Stops(scan, ls[k]))
    && forall i {:trigger Stops(scan, ls[i])} :: j <= i < k ==> !Stops(scan, ls[i])
  }

  lemma {:induction false} FirstStopExists(ls: seq<string>, j: nat, scan: Scan) returns (k: nat)
    requires j <= |ls|
    ensures IsFirstStop(ls, j, scan, k)
    decreases |ls| - j
  {
    k := j;
    if j < |ls| && !Stops(scan, ls[j]) {
      k := FirstStopExists(ls, j + 1, scan);
    }
  }

  /** The first line at or after `j` that stops the scan; |ls| if none does. */
  ghost function FirstStop(ls: seq<string>, j: nat, scan: Scan): (k: nat)
    requires j <= |ls|
    ensures IsFirstStop(ls, j, scan, k)
  {
    assert exists k: nat :: IsFirstStop(ls, j, scan, k) by { var k := FirstStopExists(ls, j, scan); }
    var k: nat :| IsFirstStop(ls, j, scan, k);
    k
  }

  lemma FirstStopIs(ls: seq<string>, j: nat, scan: Scan, k: nat)
    requires IsFirstStop(ls, j, scan, k)
    ensures FirstStop(ls, j, scan) == k
  {
    var k' := FirstStop(ls, j, scan);
    assert k < |ls| ==> Stops(scan, ls[k]);
    assert k' < |ls| ==> Stops(scan, ls[k']);
  }

  /** How many lines the block starting at the first line takes up. */
  ghost function Extent(ls: seq<string>): (j: nat)
    requires ls != []
    ensures 1 <= j <= |ls|
  {
    var t := Trim(ls[0]);
    if ParseHeading(t).HeadingLine? then 1
    else if IsFence(t) then
      var k := FirstStop(ls, 1, FenceScan(t[..3]));
      if k < |ls| then k + 1 else k
    else FirstStop(ls, 1, if IsListMarker(t) then ListScan else ParagraphScan)
  }

  /** The block starting at the first line, given the heading text in force. */
  ghost function BlockAt(ls: seq<string>, section: string): Block
    requires ls != []
  {
    var t, raw := Trim(ls[0]), JoinLines(ls[..Extent(ls)]);
    var h := ParseHeading(t);
    if h.HeadingLine? then Block(Heading, h.level, t, Trim(h.rest), "")
    else if IsFence(t) then Block(CodeFence, 0, raw, section, Trim(t[3..]))
    else Block(if IsListMarker(t) then ListItem else Paragraph, 0, Trim(raw), section, "")
  }

  /** The blocks of a document body. */
  ghost function Body(ls: seq<string>, section: string): seq<Block>
    decreases |ls|
  {
    if ls == [] then []
    else if Trim(ls[0]) == "" then Body(ls[1..], section)
    else
      var b := BlockAt(ls, section);
      [b] + Body(ls[Extent(ls)..], b.section)
  }

  /** Lines of front matter at the top of a document; 0 if there is none. */
  ghost function FrontExtent(ls: seq<string>): (j: nat)
    requires ls != []
    ensures j <= |ls|
  {
    if Trim(ls[0]) != "---" then 0
    else
      var k := FirstStop(ls, 1, FrontScan);
      if k < |ls| then k + 1 else 0
  }

  function Front(own: seq<string>): Block {
    Block(Frontmatter, 0, JoinLines(own), "", "")
  }

  ghost function SplitDocument(ls: seq<string>): seq<Block>
    requires ls != []
  {
    var j := FrontExtent(ls);
    if j == 0 then Body(ls, "")
    else [Front(ls[..j])] + Body(ls[j..], "")
  }

  ghost function Split(content: string): seq<Block> {
    SplitDocument(SplitLines(content))
  }

  // ---- The program --------------------------------------------------------

  method LineStops(scan: Scan, line: string) returns (stops: bool)
    ensures stops == Stops(scan, line)
  {
    var t := TrimSpace(line);
    match scan
    case FrontScan => stops := t == "---";
    case FenceScan(fence) => stops := HasPrefix(t, fence);
    case ListScan =>
      stops := t == "" || !(IsListMarker(t) || (line != "" && (line[0] == ' ' || line[0] == '\t')));
    case ParagraphScan =>
      stops := t == "" || ParseHeading(t).HeadingLine? || IsFence(t) || IsListMarker(t);
  }

  method ScanTo(lines: seq<string>, start: nat, scan: Scan) returns (j: nat)
    requires start <= |lines|
    ensures j == FirstStop(lines, start, scan)
  {
    j := start;
    while j < |lines|
      invariant start <= j <= |lines|
      invariant forall i :: start <= i < j ==> !Stops(scan, lines[i])
    {
      var stops := LineStops(scan, lines[j]);
      if stops {
        break;
      }
      j := j + 1;
    }
    FirstStopIs(lines, start, scan, j);
  }

  method BlockExtent(ls: seq<string>, trimmed: string) returns (j: nat)
    requires ls != [] && trimmed == Trim(ls[0])
    ensures j == Extent(ls)
  {
    if ParseHeading(trimmed).HeadingLine? {
      return 1;
    }
    if IsFence(trimmed) {
      j := ScanTo(ls, 1, FenceScan(trimmed[..3]));
      if j < |ls| {
        j := j + 1;
      }
      return;
    }
    j := ScanTo(ls, 1, if IsListMarker(trimmed) then ListScan else ParagraphScan);
  }

  /** The block at the front of the remaining lines, and how many lines it takes up. */
  method TakeBlock(ls: seq<string>, trimmed: string, section: string) returns (b: Block, j: nat)
    requires ls != [] && trimmed == Trim(ls[0])
    ensures j == Extent(ls) && b == BlockAt(ls, section)
  {
    j := BlockExtent(ls, trimmed);
    var heading := ParseHeading(trimmed);
    if heading.HeadingLine? {
      var text := TrimSpace(heading.rest);
      return Block(Heading, heading.level, trimmed, text, ""), j;
    }
    var raw := JoinLines(ls[..j]);
    if IsFence(trimmed) {
      var lang := TrimSpace(trimmed[3..]);
      return Block(CodeFence, 0, raw, section, lang), j;
    }
    raw := TrimSpace(raw);
    b := Block(if IsListMarker(trimmed) then ListItem else Paragraph, 0, raw, section, "");
  }

  method SplitBlocks(content: string) returns (blocks: seq<Block>)
    ensures blocks == Split(content)
  {
    var lines := SplitLines(content);
    var i, n := 0, |lines|;
    blocks := [];
    var first := TrimSpace(lines[0]);
    if first == "---" {
      var j := ScanTo(lines, 1, FrontScan);
      if j < n {
        blocks := [Block(Frontmatter, 0, JoinLines(lines[..j + 1]), "", "")];
        i := j + 1;
      }
    }
    var body := SplitBody(lines, i);
    assert i == 0 ==> lines[i..] == lines;
    blocks := blocks + body;
  }

  method SplitBody(lines: seq<string>, start: nat) returns (blocks: seq<Block>)
    requires start <= |lines|
    ensures blocks == Body(lines[start..], "")
  {
    blocks := [];
    var currentSection := "";
    var i := start;
    ghost var rest := Body(lines[start..], "");
    ghost var goal := rest;
    while i < |lines|
      invariant start <= i && Remains(lines, i, currentSection, rest)
      invariant blocks + rest == goal
    {
      var bs;
      ghost var before := rest;
      bs, i, currentSection, rest := Turn(lines, i, currentSection, rest);
      MoveOver(blocks, bs, rest, before);
      blocks := blocks + bs;
    }
    NothingLeft(lines, i, currentSection, rest);
  }

  /** What is left to split from line `i` on. */
  ghost predicate Remains(lines: seq<string>, i: nat, section: string, rest: seq<Block>) {
    i <= |lines| && rest == Body(lines[i..], section)
  }

  lemma MoveOver(done: seq<Block>, bs: seq<Block>, rest: seq<Block>, before: seq<Block>)
    requires before == bs + rest
    ensures done + bs + rest == done + before
  {
  }

  /** One turn of the loop: skips a blank line, or takes the block that starts here. */
  method Turn(lines: seq<string>, i: nat, section: string, ghost rest: seq<Block>)
    returns (bs: seq<Block>, j: nat, section': string, ghost after: seq<Block>)
    requires i < |lines| && Remains(lines, i, section, rest)
    ensures i < j && Remains(lines, j, section', after) && rest == bs + after
  {
    var trimmed := TrimSpace(lines[i]);
    if trimmed == "" {
      BodySkips(lines, i, section);
      return [], i + 1, section, rest;
    }
    var b;
    b, j, after := NextBlock(lines, i, trimmed, section);
    bs, section' := [b], b.section;
  }

  /** The block that starts at line `i`, and the line after it. */
  method NextBlock(lines: seq<string>, i: nat, trimmed: string, section: string)
    returns (b: Block, j: nat, ghost after: seq<Block>)
    requires i < |lines| && trimmed == Trim(lines[i]) && trimmed != ""
    ensures i < j <= |lines| && after == Body(lines[j..], b.section) && Body(lines[i..], section) == [b] + after
  {
    var extent;
    b, extent := TakeBlock(lines[i..], trimmed, section);
    j := i + extent;
    after := BodyTakes(lines, i, section, b, extent);
  }

  lemma NothingLeft(lines: seq<string>, i: nat, section: string, rest: seq<Block>)
    requires Remains(lines, i, section, rest) && i >= |lines|
    ensures rest == []
  {
  }

  lemma BodySkips(lines: seq<string>, i: nat, section: string)
    requires i < |lines| && Trim(lines[i]) == ""
    ensures Body(lines[i..], section) == Body(lines[i + 1..], section)
  {
    assert lines[i..][1..] == lines[i + 1..];
  }

  lemma BodyTakes(lines: seq<string>, i: nat, section: string, b: Block, extent: nat) returns (after: seq<Block>)
    requires i < |lines| && Trim(lines[i]) != ""
    requires extent == Extent(lines[i..]) && b == BlockAt(lines[i..], section)
    ensures i < i + extent <= |lines| && after == Body(lines[i + extent..], b.section)
    ensures Body(lines[i..], section) == [b] + after
  {
    after := Body(lines[i..][extent..], b.section);
    BodyStep(lines[i..], section);
    DropMore(lines, i, extent);
  }

  lemma DropMore(lines: seq<string>, i: nat, extent: nat)
    requires i + extent <= |lines|
    ensures lines[i..][extent..] == lines[i + extent..]
  {
  }

  /** A body that starts with a visible line starts with that line's block. */
  lemma BodyStep(ls: seq<string>, section: string)
    requires ls != [] && Trim(ls[0]) != ""
    ensures var b := BlockAt(ls, section); Body(ls, section) == [b] + Body(ls[Extent(ls)..], b.section)
  {
  }

  // ---- Lines of a block's text --------------------------------------------

  ghost function Mark(line: string): seq<string> {
    if Trim(line) == "" then [] else [Trim(line)]
  }

  /** The trimmed non-blank lines. */
  ghost function Marks(ls: seq<string>): seq<string> {
    if ls == [] then [] else Mark(ls[0]) + Marks(ls[1..])
  }

  lemma {:induction false} MarksSum(ls: seq<string>, ms: seq<string>)
    ensures Marks(ls + ms) == Marks(ls) + Marks(ms)
  {
    if ls == [] {
      assert ls + ms == ms;
    } else {
      MarksSum(ls[1..], ms);
      assert (ls + ms)[1..] == ls[1..] + ms && (ls + ms)[0] == ls[0];
      Regroup(Mark(ls[0]), Marks(ls[1..]), Marks(ms));
    }
  }

  lemma Regroup(x: seq<string>, y: seq<string>, z: seq<string>)
    ensures x + (y + z) == x + y + z
  {
  }

  lemma {:induction false} SameMarks(ls: seq<string>, ms: seq<string>)
    requires SameUpToTrim(ls, ms)
    ensures Marks(ls) == Marks(ms)
  {
    if ls != [] {
      SameMarks(ls[1..], ms[1..]);
    }
  }

  /** The lines of the text kept for the block starting at the first line: as many as
      the block takes up, and untouched but for the outer ends. */
  lemma KeptLines(ls: seq<string>, section: string)
    requires ls != [] && AllOneLine(ls) && Trim(ls[0]) != ""
    ensures var (j, b) := (Extent(ls), BlockAt(ls, section));
      SplitLines(b.raw) ==
        if b.kind.Heading? then [Trim(ls[0])]
        else if b.kind.CodeFence? then ls[..j]
        else TrimEnds(ls[..j])
    ensures var b := BlockAt(ls, section);
      b.kind.ListItem? || b.kind.Paragraph? ==> JoinLines(TrimEnds(ls[..Extent(ls)])) == b.raw
  {
    var j, b := Extent(ls), BlockAt(ls, section);
    var own := ls[..j];
    if b.kind.Heading? {
      SplitOneLine(b.raw);
    } else if b.kind.CodeFence? {
      SplitJoin(own);
    } else {
      var scan := if b.kind.ListItem? then ListScan else ParagraphScan;
      assert j > 1 ==> !Stops(scan, ls[j - 1]);
      BlankIffTrimEmpty(ls[0]);
      BlankIffTrimEmpty(ls[j - 1]);
      TrimOfJoin(own);
      SplitJoin(TrimEnds(own));
    }
  }

  ghost predicate SameUpToTrim(ls: seq<string>, ms: seq<string>) {
    |ls| == |ms| && forall i :: 0 <= i < |ls| ==> Trim(ls[i]) == Trim(ms[i])
  }

  lemma TrimEndsKeepsMarks(ls: seq<string>)
    requires ls != []
    ensures SameUpToTrim(TrimEnds(ls), ls)
  {
    forall i | 0 <= i < |ls|
      ensures Trim(TrimEnds(ls)[i]) == Trim(ls[i])
    {
      TrimTwice(ls[i]);
      TrimIsRightOfLeft(ls[i]);
      TrimEndsAt(ls, i);
    }
  }

  lemma TrimEndsAt(ls: seq<string>, i: nat)
    requires i < |ls|
    ensures TrimEnds(ls)[i] ==
      if |ls| == 1 then TrimRight(TrimLeft(ls[i]))
      else if i == 0 then TrimLeft(ls[i]) else if i == |ls| - 1 then TrimRight(ls[i]) else ls[i]
  {
  }

  /** Kept lines equal the document's lines up to trimming. */
  lemma KeptMarks(ls: seq<string>, section: string)
    requires ls != [] && AllOneLine(ls) && Trim(ls[0]) != ""
    ensures SameUpToTrim(SplitLines(BlockAt(ls, section).raw), ls[..Extent(ls)])
  {
    var own := ls[..Extent(ls)];
    KeptLines(ls, section);
    if BlockAt(ls, section).kind.Heading? {
      TrimTwice(ls[0]);
    } else {
      TrimEndsKeepsMarks(own);
    }
  }

  // ---- Printing and splitting again ---------------------------------------

  /** The blocks' texts, separated by one blank line each. */
  function Print(bs: seq<Block>): string {
    if bs == [] then ""
    else if |bs| == 1 then bs[0].raw
    else bs[0].raw + "\n" + ("\n" + Print(bs[1..]))
  }

  /** What follows the first block's lines in a printed document. */
  function Tail(rest: seq<Block>): seq<string> {
    if rest == [] then [] else [""] + SplitLines(Print(rest))
  }

  lemma PrintedLines(b: Block, rest: seq<Block>)
    ensures SplitLines(Print([b] + rest)) == SplitLines(b.raw) + Tail(rest)
  {
    if rest != [] {
      assert ([b] + rest)[1..] == rest;
      SplitSum(b.raw, "\n" + Print(rest));
      SplitHead('\n', Print(rest));
    }
  }

  lemma HeadKeepsLines(ls: seq<string>, section: string, rest: seq<Block>)
    requires ls != [] && AllOneLine(ls) && Trim(ls[0]) != ""
    ensures Marks(SplitLines(Print([BlockAt(ls, section)] + rest)))
         == Marks(ls[..Extent(ls)]) + Marks(SplitLines(Print(rest)))
  {
    var b := BlockAt(ls, section);
    PrintedLines(b, rest);
    MarksSum(SplitLines(b.raw), Tail(rest));
    KeptMarks(ls, section);
    SameMarks(SplitLines(b.raw), ls[..Extent(ls)]);
    TailMarks(rest);
  }

  /** The first block takes up the first lines, and prints as them up to trimming. */
  lemma FirstBlockLines(ls: seq<string>, section: string) returns (b: Block, j: nat)
    requires ls != [] && AllOneLine(ls) && Trim(ls[0]) != ""
    ensures 1 <= j <= |ls| && Body(ls, section) == [b] + Body(ls[j..], b.section)
    ensures var rest := Body(ls[j..], b.section);
      Marks(SplitLines(Print([b] + rest))) == Marks(ls[..j]) + Marks(SplitLines(Print(rest)))
    ensures Marks(ls) == Marks(ls[..j]) + Marks(ls[j..])
  {
    b, j := BlockAt(ls, section), Extent(ls);
    HeadKeepsLines(ls, section, Body(ls[j..], b.section));
    MarksOfHalves(ls, j);
  }

  lemma MarksOfHalves(ls: seq<string>, j: nat)
    requires j <= |ls|
    ensures Marks(ls) == Marks(ls[..j]) + Marks(ls[j..])
  {
    var front, back := ls[..j], ls[j..];
    assert ls == front + back;
    MarksSum(front, back);
  }

  /** Every non-blank line of the document is in exactly one block, in order: the
      printed blocks have the document's non-blank lines, no more and no fewer. */
  lemma {:induction false} BodyKeepsLines(ls: seq<string>, section: string)
    requires AllOneLine(ls)
    ensures Marks(SplitLines(Print(Body(ls, section)))) == Marks(ls)
    decreases |ls|
  {
    if ls == [] {
      TailMarks([]);
    } else if Trim(ls[0]) == "" {
      BodyKeepsLines(ls[1..], section);
    } else {
      var b, j := FirstBlockLines(ls, section);
      BodyKeepsLines(ls[j..], b.section);
    }
  }

  lemma TailMarks(rest: seq<Block>)
    ensures Marks(Tail(rest)) == Marks(SplitLines(Print(rest)))
  {
    assert Trim("") == "";
    if rest == [] {
      assert SplitLines("") == [""];
      assert Marks([""]) == [] + Marks([""][1..]);
    } else {
      assert Tail(rest)[1..] == SplitLines(Print(rest));
    }
  }

  /** A block's own lines, followed by a blank line or nothing, are split into that
      block again. */
  lemma BlockAgain(ls: seq<string>, section: string, tail: seq<string>)
    requires ls != [] && AllOneLine(ls) && Trim(ls[0]) != ""
    requires tail == [] || (tail[0] == "" && Extent(ls) < |ls|)
    ensures var (b, again) := (BlockAt(ls, section), SplitLines(BlockAt(ls, section).raw) + tail);
      Trim(again[0]) != "" && Extent(again) == Extent(ls) && BlockAt(again, section) == b
  {
    var b, j := BlockAt(ls, section), Extent(ls);
    var kept := SplitLines(b.raw);
    var again := kept + tail;
    KeptLines(ls, section);
    KeptMarks(ls, section);
    assert again[0] == kept[0] && again[..j] == kept;
    if b.kind.CodeFence? {
      FenceAgain(ls, tail);
    } else if !b.kind.Heading? {
      TextAgain(ls, tail, if b.kind.ListItem? then ListScan else ParagraphScan);
      TrimTwice(JoinLines(ls[..j]));
    }
  }

  lemma FenceAgain(ls: seq<string>, tail: seq<string>)
    requires ls != [] && !ParseHeading(Trim(ls[0])).HeadingLine? && IsFence(Trim(ls[0]))
    requires tail == [] || Extent(ls) < |ls|
    ensures Extent(ls[..Extent(ls)] + tail) == Extent(ls)
  {
    var j := Extent(ls);
    var again := ls[..j] + tail;
    var scan := FenceScan(Trim(ls[0])[..3]);
    var k := FirstStop(ls, 1, scan);
    if k < |ls| {
      FirstStopIs(again, 1, scan, k);
    } else {
      assert again == ls;
    }
  }

  /** Trimming the last line's right end does not make a list or paragraph stop there. */
  lemma StillGoesOn(line: string, scan: Scan)
    requires (scan == ListScan || scan == ParagraphScan) && !Stops(scan, line)
    ensures !Stops(scan, TrimRight(line))
  {
    TrimTwice(line);
    BlankIffTrimEmpty(line);
    TrimRightKeepsHead(line);
  }

  lemma TextAgain(ls: seq<string>, tail: seq<string>, scan: Scan)
    requires ls != [] && !ParseHeading(Trim(ls[0])).HeadingLine? && !IsFence(Trim(ls[0]))
    requires scan == if IsListMarker(Trim(ls[0])) then ListScan else ParagraphScan
    requires tail == [] || tail[0] == ""
    ensures Extent(TrimEnds(ls[..Extent(ls)]) + tail) == Extent(ls)
  {
    ExtentOfText(ls, scan);
    var j := Extent(ls);
    var kept := TrimEnds(ls[..j]);
    var again := kept + tail;
    TrimEndsKeepsMarks(ls[..j]);
    assert Trim(again[0]) == Trim(ls[0]);
    ExtentOfText(again, scan);
    TrimmedBodyGoesOn(ls[..j], scan);
    assert forall i :: 0 <= i < j ==> again[i] == kept[i];
    if tail != [] {
      EmptyLineStops(scan);
      assert again[j] == "";
    }
    FirstStopIs(again, 1, scan, j);
  }

  lemma TrimmedBodyGoesOn(own: seq<string>, scan: Scan)
    requires own != [] && (scan == ListScan || scan == ParagraphScan)
    requires forall i :: 1 <= i < |own| ==> !Stops(scan, own[i])
    ensures forall i :: 1 <= i < |own| ==> !Stops(scan, TrimEnds(own)[i])
  {
    forall i | 1 <= i < |own|
      ensures !Stops(scan, TrimEnds(own)[i])
    {
      StillGoesOn(own[i], scan);
      assert TrimEnds(own)[i] == if i == |own| - 1 then TrimRight(own[i]) else own[i];
    }
  }

  lemma ExtentOfText(ls: seq<string>, scan: Scan)
    requires ls != [] && !ParseHeading(Trim(ls[0])).HeadingLine? && !IsFence(Trim(ls[0]))
    requires scan == if IsListMarker(Trim(ls[0])) then ListScan else ParagraphScan
    ensures Extent(ls) == FirstStop(ls, 1, scan)
  {
  }

  lemma EmptyLineStops(scan: Scan)
    ensures Trim("") == ""
    ensures scan == ListScan || scan == ParagraphScan ==> Stops(scan, "")
  {
  }

  lemma HeadAgain(ls: seq<string>, section: string, rest: seq<Block>)
    requires ls != [] && AllOneLine(ls) && Trim(ls[0]) != ""
    requires rest == [] || Extent(ls) < |ls|
    ensures var b := BlockAt(ls, section);
      Body(SplitLines(Print([b] + rest)), section) == [b] + Body(Tail(rest), b.section)
  {
    var b := BlockAt(ls, section);
    PrintedLines(b, rest);
    BlockAgain(ls, section, Tail(rest));
    KeptMarks(ls, section);
    var again := SplitLines(b.raw) + Tail(rest);
    assert again[Extent(again)..] == Tail(rest);
  }

  /** The blocks of a body, which split again into themselves. */
  lemma {:induction false} BodyAgain(ls: seq<string>, section: string) returns (bs: seq<Block>)
    requires AllOneLine(ls)
    ensures bs == Body(ls, section) && Body(SplitLines(Print(bs)), section) == bs
    decreases |ls|
  {
    if ls == [] {
      bs := [];
      NoBlocks(section);
    } else if Trim(ls[0]) == "" {
      bs := BodyAgain(ls[1..], section);
    } else {
      var b := BlockAt(ls, section);
      var rest := BodyAgain(ls[Extent(ls)..], b.section);
      bs := [b] + rest;
      BodyStep(ls, section);
      BlockAndRestAgain(ls, section, rest, bs);
    }
  }

  lemma NoBlocks(section: string)
    ensures Body(SplitLines(Print([])), section) == []
  {
    assert Trim("") == "" && SplitLines("")[1..] == [];
  }

  lemma BlockAndRestAgain(ls: seq<string>, section: string, rest: seq<Block>, bs: seq<Block>)
    requires ls != [] && AllOneLine(ls) && Trim(ls[0]) != "" && (rest == [] || Extent(ls) < |ls|)
    requires Body(SplitLines(Print(rest)), BlockAt(ls, section).section) == rest
    requires bs == [BlockAt(ls, section)] + rest
    ensures Body(SplitLines(Print(bs)), section) == bs
  {
    HeadAgain(ls, section, rest);
    TailAgain(rest, BlockAt(ls, section).section);
  }

  lemma TailAgain(rest: seq<Block>, section: string)
    requires Body(SplitLines(Print(rest)), section) == rest
    ensures Body(Tail(rest), section) == rest
  {
    assert Trim("") == "";
    if rest != [] {
      assert Tail(rest)[1..] == SplitLines(Print(rest));
    }
  }

  /** The document has blank lines on top, and below them what would be front matter if it
      came first. */
  ghost predicate FrontAfterBlank(ls: seq<string>)
    requires ls != []
  {
    Trim(ls[0]) == "" && LooksLikeFront(Marks(ls))
  }

  ghost predicate LooksLikeFront(marks: seq<string>) {
    marks != [] && marks[0] == "---" && "---" in marks[1..]
  }

  /** Splitting gives a normal form: printing a document's blocks and splitting again gives
      the same blocks, unless dropping blank lines on top turns what follows into front
      matter. */
  lemma SplitAgain(content: string)
    ensures Split(Print(Split(content))) == Split(content) <==> !FrontAfterBlank(SplitLines(content))
  {
    var ls := SplitLines(content);
    if FrontExtent(ls) == 0 {
      var bs := BodyAgain(ls, "");
      BodyDocumentAgain(ls, bs);
    } else {
      FrontDocumentAgain(ls);
    }
  }

  lemma FrontDocumentAgain(ls: seq<string>)
    requires ls != [] && AllOneLine(ls) && FrontExtent(ls) > 0
    ensures Split(Print(SplitDocument(ls))) == SplitDocument(ls) && !FrontAfterBlank(ls)
  {
    var j := FrontExtent(ls);
    var rest := BodyAgain(ls[j..], "");
    TailAgain(rest, "");
    FrontExtentAgain(ls, Tail(rest));
    FrontAgain(ls[..j], rest);
  }

  /** Printing gives a document without front matter some exactly if only blank lines kept
      it from having it. */
  lemma BodyDocumentAgain(ls: seq<string>, bs: seq<Block>)
    requires ls != [] && AllOneLine(ls) && FrontExtent(ls) == 0
    requires bs == Body(ls, "") && Body(SplitLines(Print(bs)), "") == bs
    ensures Split(Print(bs)) == bs <==> !FrontAfterBlank(ls)
  {
    var again := SplitLines(Print(bs));
    BodyKeepsLines(ls, "");
    FirstLineShows(ls, "");
    FrontIff(ls);
    FrontIff(again);
    if FrontExtent(again) > 0 {
      NotOfBody(ls, SplitDocument(again));
    }
  }

  /** No body starts with front matter. */
  lemma NotOfBody(ls: seq<string>, bs: seq<Block>)
    requires bs != [] && bs[0].kind.Frontmatter?
    ensures bs != Body(ls, "")
  {
    var body := AllSections(ls, "");
  }

  /** Printed blocks start with a visible line, if there are any. */
  lemma {:induction false} FirstLineShows(ls: seq<string>, section: string)
    requires AllOneLine(ls)
    ensures var again := SplitLines(Print(Body(ls, section)));
      Marks(again) != [] ==> again != [] && Trim(again[0]) != ""
    decreases |ls|
  {
    if ls == [] {
      TailMarks([]);
    } else if Trim(ls[0]) == "" {
      FirstLineShows(ls[1..], section);
    } else {
      var b := BlockAt(ls, section);
      PrintedLines(b, Body(ls[Extent(ls)..], b.section));
      KeptMarks(ls, section);
      BodyStep(ls, section);
    }
  }

  lemma PrintedFront(own: seq<string>, rest: seq<Block>)
    requires own != [] && AllOneLine(own)
    ensures SplitLines(Print([Front(own)] + rest)) == own + Tail(rest)
  {
    PrintedLines(Front(own), rest);
    SplitJoin(own);
  }

  lemma FrontDocument(own: seq<string>, tail: seq<string>)
    requires own != [] && FrontExtent(own + tail) == |own|
    ensures SplitDocument(own + tail) == [Front(own)] + Body(tail, "")
  {
    assert (own + tail)[..|own|] == own && (own + tail)[|own|..] == tail;
  }

  lemma FrontAgain(own: seq<string>, rest: seq<Block>)
    requires own != [] && AllOneLine(own) && FrontExtent(own + Tail(rest)) == |own| && Body(Tail(rest), "") == rest
    ensures Split(Print([Front(own)] + rest)) == [Front(own)] + rest
  {
    PrintedFront(own, rest);
    FrontDocument(own, Tail(rest));
  }

  lemma FrontExtentAgain(ls: seq<string>, tail: seq<string>)
    requires ls != [] && FrontExtent(ls) > 0
    ensures FrontExtent(ls[..FrontExtent(ls)] + tail) == FrontExtent(ls)
  {
    var j := FrontExtent(ls);
    FirstStopIs(ls[..j] + tail, 1, FrontScan, j - 1);
  }

  /** Lines that start with a visible one have front matter on top exactly if their marks
      look like it. */
  lemma FrontIff(ls: seq<string>)
    requires ls != []
    ensures Trim(ls[0]) != "" ==> (FrontExtent(ls) > 0 <==> LooksLikeFront(Marks(ls)))
    ensures Trim(ls[0]) == "" ==> FrontExtent(ls) == 0
  {
    if Trim(ls[0]) == "---" {
      assert Marks(ls)[1..] == Marks(ls[1..]);
      MarkOccurs(ls[1..], "---");
      FrontCloses(ls);
    }
  }

  lemma FrontCloses(ls: seq<string>)
    requires ls != [] && Trim(ls[0]) == "---"
    ensures FrontExtent(ls) > 0 <==> exists i :: 0 <= i < |ls[1..]| && Trim(ls[1..][i]) == "---"
  {
    var k := FirstStop(ls, 1, FrontScan);
    if k < |ls| {
      assert Stops(FrontScan, ls[k]) && Trim(ls[1..][k - 1]) == "---";
    } else {
      forall i | 0 <= i < |ls[1..]|
        ensures Trim(ls[1..][i]) != "---"
      {
        assert !Stops(FrontScan, ls[i + 1]);
      }
    }
  }

  lemma {:induction false} MarkOccurs(ls: seq<string>, t: string)
    requires t != ""
    ensures t in Marks(ls) <==> exists i :: 0 <= i < |ls| && Trim(ls[i]) == t
  {
    if ls != [] {
      MarkOccurs(ls[1..], t);
      assert t in Marks(ls) <==> Trim(ls[0]) == t || t in Marks(ls[1..]);
      if t in Marks(ls[1..]) {
        var i :| 0 <= i < |ls[1..]| && Trim(ls[1..][i]) == t;
        assert Trim(ls[i + 1]) == t;
      }
      if i :| 0 <= i < |ls| && Trim(ls[i]) == t {
        assert i > 0 ==> Trim(ls[1..][i - 1]) == t;
      }
    }
  }

  /** The partition for whole documents. */
  lemma SplitKeepsLines(content: string)
    ensures Marks(SplitLines(Print(Split(content)))) == Marks(SplitLines(content))
  {
    var ls := SplitLines(content);
    var j := FrontExtent(ls);
    if j == 0 {
      BodyKeepsLines(ls, "");
    } else {
      BodyKeepsLines(ls[j..], "");
      FrontKeepsLines(ls[..j], Body(ls[j..], ""));
      HalvesKeepLines(ls, j, Split(content), Body(ls[j..], ""));
    }
  }

  lemma HalvesKeepLines(ls: seq<string>, j: nat, bs: seq<Block>, rest: seq<Block>)
    requires j <= |ls| && Marks(SplitLines(Print(rest))) == Marks(ls[j..])
    requires Marks(SplitLines(Print(bs))) == Marks(ls[..j]) + Marks(SplitLines(Print(rest)))
    ensures Marks(SplitLines(Print(bs))) == Marks(ls)
  {
    MarksOfHalves(ls, j);
  }

  lemma FrontKeepsLines(own: seq<string>, rest: seq<Block>)
    requires own != [] && AllOneLine(own)
    ensures Marks(SplitLines(Print([Front(own)] + rest)))
         == Marks(own) + Marks(SplitLines(Print(rest)))
  {
    PrintedLines(Front(own), rest);
    SplitJoin(own);
    MarksSum(own, Tail(rest));
    TailMarks(rest);
  }

  // ---- Sections -----------------------------------------------------------

  /** The text of the last heading among the blocks up to `i`, or `section`. */
  ghost function LastHeading(bs: seq<Block>, i: nat, section: string): string
    requires i < |bs|
  {
    if bs[i].kind.Heading? then
      var h := ParseHeading(bs[i].raw);
      if h.HeadingLine? then Trim(h.rest) else ""
    else if i == 0 then section
    else LastHeading(bs, i - 1, section)
  }

  lemma {:induction false} LastHeadingShifts(b: Block, bs: seq<Block>, i: nat, section: string)
    requires i < |bs|
    ensures LastHeading([b] + bs, i + 1, section) == LastHeading(bs, i, LastHeading([b] + bs, 0, section))
  {
    if !bs[i].kind.Heading? && i > 0 {
      LastHeadingShifts(b, bs, i - 1, section);
    }
  }

  /** The first block carries the text of its own heading, or the section it was given. */
  lemma FirstSection(ls: seq<string>, section: string, rest: seq<Block>)
    requires ls != [] && Trim(ls[0]) != ""
    ensures var b := BlockAt(ls, section); b.kind != Frontmatter && b.section == LastHeading([b] + rest, 0, section)
  {
    assert ([BlockAt(ls, section)] + rest)[0] == BlockAt(ls, section);
  }

  ghost predicate SectionsHold(bs: seq<Block>, section: string) {
    forall i :: 0 <= i < |bs| ==> bs[i].section == LastHeading(bs, i, section) && bs[i].kind != Frontmatter
  }

  lemma {:induction false} AllSections(ls: seq<string>, section: string) returns (bs: seq<Block>)
    ensures bs == Body(ls, section) && SectionsHold(bs, section)
    decreases |ls|
  {
    if ls == [] {
      bs := [];
    } else if Trim(ls[0]) == "" {
      bs := AllSections(ls[1..], section);
    } else {
      var b := BlockAt(ls, section);
      var rest := AllSections(ls[Extent(ls)..], b.section);
      bs := [b] + rest;
      BodyStep(ls, section);
      FirstSection(ls, section, rest);
      SectionsShift(b, rest, section);
    }
  }

  lemma SectionsShift(b: Block, rest: seq<Block>, section: string)
    requires b.section == LastHeading([b] + rest, 0, section) && b.kind != Frontmatter
    requires SectionsHold(rest, b.section)
    ensures SectionsHold([b] + rest, section)
  {
    var bs := [b] + rest;
    forall i | 0 <= i < |bs|
      ensures bs[i].section == LastHeading(bs, i, section) && bs[i].kind != Frontmatter
    {
      if i > 0 {
        assert bs[i] == rest[i - 1];
        LastHeadingShifts(b, rest, i - 1, section);
      }
    }
  }

  /** Every block's section is the text of the last heading at or before it. */
  lemma SectionsFollowHeadings(ls: seq<string>, section: string, i: nat)
    requires i < |Body(ls, section)|
    ensures Body(ls, section)[i].section == LastHeading(Body(ls, section), i, section)
    ensures Body(ls, section)[i].kind != Frontmatter
  {
    var bs := AllSections(ls, section);
  }

  lemma SectionAfterFront(front: Block, rest: seq<Block>, bs: seq<Block>, i: nat)
    requires bs == [front] + rest && i < |bs| && front.kind.Frontmatter? && front.section == ""
    requires i > 0 ==> rest[i - 1].section == LastHeading(rest, i - 1, "") && rest[i - 1].kind != Frontmatter
    ensures bs[i].section == LastHeading(bs, i, "") && (bs[i].kind == Frontmatter ==> i == 0)
  {
    if i > 0 {
      LastHeadingShifts(front, rest, i - 1, "");
    }
  }

  lemma SectionsOfDocument(content: string)
    ensures var bs := Split(content); forall i :: 0 <= i < |bs| ==>
      bs[i].section == LastHeading(bs, i, "") && (bs[i].kind == Frontmatter ==> i == 0)
  {
    var ls, bs := SplitLines(content), Split(content);
    var j := FrontExtent(ls);
    var rest := AllSections(ls[j..], "");
    if j == 0 {
      assert ls[0..] == ls;
    } else {
      forall i | 0 <= i < |bs|
        ensures bs[i].section == LastHeading(bs, i, "") && (bs[i].kind == Frontmatter ==> i == 0)
      {
        SectionAfterFront(Front(ls[..j]), rest, bs, i);
      }
    }
  }
}
