/** What the blocks of a split document are (internal/history/differ.go): the kinds of
    lines in closed form, what a block's own text says about it, and where it ends. */
module BlockShapes {
  import opened Blocks
  import opened Lines
  import opened Splitter

  function Repeat(c: char, n: nat): (s: string)
    ensures |s| == n && forall i :: 0 <= i < n ==> s[i] == c
  {
    seq(n, _ => c)
  }

  lemma {:induction false} HashesRun(s: string, i: nat)
    requires i <= |s|
    ensures var k := Hashes(s, i);
      (forall j :: i <= j < k ==> s[j] == '#') && (k < |s| ==> s[k] != '#')
    decreases |s| - i
  {
    if i < |s| && s[i] == '#' {
      HashesRun(s, i + 1);
    }
  }

  ghost predicate IsHeading(s: string, level: nat, rest: string) {
    1 <= level <= 6 && (s == Repeat('#', level) + " " + rest || (s == Repeat('#', level) && rest == ""))
  }

  lemma HashesOfHeading(s: string, level: nat, rest: string)
    requires IsHeading(s, level, rest)
    ensures Hashes(s, 0) == level && ParseHeading(s) == HeadingLine(level, rest)
  {
    var line := Repeat('#', level) + " " + rest;
    HashesRun(s, 0);
    assert forall i :: 0 <= i < level ==> s[i] == '#';
    if s == line {
      assert line[level] == ' ' && line[level + 1..] == rest;
    }
  }

  lemma HeadingOfHashes(s: string, level: nat, rest: string)
    requires ParseHeading(s) == HeadingLine(level, rest)
    ensures IsHeading(s, level, rest)
  {
    HashesRun(s, 0);
    assert s[..level] == Repeat('#', level);
    if level < |s| {
      assert s == s[..level] + [s[level]] + s[level + 1..];
    } else {
      assert s == s[..level];
    }
  }

  /** A heading line is one to six hash signs, and then nothing or a space and the rest. */
  lemma HeadingIff(s: string, level: nat, rest: string)
    ensures ParseHeading(s) == HeadingLine(level, rest) <==> IsHeading(s, level, rest)
  {
    if IsHeading(s, level, rest) {
      HashesOfHeading(s, level, rest);
    }
    if ParseHeading(s) == HeadingLine(level, rest) {
      HeadingOfHashes(s, level, rest);
    }
  }

  lemma {:induction false} DigitsRun(s: string, i: nat)
    requires i <= |s|
    ensures var k := Digits(s, i);
      (forall j :: i <= j < k ==> '0' <= s[j] <= '9') && (k < |s| ==> !('0' <= s[k] <= '9'))
    decreases |s| - i
  {
    if i < |s| && '0' <= s[i] <= '9' {
      DigitsRun(s, i + 1);
    }
  }

  ghost predicate IsOrdinal(s: string, k: nat) {
    && 0 < k && k + 1 < |s| && s[k] == '.' && s[k + 1] == ' '
    && forall i :: 0 <= i < k ==> '0' <= s[i] <= '9'
  }

  /** A list marker is a dash, star or plus, or a number and a period, and then a space. */
  lemma ListMarkerIff(s: string)
    ensures IsListMarker(s) <==>
      HasPrefix(s, "- ") || HasPrefix(s, "* ") || HasPrefix(s, "+ ") || exists k: nat :: IsOrdinal(s, k)
  {
    DigitsRun(s, 0);
    assert IsOrdinal(s, Digits(s, 0)) <== (var i := Digits(s, 0); 0 < i && i + 1 < |s| && s[i] == '.' && s[i + 1] == ' ');
    if k: nat :| IsOrdinal(s, k) {
      assert Digits(s, 0) == k;
    }
  }

  /** A fence is three backticks or three tildes, whatever comes after them. */
  lemma FenceIff(s: string)
    ensures IsFence(s) <==> HasPrefix(s, "```") || HasPrefix(s, "~~~")
  {
    if |s| >= 3 {
      assert s[..3] == [s[0], s[1], s[2]];
    }
  }

  /** No line after the first ends the block. */
  ghost predicate GoesOn(ls: seq<string>, scan: Scan) {
    forall i :: 1 <= i < |ls| ==> !Stops(scan, ls[i])
  }

  /** No line between the first and the last closes the fence. */
  ghost predicate StaysFenced(ls: seq<string>, fence: string) {
    forall i :: 1 <= i < |ls| - 1 ==> !HasPrefix(Trim(ls[i]), fence)
  }

  /** What a block's text is like: its first line settles the kind, the level, the
      heading's text and the fence's language, and no later line ends the block. */
  ghost predicate ReadsAs(b: Block, ls: seq<string>)
    requires ls != []
  {
    var first := Trim(ls[0]);
    var heading := ParseHeading(first);
    if heading.HeadingLine? then
      b.kind.Heading? && |ls| == 1 && b.level == heading.level && b.section == Trim(heading.rest)
    else if IsFence(first) then
      b.kind.CodeFence? && b.lang == Trim(first[3..]) && StaysFenced(ls, first[..3])
    else if IsListMarker(first) then b.kind.ListItem? && GoesOn(ls, ListScan)
    else b.kind.Paragraph? && GoesOn(ls, ParagraphScan)
  }

  lemma FirstLineOfBlock(ls: seq<string>, section: string)
    requires ls != [] && AllOneLine(ls) && Trim(ls[0]) != ""
    ensures Trim(SplitLines(BlockAt(ls, section).raw)[0]) == Trim(ls[0])
  {
    KeptMarks(ls, section);
    assert ls[..Extent(ls)][0] == ls[0];
  }

  lemma TextGoesOn(ls: seq<string>, section: string, scan: Scan)
    requires ls != [] && AllOneLine(ls) && Trim(ls[0]) != ""
    requires !ParseHeading(Trim(ls[0])).HeadingLine? && !IsFence(Trim(ls[0]))
    requires scan == if IsListMarker(Trim(ls[0])) then ListScan else ParagraphScan
    ensures GoesOn(SplitLines(BlockAt(ls, section).raw), scan)
  {
    var own := ls[..Extent(ls)];
    KeptLines(ls, section);
    ExtentOfText(ls, scan);
    TrimmedBodyGoesOn(own, scan);
  }

  lemma FenceStays(ls: seq<string>, section: string)
    requires ls != [] && AllOneLine(ls) && Trim(ls[0]) != ""
    requires !ParseHeading(Trim(ls[0])).HeadingLine? && IsFence(Trim(ls[0]))
    ensures StaysFenced(SplitLines(BlockAt(ls, section).raw), Trim(ls[0])[..3])
  {
    var scan := FenceScan(Trim(ls[0])[..3]);
    KeptLines(ls, section);
    forall i | 1 <= i < Extent(ls) - 1
      ensures !HasPrefix(Trim(ls[i]), scan.fence)
    {
      assert !Stops(scan, ls[i]);
    }
  }

  lemma BlockReadsAs(ls: seq<string>, section: string)
    requires ls != [] && AllOneLine(ls) && Trim(ls[0]) != ""
    ensures ReadsAs(BlockAt(ls, section), SplitLines(BlockAt(ls, section).raw))
  {
    var first := Trim(ls[0]);
    FirstLineOfBlock(ls, section);
    if ParseHeading(first).HeadingLine? {
      KeptLines(ls, section);
    } else if IsFence(first) {
      FenceStays(ls, section);
    } else {
      TextGoesOn(ls, section, if IsListMarker(first) then ListScan else ParagraphScan);
    }
  }

  lemma {:induction false} BlocksReadAs(ls: seq<string>, section: string, i: nat)
    requires AllOneLine(ls) && i < |Body(ls, section)|
    ensures ReadsAs(Body(ls, section)[i], SplitLines(Body(ls, section)[i].raw))
    decreases |ls|
  {
    if Trim(ls[0]) == "" {
      BlocksReadAs(ls[1..], section, i);
    } else {
      BlockReadsAs(ls, section);
      if i > 0 {
        BlocksReadAs(ls[Extent(ls)..], BlockAt(ls, section).section, i - 1);
      }
    }
  }

  /** Whether a block with these lines has to end before `next`: a fence only by being
      closed, text only by a line that cannot be part of it. */
  ghost predicate EndsBefore(b: Block, own: seq<string>, next: string)
    requires own != []
  {
    var first, last, t := Trim(own[0]), Trim(own[|own| - 1]), Trim(next);
    match b.kind
    case Frontmatter => false
    case Heading => |own| == 1
    case CodeFence => IsFence(first) && |own| > 1 && HasPrefix(last, first[..3])
    case ListItem => t == "" || !(IsListMarker(t) || HasPrefix(next, " ") || HasPrefix(next, "\t"))
    case Paragraph => t == "" || ParseHeading(t).HeadingLine? || IsFence(t) || IsListMarker(t)
  }

  lemma BlockEnds(ls: seq<string>, section: string)
    requires ls != [] && Extent(ls) < |ls|
    ensures EndsBefore(BlockAt(ls, section), ls[..Extent(ls)], ls[Extent(ls)])
  {
    var first := Trim(ls[0]);
    if !ParseHeading(first).HeadingLine? && !IsFence(first) {
      ExtentOfText(ls, if IsListMarker(first) then ListScan else ParagraphScan);
    }
  }

  /** The block is the `n` lines from line `k` on, and ends only where it must. */
  ghost predicate IsMaximal(ls: seq<string>, b: Block, k: nat, n: nat) {
    && 0 < n && k + n <= |ls| && SameUpToTrim(SplitLines(b.raw), ls[k..k + n])
    && (k + n < |ls| ==> EndsBefore(b, ls[k..k + n], ls[k + n]))
  }

  ghost predicate Maximal(ls: seq<string>, b: Block) {
    exists k: nat, n: nat :: IsMaximal(ls, b, k, n)
  }

  lemma FirstIsMaximal(ls: seq<string>, section: string)
    requires ls != [] && AllOneLine(ls) && Trim(ls[0]) != ""
    ensures Maximal(ls, BlockAt(ls, section))
  {
    KeptMarks(ls, section);
    if Extent(ls) < |ls| {
      BlockEnds(ls, section);
    }
    assert IsMaximal(ls, BlockAt(ls, section), 0, Extent(ls));
  }

  lemma SameSlice(ls: seq<string>, d: nat, k: nat, n: nat)
    requires d + k + n <= |ls|
    ensures ls[d..][k..k + n] == ls[d + k..d + k + n]
    ensures d + k + n < |ls| ==> ls[d..][k + n] == ls[d + k + n]
  {
  }

  lemma MaximalLaterOn(ls: seq<string>, d: nat, b: Block)
    requires d <= |ls| && Maximal(ls[d..], b)
    ensures Maximal(ls, b)
  {
    var k: nat, n: nat :| IsMaximal(ls[d..], b, k, n);
    SameSlice(ls, d, k, n);
    MaximalAt(ls, ls[d..], d, b, k, n);
  }

  lemma MaximalAt(ls: seq<string>, later: seq<string>, d: nat, b: Block, k: nat, n: nat)
    requires IsMaximal(later, b, k, n) && |ls| == d + |later|
    requires ls[d + k..d + k + n] == later[k..k + n] && (k + n < |later| ==> ls[d + k + n] == later[k + n])
    ensures Maximal(ls, b)
  {
    assert IsMaximal(ls, b, d + k, n);
  }

  lemma AllLaterOn(ls: seq<string>, d: nat, bs: seq<Block>)
    requires d <= |ls| && forall b :: b in bs ==> Maximal(ls[d..], b)
    ensures forall b :: b in bs ==> Maximal(ls, b)
  {
    forall b | b in bs
      ensures Maximal(ls, b)
    {
      MaximalLaterOn(ls, d, b);
    }
  }

  lemma {:induction false} AllMaximal(ls: seq<string>, section: string) returns (bs: seq<Block>)
    requires AllOneLine(ls)
    ensures bs == Body(ls, section) && forall b :: b in bs ==> Maximal(ls, b)
    decreases |ls|
  {
    if ls == [] {
      bs := [];
    } else if Trim(ls[0]) == "" {
      bs := AllMaximal(ls[1..], section);
      AllLaterOn(ls, 1, bs);
    } else {
      var first := BlockAt(ls, section);
      var rest := AllMaximal(ls[Extent(ls)..], first.section);
      AllLaterOn(ls, Extent(ls), rest);
      FirstIsMaximal(ls, section);
      BodyStep(ls, section);
      bs := [first] + rest;
    }
  }

  /** Every block of a body ends only where it must: at the end of the document, after its
      closing fence, or before a line that cannot be part of it. */
  lemma BlocksAreMaximal(ls: seq<string>, section: string)
    requires AllOneLine(ls)
    ensures forall b :: b in Body(ls, section) ==> Maximal(ls, b)
  {
    var bs := AllMaximal(ls, section);
  }

  // ---- What the lines of a block are ----------------------------------------

  ghost predicate HeadingText(t: string) {
    exists level: nat, rest :: IsHeading(t, level, rest)
  }

  ghost predicate MarkerText(t: string) {
    HasPrefix(t, "- ") || HasPrefix(t, "* ") || HasPrefix(t, "+ ") || exists k: nat :: IsOrdinal(t, k)
  }

  predicate FenceText(t: string) {
    HasPrefix(t, "```") || HasPrefix(t, "~~~")
  }

  /** Which lines a block of its kind has: a heading is one line; a fence runs to the first
      line that closes it; a list goes on with markers and indented lines; a paragraph has
      no blank line, heading, fence or marker; front matter lies between two rules. */
  ghost predicate HoldsLines(kind: BlockKind, own: seq<string>)
    requires own != []
  {
    var first, last := Trim(own[0]), |own| - 1;
    match kind
    case Heading => |own| == 1 && HeadingText(first)
    case CodeFence =>
      !HeadingText(first) && FenceText(first) && forall i :: 1 <= i < last ==> !HasPrefix(Trim(own[i]), first[..3])
    case ListItem =>
      && !HeadingText(first) && !FenceText(first) && MarkerText(first)
      && forall i :: 1 <= i <= last ==>
           Trim(own[i]) != "" && (MarkerText(Trim(own[i])) || HasPrefix(own[i], " ") || HasPrefix(own[i], "\t"))
    case Paragraph =>
      forall i :: 0 <= i <= last ==>
        var t := Trim(own[i]); t != "" && !HeadingText(t) && !FenceText(t) && !MarkerText(t)
    case Frontmatter =>
      last > 0 && first == "---" == Trim(own[last]) && forall i :: 1 <= i < last ==> Trim(own[i]) != "---"
  }

  lemma KindsOfLines(t: string)
    ensures ParseHeading(t).HeadingLine? <==> HeadingText(t)
    ensures IsFence(t) <==> FenceText(t)
    ensures IsListMarker(t) <==> MarkerText(t)
  {
    FenceIff(t);
    ListMarkerIff(t);
    if ParseHeading(t).HeadingLine? {
      HeadingIff(t, ParseHeading(t).level, ParseHeading(t).rest);
    }
    if level: nat, rest :| IsHeading(t, level, rest) {
      HeadingIff(t, level, rest);
    }
  }

  lemma ParagraphLine(line: string)
    requires !Stops(ParagraphScan, line)
    ensures var t := Trim(line); t != "" && !HeadingText(t) && !FenceText(t) && !MarkerText(t)
  {
    KindsOfLines(Trim(line));
  }

  lemma ListLine(line: string)
    requires !Stops(ListScan, line)
    ensures Trim(line) != "" && (MarkerText(Trim(line)) || HasPrefix(line, " ") || HasPrefix(line, "\t"))
  {
    KindsOfLines(Trim(line));
  }

  lemma TextHoldsLines(b: Block, own: seq<string>)
    requires own != [] && ReadsAs(b, own) && Trim(own[0]) != "" && (b.kind.Paragraph? || b.kind.ListItem?)
    ensures HoldsLines(b.kind, own)
  {
    KindsOfLines(Trim(own[0]));
    forall i | 1 <= i < |own|
      ensures b.kind.Paragraph? ==> var t := Trim(own[i]); t != "" && !HeadingText(t) && !FenceText(t) && !MarkerText(t)
      ensures b.kind.ListItem? ==>
        Trim(own[i]) != "" && (MarkerText(Trim(own[i])) || HasPrefix(own[i], " ") || HasPrefix(own[i], "\t"))
    {
      if b.kind.Paragraph? {
        ParagraphLine(own[i]);
      } else {
        ListLine(own[i]);
      }
    }
  }

  lemma BlockHoldsLines(ls: seq<string>, section: string)
    requires ls != [] && AllOneLine(ls) && Trim(ls[0]) != ""
    ensures var b := BlockAt(ls, section); HoldsLines(b.kind, SplitLines(b.raw))
  {
    var b := BlockAt(ls, section);
    var own := SplitLines(b.raw);
    BlockReadsAs(ls, section);
    FirstLineOfBlock(ls, section);
    KindsOfLines(Trim(own[0]));
    if b.kind.Paragraph? || b.kind.ListItem? {
      TextHoldsLines(b, own);
    }
  }

  lemma {:induction false} BodyHoldsLines(ls: seq<string>, section: string) returns (bs: seq<Block>)
    requires AllOneLine(ls)
    ensures bs == Body(ls, section) && forall b :: b in bs ==> HoldsLines(b.kind, SplitLines(b.raw))
    decreases |ls|
  {
    if ls == [] {
      bs := [];
    } else if Trim(ls[0]) == "" {
      bs := BodyHoldsLines(ls[1..], section);
    } else {
      var first := BlockAt(ls, section);
      var rest := BodyHoldsLines(ls[Extent(ls)..], first.section);
      BlockHoldsLines(ls, section);
      BodyStep(ls, section);
      bs := [first] + rest;
    }
  }

  lemma FrontHoldsLines(ls: seq<string>)
    requires ls != [] && AllOneLine(ls) && FrontExtent(ls) > 0
    ensures HoldsLines(Frontmatter, SplitLines(Front(ls[..FrontExtent(ls)]).raw))
  {
    var own := ls[..FrontExtent(ls)];
    SplitJoin(own);
    assert Stops(FrontScan, ls[|own| - 1]);
    forall i | 1 <= i < |own| - 1
      ensures Trim(own[i]) != "---"
    {
      assert !Stops(FrontScan, ls[i]);
    }
  }

  /** The lines of every block of a document are what its kind says. */
  lemma BlocksHoldTheirLines(content: string)
    ensures forall b :: b in Split(content) ==> HoldsLines(b.kind, SplitLines(b.raw))
  {
    var ls := SplitLines(content);
    var j := FrontExtent(ls);
    if j == 0 {
      var bs := BodyHoldsLines(ls, "");
    } else {
      var rest := BodyHoldsLines(ls[j..], "");
      FrontHoldsLines(ls);
    }
  }

  /** A document starts with front matter exactly if its first line is a rule and a later
      one is too. */
  lemma FrontMatterIff(content: string)
    ensures var ls := SplitLines(content);
      (Split(content) != [] && Split(content)[0].kind.Frontmatter?) <==>
        Trim(ls[0]) == "---" && exists i :: 1 <= i < |ls| && Trim(ls[i]) == "---"
  {
    var ls := SplitLines(content);
    if Trim(ls[0]) == "---" {
      FrontCloses(ls);
      if i :| 1 <= i < |ls| && Trim(ls[i]) == "---" {
        assert ls[1..][i - 1] == ls[i];
      }
      if i :| 0 <= i < |ls[1..]| && Trim(ls[1..][i]) == "---" {
        assert Trim(ls[i + 1]) == "---";
      }
    }
    if FrontExtent(ls) == 0 && Split(content) != [] && Split(content)[0].kind.Frontmatter? {
      NotOfBody(ls, Split(content));
    }
  }
}
