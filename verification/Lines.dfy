/** Lines and surrounding white space, as the Markdown splitter and the code preview
    use them: strings.Split and strings.Join on "\n", and strings.TrimSpace. */
module Lines {

  // ---- Splitting and joining ----------------------------------------------

  predicate OneLine(s: string) {
    '\n' !in s
  }

  predicate AllOneLine(ls: seq<string>) {
    forall i :: 0 <= i < |ls| ==> OneLine(ls[i])
  }

  /** strings.Split(s, "\n"): never empty, and the empty string has one empty line. */
  function SplitLines(s: string): (ls: seq<string>)
    ensures ls != [] && AllOneLine(ls)
  {
    if s == "" then [""]
    else if s[0] == '\n' then [""] + SplitLines(s[1..])
    else
      var rest := SplitLines(s[1..]);
      [[s[0]] + rest[0]] + rest[1..]
  }

  /** strings.Join(ls, "\n"). */
  function JoinLines(ls: seq<string>): string {
    if ls == [] then ""
    else if |ls| == 1 then ls[0]
    else ls[0] + "\n" + JoinLines(ls[1..])
  }

  lemma SplitHead(c: char, s: string)
    ensures SplitLines([c] + s) ==
            if c == '\n' then [""] + SplitLines(s) else [[c] + SplitLines(s)[0]] + SplitLines(s)[1..]
  {
    assert ([c] + s)[1..] == s;
  }

  lemma PrefixFirst(c: char, l: seq<string>, r: seq<string>)
    requires l != []
    ensures [[c] + (l + r)[0]] + (l + r)[1..] == [[c] + l[0]] + l[1..] + r
  {
    assert (l + r)[0] == l[0] && (l + r)[1..] == l[1..] + r;
  }

  /** A newline between two texts separates their lines. */
  lemma {:induction false} SplitSum(s: string, t: string)
    ensures SplitLines(s + "\n" + t) == SplitLines(s) + SplitLines(t)
  {
    if s == "" {
      SplitHead('\n', t);
      assert s + "\n" + t == ['\n'] + t;
    } else {
      SplitSum(s[1..], t);
      SplitSumHead(s[0], s[1..], t);
      HeadOfSum(s, t);
    }
  }

  lemma HeadOfSum(s: string, t: string)
    requires s != ""
    ensures s == [s[0]] + s[1..] && s + "\n" + t == [s[0]] + (s[1..] + "\n" + t)
  {
    assert s == [s[0]] + s[1..];
  }

  lemma SplitSumHead(c: char, s: string, t: string)
    requires SplitLines(s + "\n" + t) == SplitLines(s) + SplitLines(t)
    ensures SplitLines([c] + (s + "\n" + t)) == SplitLines([c] + s) + SplitLines(t)
  {
    SplitHead(c, s + "\n" + t);
    SplitHead(c, s);
    PrefixFirst(c, SplitLines(s), SplitLines(t));
    NewFirst(SplitLines(s), SplitLines(t));
  }

  lemma NewFirst(l: seq<string>, r: seq<string>)
    ensures [""] + (l + r) == [""] + l + r
  {
  }

  lemma {:induction false} SplitOneLine(s: string)
    requires OneLine(s)
    ensures SplitLines(s) == [s]
  {
    if s != "" {
      SplitOneLine(s[1..]);
      assert s == [s[0]] + s[1..];
    }
  }

  lemma {:induction false} SplitJoin(ls: seq<string>)
    requires ls != [] && AllOneLine(ls)
    ensures SplitLines(JoinLines(ls)) == ls
  {
    SplitOneLine(ls[0]);
    if |ls| > 1 {
      SplitJoin(ls[1..]);
      SplitSum(ls[0], JoinLines(ls[1..]));
    }
  }

  lemma JoinHead(l: string, ls: seq<string>)
    requires ls != []
    ensures JoinLines([l] + ls) == l + ("\n" + JoinLines(ls))
  {
    assert ([l] + ls)[1..] == ls;
    assert l + "\n" + JoinLines(ls) == l + ("\n" + JoinLines(ls));
  }

  lemma {:induction false} JoinSplit(s: string)
    ensures JoinLines(SplitLines(s)) == s
  {
    if s != "" {
      var c, rest := s[0], SplitLines(s[1..]);
      JoinSplit(s[1..]);
      assert s == [c] + s[1..];
      if c == '\n' {
        JoinHead("", rest);
      } else {
        JoinPrefix(c, rest);
      }
    }
  }

  lemma JoinPrefix(c: char, ls: seq<string>)
    requires ls != []
    ensures JoinLines([[c] + ls[0]] + ls[1..]) == [c] + JoinLines(ls)
  {
    if |ls| > 1 {
      JoinHead([c] + ls[0], ls[1..]);
      JoinHead(ls[0], ls[1..]);
      assert ls == [ls[0]] + ls[1..];
    }
  }

  lemma {:induction false} JoinSum(ls: seq<string>, ms: seq<string>)
    requires ls != [] && ms != []
    ensures JoinLines(ls + ms) == JoinLines(ls) + "\n" + JoinLines(ms)
  {
    assert (ls + ms)[1..] == ls[1..] + ms;
    if |ls| > 1 {
      JoinSum(ls[1..], ms);
    }
  }

  // ---- White space --------------------------------------------------------

  predicate IsSpace(c: char) {
    || c == ' ' || '\t' <= c <= '\r' || c == '\U{85}' || c == '\U{A0}' || c == '\U{1680}'
    || '\U{2000}' <= c <= '\U{200A}' || c == '\U{2028}' || c == '\U{2029}' || c == '\U{202F}'
    || c == '\U{205F}' || c == '\U{3000}'
  }

  predicate Blank(s: string) {
    forall i :: 0 <= i < |s| ==> IsSpace(s[i])
  }

  /** `s[i..j]` is what is left of `s` when white space is cut off both ends. */
  ghost predicate Core(s: string, i: nat, j: nat) {
    && i < j <= |s| && !IsSpace(s[i]) && !IsSpace(s[j - 1])
    && (forall k :: 0 <= k < i ==> IsSpace(s[k]))
    && (forall k :: j <= k < |s| ==> IsSpace(s[k]))
  }

  lemma HasCore(s: string) returns (i: nat, j: nat)
    requires !Blank(s)
    ensures Core(s, i, j)
  {
    i, j := 0, |s|;
    var ink :| 0 <= ink < |s| && !IsSpace(s[ink]);
    while IsSpace(s[i])
      invariant i <= ink && forall k :: 0 <= k < i ==> IsSpace(s[k])
      decreases ink - i
    {
      i := i + 1;
    }
    while IsSpace(s[j - 1])
      invariant ink < j <= |s| && forall k :: j <= k < |s| ==> IsSpace(s[k])
      decreases j
    {
      j := j - 1;
    }
  }

  lemma CoreIsUnique(s: string, i: nat, j: nat, i': nat, j': nat)
    requires Core(s, i, j) && Core(s, i', j')
    ensures i == i' && j == j'
  {
  }

  /** Bounds of the visible part of `s`; empty at 0 when there is none. */
  ghost function Ink(s: string): (b: (nat, nat))
    ensures b.0 <= b.1 <= |s|
  {
    if Blank(s) then (0, 0)
    else
      assert exists i: nat, j: nat :: Core(s, i, j) by { var i, j := HasCore(s); }
      var i: nat, j: nat :| Core(s, i, j);
      (i, j)
  }

  /** strings.TrimSpace. */
  ghost function Trim(s: string): string {
    s[Ink(s).0..Ink(s).1]
  }

  ghost function TrimLeft(s: string): string {
    if Blank(s) then "" else s[Ink(s).0..]
  }

  ghost function TrimRight(s: string): string {
    s[..Ink(s).1]
  }

  method TrimSpace(s: string) returns (t: string)
    ensures t == Trim(s)
  {
    var i, j := 0, |s|;
    while i < j && IsSpace(s[i])
      invariant 0 <= i <= j && forall k :: 0 <= k < i ==> IsSpace(s[k])
    {
      i := i + 1;
    }
    while i < j && IsSpace(s[j - 1])
      invariant i <= j <= |s| && forall k :: j <= k < |s| ==> IsSpace(s[k])
    {
      j := j - 1;
    }
    if i < j {
      TrimsToCore(s, i, j);
    }
    t := s[i..j];
  }

  lemma TrimsToCore(s: string, i: nat, j: nat)
    requires Core(s, i, j)
    ensures TrimLeft(s) == s[i..] && TrimRight(s) == s[..j] && Trim(s) == s[i..j] && !Blank(s)
  {
    CoreIsUnique(s, i, j, Ink(s).0, Ink(s).1);
  }

  /** Unicode's White_Space property. */
  const WHITE_SPACE: set<char> := {
    '\t', '\n', '\U{0B}', '\U{0C}', '\r', ' ', '\U{85}', '\U{A0}', '\U{1680}', '\U{2000}', '\U{2001}', '\U{2002}',
    '\U{2003}', '\U{2004}', '\U{2005}', '\U{2006}', '\U{2007}', '\U{2008}', '\U{2009}', '\U{200A}', '\U{2028}',
    '\U{2029}', '\U{202F}', '\U{205F}', '\U{3000}'}

  lemma SpaceIff(c: char)
    ensures IsSpace(c) <==> c in WHITE_SPACE
  {
    if IsSpace(c) {
      var n := c as int;
      assert c == n as char;
      assert 9 <= n <= 13 || n == 0x20 || n == 0x85 || n == 0xA0 || n == 0x1680 || 0x2000 <= n <= 0x200A
          || n == 0x2028 || n == 0x2029 || n == 0x202F || n == 0x205F || n == 0x3000;
    }
  }

  /** Trimming takes off white space and nothing else, and as much of it as there is. */
  lemma TrimIs(s: string) returns (before: string, after: string)
    ensures s == before + Trim(s) + after
    ensures forall c :: c in before + after ==> c in WHITE_SPACE
    ensures Trim(s) != "" ==> Trim(s)[0] !in WHITE_SPACE && Trim(s)[|Trim(s)| - 1] !in WHITE_SPACE
  {
    forall c: char
      ensures IsSpace(c) <==> c in WHITE_SPACE
    {
      SpaceIff(c);
    }
    if Blank(s) {
      before, after := s, "";
    } else {
      var i, j := HasCore(s);
      TrimsToCore(s, i, j);
      before, after := s[..i], s[j..];
      assert s == s[..i] + s[i..j] + s[j..];
    }
  }

  lemma BlankIffTrimEmpty(s: string)
    ensures Blank(s) <==> Trim(s) == ""
    ensures Blank(s) ==> TrimLeft(s) == "" && TrimRight(s) == ""
  {
  }

  lemma SliceOfSlice(s: string, from: nat, to: nat, i: nat, j: nat)
    requires from <= i <= j <= to <= |s|
    ensures s[from..to][i - from..j - from] == s[i..j]
  {
    var t, u := s[from..to], s[from..to][i - from..j - from];
    forall k | 0 <= k < j - i
      ensures u[k] == s[i..j][k]
    {
      assert u[k] == t[i - from + k] == s[i + k];
    }
  }

  /** Any part of `s` that still holds the core trims to the core. */
  lemma CoreOfPart(s: string, i: nat, j: nat, from: nat, to: nat)
    requires Core(s, i, j) && from <= i && j <= to <= |s|
    ensures Trim(s[from..to]) == s[i..j] && !Blank(s[from..to])
  {
    var t := s[from..to];
    assert t[i - from] == s[i] && t[j - from - 1] == s[j - 1];
    TrimsToCore(t, i - from, j - from);
    SliceOfSlice(s, from, to, i, j);
  }

  /** Trimming again, or trimming one side first, changes nothing. */
  lemma TrimTwice(s: string)
    ensures Trim(Trim(s)) == Trim(s) && Trim(TrimLeft(s)) == Trim(s) && Trim(TrimRight(s)) == Trim(s)
    ensures Blank(TrimLeft(s)) ==> Blank(s)
  {
    BlankIffTrimEmpty(s);
    if !Blank(s) {
      var i, j := HasCore(s);
      TrimsToCore(s, i, j);
      CoreOfPart(s, i, j, i, j);
      CoreOfEnds(s, i, j);
    }
  }

  lemma CoreOfEnds(s: string, i: nat, j: nat)
    requires Core(s, i, j)
    ensures Trim(s[i..]) == s[i..j] == Trim(s[..j]) && !Blank(s[i..])
  {
    CoreOfPart(s, i, j, i, |s|);
    CoreOfPart(s, i, j, 0, j);
    assert s[i..|s|] == s[i..];
    assert s[0..j] == s[..j];
  }

  lemma DropTake(s: string, i: nat, j: nat)
    requires i <= j <= |s|
    ensures s[i..][..j - i] == s[i..j]
  {
  }

  lemma TrimIsRightOfLeft(s: string)
    ensures TrimRight(TrimLeft(s)) == Trim(s)
  {
    BlankIffTrimEmpty(s);
    if Blank(s) {
      BlankIffTrimEmpty("");
    } else {
      var i, j := HasCore(s);
      TrimsToCore(s, i, j);
      var l := s[i..];
      assert l[0] == s[i] && l[j - i - 1] == s[j - 1];
      TrimsToCore(l, 0, j - i);
      DropTake(s, i, j);
    }
  }

  /** The first character of a visible line survives trimming on the right. */
  lemma TrimRightKeepsHead(s: string)
    requires !Blank(s)
    ensures TrimRight(s) != "" && TrimRight(s)[0] == s[0]
  {
    var i, j := HasCore(s);
    TrimsToCore(s, i, j);
  }

  lemma TrimLeftOfSum(s: string, t: string)
    requires !Blank(s)
    ensures TrimLeft(s + t) == TrimLeft(s) + t
  {
    var i, j := HasCore(s);
    var u := s + t;
    assert u[i] == s[i];
    var j' := InkEnd(u, i);
    TrimsToCore(s, i, j);
    TrimsToCore(u, i, j');
    assert u[i..] == s[i..] + t;
  }

  lemma InkEnd(s: string, i: nat) returns (j: nat)
    requires i < |s| && !IsSpace(s[i]) && forall k :: 0 <= k < i ==> IsSpace(s[k])
    ensures Core(s, i, j)
  {
    var i';
    i', j := HasCore(s);
  }

  lemma TrimRightOfSum(s: string, t: string)
    requires !Blank(t)
    ensures TrimRight(s + t) == s + TrimRight(t) && !Blank(s + t)
  {
    var i, j := HasCore(t);
    var u := s + t;
    assert u[|s| + j - 1] == t[j - 1];
    assert forall k :: |s| + j <= k < |u| ==> u[k] == t[k - |s|];
    var i', j' := HasCore(u);
    assert j' == |s| + j;
    TrimsToCore(t, i, j);
    TrimsToCore(u, i', j');
  }

  /** Lines with the outer ends of the first and the last one trimmed. */
  ghost function TrimEnds(ls: seq<string>): (r: seq<string>)
    requires ls != []
    ensures |r| == |ls|
  {
    var left := ls[0 := TrimLeft(ls[0])];
    left[|ls| - 1 := TrimRight(left[|ls| - 1])]
  }

  lemma {:induction false} TrimRightOfJoin(ls: seq<string>)
    requires ls != [] && !Blank(ls[|ls| - 1])
    ensures !Blank(JoinLines(ls))
    ensures TrimRight(JoinLines(ls)) == JoinLines(ls[|ls| - 1 := TrimRight(ls[|ls| - 1])])
  {
    var last := |ls| - 1;
    if last > 0 {
      var rest := ls[1..];
      TrimRightOfJoin(rest);
      TrimRightOfSum(ls[0] + "\n", JoinLines(rest));
      assert ls[last := TrimRight(ls[last])][1..] == rest[last - 1 := TrimRight(rest[last - 1])];
    }
  }

  lemma TrimLeftOfJoin(ls: seq<string>)
    requires ls != [] && !Blank(ls[0])
    ensures TrimLeft(JoinLines(ls)) == JoinLines(ls[0 := TrimLeft(ls[0])])
  {
    var l, rest := ls[0], ls[1..];
    assert ls == [l] + rest && ls[0 := TrimLeft(l)] == [TrimLeft(l)] + rest;
    if rest != [] {
      TrimLeftOfSum(l, "\n" + JoinLines(rest));
      JoinHead(l, rest);
      JoinHead(TrimLeft(l), rest);
    }
  }

  lemma TrimOfJoin(ls: seq<string>)
    requires ls != [] && !Blank(ls[0]) && !Blank(ls[|ls| - 1])
    ensures Trim(JoinLines(ls)) == JoinLines(TrimEnds(ls))
  {
    var left := ls[0 := TrimLeft(ls[0])];
    TrimLeftOfJoin(ls);
    TrimTwice(JoinLines(ls));
    TrimTwice(ls[0]);
    TrimRightOfJoin(left);
    assert TrimRight(JoinLines(left)) == JoinLines(TrimEnds(ls));
    TrimIsRightOfLeft(JoinLines(ls));
  }
}
