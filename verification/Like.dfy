/** Literal prefix search through SQL LIKE with ESCAPE '\' (internal/docgraph/store.go). */
module Like {

  /** strings.ReplaceAll with a one-character pattern. */
  function ReplaceAll(s: string, c: char, insert: string): string {
    if s == "" then ""
    else (if s[0] == c then insert else [s[0]]) + ReplaceAll(s[1..], c, insert)
  }

  /** Three passes; the escape character goes first. */
  function EscapeLikePrefix(s: string): string {
    ReplaceAll(ReplaceAll(ReplaceAll(s, '\\', "\\\\"), '%', "\\%"), '_', "\\_")
  }

  /** The engine's LIKE with escape character '\'; `same` is its character equality,
      which for SQLite ignores ASCII case. */
  predicate Matches(pattern: string, s: string, same: (char, char) -> bool)
    decreases |pattern| + |s|
  {
    if pattern == "" then s == ""
    else if pattern[0] == '%' then
      Matches(pattern[1..], s, same) || (s != "" && Matches(pattern, s[1..], same))
    else if pattern[0] == '\\' then
      |pattern| > 1 && s != "" && same(pattern[1], s[0]) && Matches(pattern[2..], s[1..], same)
    else
      s != "" && (pattern[0] == '_' || same(pattern[0], s[0])) && Matches(pattern[1..], s[1..], same)
  }

  predicate IsPrefix(p: string, s: string, same: (char, char) -> bool) {
    |p| <= |s| && forall i :: 0 <= i < |p| ==> same(p[i], s[i])
  }

  predicate IsMeta(c: char) {
    c == '\\' || c == '%' || c == '_'
  }

  /** What one character becomes. */
  function Escaped(c: char): string {
    if IsMeta(c) then ['\\', c] else [c]
  }

  lemma {:induction false} ReplaceSum(s: string, t: string, c: char, insert: string)
    ensures ReplaceAll(s + t, c, insert) == ReplaceAll(s, c, insert) + ReplaceAll(t, c, insert)
  {
    if s == "" {
      assert s + t == t;
    } else {
      var head := if s[0] == c then insert else [s[0]];
      var l, r := ReplaceAll(s[1..], c, insert), ReplaceAll(t, c, insert);
      ReplaceSum(s[1..], t, c, insert);
      assert (s + t)[1..] == s[1..] + t && (s + t)[0] == s[0];
      assert head + (l + r) == head + l + r;
    }
  }

  lemma ReplaceOne(x: char, c: char, insert: string)
    ensures ReplaceAll([x], c, insert) == if x == c then insert else [x]
  {
    assert [x][1..] == "";
  }

  lemma ReplaceTwo(x: char, y: char, c: char, insert: string)
    ensures ReplaceAll([x, y], c, insert) == (if x == c then insert else [x]) + (if y == c then insert else [y])
  {
    ReplaceSum([x], [y], c, insert);
    ReplaceOne(x, c, insert);
    ReplaceOne(y, c, insert);
    assert [x] + [y] == [x, y];
  }

  /** The three passes over one character act as one escape: later passes never touch
      what earlier ones produced. */
  lemma EscapeOne(c: char)
    ensures EscapeLikePrefix([c]) == Escaped(c)
  {
    ReplaceOne(c, '\\', "\\\\");
    if c == '\\' {
      ReplaceTwo('\\', '\\', '%', "\\%");
      ReplaceTwo('\\', '\\', '_', "\\_");
    } else {
      ReplaceOne(c, '%', "\\%");
      if c == '%' {
        ReplaceTwo('\\', '%', '_', "\\_");
      } else {
        ReplaceOne(c, '_', "\\_");
      }
    }
  }

  lemma EscapeSum(s: string, t: string)
    ensures EscapeLikePrefix(s + t) == EscapeLikePrefix(s) + EscapeLikePrefix(t)
  {
    ReplaceSum(s, t, '\\', "\\\\");
    var s1, t1 := ReplaceAll(s, '\\', "\\\\"), ReplaceAll(t, '\\', "\\\\");
    ReplaceSum(s1, t1, '%', "\\%");
    ReplaceSum(ReplaceAll(s1, '%', "\\%"), ReplaceAll(t1, '%', "\\%"), '_', "\\_");
  }

  lemma {:induction false} PercentMatchesAll(s: string, same: (char, char) -> bool)
    ensures Matches("%", s, same)
  {
    assert "%"[1..] == "";
    if s != "" {
      PercentMatchesAll(s[1..], same);
    }
  }

  /** An escaped character matches exactly itself. */
  lemma MatchesEscaped(c: char, rest: string, s: string, same: (char, char) -> bool)
    ensures Matches(Escaped(c) + rest, s, same) <==> s != "" && same(c, s[0]) && Matches(rest, s[1..], same)
  {
    var p := Escaped(c) + rest;
    if |Escaped(c)| == 2 {
      assert p[0] == '\\' && p[1] == c && p[2..] == rest;
    } else {
      assert p[0] == c && p[1..] == rest;
    }
  }

  /** The pattern built for a prefix selects exactly the strings that start with it,
      whatever metacharacters the prefix contains. */
  lemma {:induction false} EscapedPrefixIsLiteral(p: string, s: string, same: (char, char) -> bool)
    ensures Matches(EscapeLikePrefix(p) + "%", s, same) <==> IsPrefix(p, s, same)
  {
    if p == "" {
      PercentMatchesAll(s, same);
      assert "" + "%" == "%";
    } else {
      var rest := EscapeLikePrefix(p[1..]) + "%";
      assert p == [p[0]] + p[1..];
      EscapeSum([p[0]], p[1..]);
      EscapeOne(p[0]);
      assert EscapeLikePrefix(p) + "%" == Escaped(p[0]) + rest;
      MatchesEscaped(p[0], rest, s, same);
      if s != "" {
        EscapedPrefixIsLiteral(p[1..], s[1..], same);
        PrefixStep(p, s, same);
      }
    }
  }

  lemma PrefixStep(p: string, s: string, same: (char, char) -> bool)
    requires p != "" && s != ""
    ensures IsPrefix(p, s, same) <==> same(p[0], s[0]) && IsPrefix(p[1..], s[1..], same)
  {
    if same(p[0], s[0]) && IsPrefix(p[1..], s[1..], same) {
      forall i | 0 <= i < |p|
        ensures same(p[i], s[i])
      {
        assert i > 0 ==> same(p[1..][i - 1], s[1..][i - 1]);
      }
    }
    if IsPrefix(p, s, same) {
      forall i | 0 <= i < |p[1..]|
        ensures same(p[1..][i], s[1..][i])
      {
        assert same(p[i + 1], s[i + 1]);
      }
    }
  }

  ghost predicate Plain(p: string) {
    forall i :: 0 <= i < |p| ==> !IsMeta(p[i])
  }

  lemma {:induction false} PlainIsUnchanged(p: string)
    requires Plain(p)
    ensures EscapeLikePrefix(p) == p
  {
    if p != "" {
      PlainIsUnchanged(p[1..]);
      EscapeSum([p[0]], p[1..]);
      EscapeOne(p[0]);
      assert p == [p[0]] + p[1..];
    }
  }

  /** A shortest string that a pattern matches, with an 'a' for every underscore. */
  function Shortest(pattern: string): string {
    if pattern == "" then ""
    else if pattern[0] == '%' then Shortest(pattern[1..])
    else if pattern[0] == '\\' && |pattern| > 1 then [pattern[1]] + Shortest(pattern[2..])
    else [if pattern[0] == '_' then 'a' else pattern[0]] + Shortest(pattern[1..])
  }

  lemma {:induction false} ShortestMatches(p: string, same: (char, char) -> bool)
    requires forall c :: same(c, c)
    ensures Matches(p + "%", Shortest(p + "%"), same)
    decreases |p|
  {
    var q := p + "%";
    if p == "" {
      assert q[1..] == "";
    } else if p[0] == '\\' {
      if |p| > 1 {
        ShortestMatches(p[2..], same);
        assert q[2..] == p[2..] + "%";
      } else {
        assert q[2..] == "";
      }
    } else {
      ShortestMatches(p[1..], same);
      assert q[1..] == p[1..] + "%";
    }
  }

  /** It is a string of the same length only where it differs from what is not plain. */
  lemma {:induction false} ShortestIsShort(p: string, same: (char, char) -> bool)
    requires !same('_', 'a') && !same('\\', '%')
    ensures |Shortest(p + "%")| <= |p|
    ensures IsPrefix(p, Shortest(p + "%"), same) ==> Plain(p)
    decreases |p|
  {
    var q := p + "%";
    if p == "" {
      assert q[1..] == "";
    } else if p[0] == '\\' {
      if |p| > 1 {
        ShortestIsShort(p[2..], same);
        assert q[2..] == p[2..] + "%";
      } else {
        assert q[2..] == "" && Shortest(q) == "%";
      }
    } else {
      ShortestIsShort(p[1..], same);
      assert q[1..] == p[1..] + "%";
      if p[0] != '%' && IsPrefix(p, Shortest(q), same) {
        PrefixStep(p, Shortest(q), same);
        assert Shortest(q)[1..] == Shortest(q[1..]);
        assert p[0] != '_';
      }
    }
  }

  /** Escaping is needed: the prefix itself, with a percent sign after it, selects exactly
      the strings that start with it if and only if no metacharacter occurs in it. */
  lemma UnescapedIsLiteralIff(p: string, same: (char, char) -> bool)
    requires (forall c :: same(c, c)) && !same('_', 'a') && !same('\\', '%')
    ensures (forall s :: Matches(p + "%", s, same) <==> IsPrefix(p, s, same)) <==> Plain(p)
  {
    if Plain(p) {
      PlainIsUnchanged(p);
      forall s
        ensures Matches(p + "%", s, same) <==> IsPrefix(p, s, same)
      {
        EscapedPrefixIsLiteral(p, s, same);
      }
    } else {
      ShortestMatches(p, same);
      ShortestIsShort(p, same);
    }
  }
}
