/** The duplicate-title check of the agent queue (internal/db/dupcheck.go).

    `Distance` is the textbook recursion on prefixes.  Its meaning is given
    independently by edit scripts: `Distance(a, b)` is the least cost of a script
    that turns `a` into `b`.  `Levenshtein` is the single-row, in-place program of
    the repository, proved to compute `Distance`.  Strings are sequences of runes. */
module EditDistance {

  function Min3(a: nat, b: nat, c: nat): (r: nat)
    ensures r <= a && r <= b && r <= c && r in {a, b, c}
  {
    if a < b then if a < c then a else c
    else if b < c then b else c
  }

  /** The last element dropped. */
  function Init(s: string): (r: string)
    requires s != ""
    ensures |r| == |s| - 1
  {
    s[..|s| - 1]
  }

  function Last(s: string): char
    requires s != ""
  {
    s[|s| - 1]
  }

  /** Recursive edit distance: insertions, deletions and substitutions cost one. */
  function Distance(a: string, b: string): nat
    decreases |a| + |b|
  {
    if a == "" then |b|
    else if b == "" then |a|
    else if Last(a) == Last(b) then Distance(Init(a), Init(b))
    else 1 + Min3(Distance(Init(a), Init(b)), Distance(Init(a), b), Distance(a, Init(b)))
  }

  // ---- Edit scripts -------------------------------------------------------

  datatype Edit =
    | Keep(c: char)
    | Substitute(from: char, to: char)
    | Delete(removed: char)
    | Insert(added: char)

  /** What an edit reads, what it writes, and what it costs. */
  function Read(e: Edit): string {
    match e
    case Keep(c) => [c]
    case Substitute(c, _) => [c]
    case Delete(c) => [c]
    case Insert(_) => []
  }

  function Written(e: Edit): string {
    match e
    case Keep(c) => [c]
    case Substitute(_, c) => [c]
    case Delete(_) => []
    case Insert(c) => [c]
  }

  function Price(e: Edit): nat {
    if e.Keep? then 0 else 1
  }

  /** Edits carried out one after the other, the last one outermost. */
  datatype Script = Empty | Then(init: Script, last: Edit)

  function Source(script: Script): string {
    match script case Empty => "" case Then(init, e) => Source(init) + Read(e)
  }

  function Target(script: Script): string {
    match script case Empty => "" case Then(init, e) => Target(init) + Written(e)
  }

  function Cost(script: Script): nat {
    match script case Empty => 0 case Then(init, e) => Cost(init) + Price(e)
  }

  ghost predicate Turns(script: Script, a: string, b: string) {
    Source(script) == a && Target(script) == b
  }

  function Flip(e: Edit): Edit {
    match e
    case Keep(c) => Keep(c)
    case Substitute(c, d) => Substitute(d, c)
    case Delete(c) => Insert(c)
    case Insert(c) => Delete(c)
  }

  /** Undoing a script: deletions become insertions and the other way round. */
  function Inverse(script: Script): Script {
    match script case Empty => Empty case Then(init, e) => Then(Inverse(init), Flip(e))
  }

  lemma {:induction false} InverseSwaps(script: Script)
    ensures Turns(Inverse(script), Target(script), Source(script))
    ensures Cost(Inverse(script)) == Cost(script)
  {
    if script.Then? {
      InverseSwaps(script.init);
    }
  }

  // ---- The distance is the least cost -------------------------------------

  /** A script that realises the recursion's own choices. */
  function BestScript(a: string, b: string): Script
    decreases |a| + |b|
  {
    if a == "" && b == "" then Empty
    else if a == "" then Then(BestScript(a, Init(b)), Insert(Last(b)))
    else if b == "" then Then(BestScript(Init(a), b), Delete(Last(a)))
    else if Last(a) == Last(b) then Then(BestScript(Init(a), Init(b)), Keep(Last(a)))
    else if Distance(a, b) == 1 + Distance(Init(a), Init(b)) then
      Then(BestScript(Init(a), Init(b)), Substitute(Last(a), Last(b)))
    else if Distance(a, b) == 1 + Distance(Init(a), b) then
      Then(BestScript(Init(a), b), Delete(Last(a)))
    else
      Then(BestScript(a, Init(b)), Insert(Last(b)))
  }

  lemma InitLast(s: string)
    requires s != ""
    ensures Init(s) + [Last(s)] == s
  {
  }

  lemma {:induction false} BestScriptRealises(a: string, b: string)
    ensures Turns(BestScript(a, b), a, b)
    ensures Cost(BestScript(a, b)) == Distance(a, b)
    decreases |a| + |b|
  {
    if a != "" { InitLast(a); }
    if b != "" { InitLast(b); }
    if a == "" && b == "" {
    } else if a == "" {
      BestScriptRealises(a, Init(b));
    } else if b == "" {
      BestScriptRealises(Init(a), b);
    } else if Last(a) == Last(b) {
      BestScriptRealises(Init(a), Init(b));
    } else if Distance(a, b) == 1 + Distance(Init(a), Init(b)) {
      BestScriptRealises(Init(a), Init(b));
    } else if Distance(a, b) == 1 + Distance(Init(a), b) {
      BestScriptRealises(Init(a), b);
    } else {
      BestScriptRealises(a, Init(b));
    }
  }

  /** Dropping the last rune of either side changes the distance by at most one.
      This is what justifies taking the diagonal for free when runes agree. */
  lemma {:induction false} DropLast(a: string, b: string)
    ensures b != "" ==> Distance(a, Init(b)) <= Distance(a, b) + 1
    ensures a != "" ==> Distance(Init(a), b) <= Distance(a, b) + 1
    ensures b != "" ==> Distance(a, b) <= Distance(a, Init(b)) + 1
    ensures a != "" ==> Distance(a, b) <= Distance(Init(a), b) + 1
    decreases |a| + |b|
  {
    if a != "" && b != "" {
      DropLast(Init(a), b);
      DropLast(a, Init(b));
      DropLast(Init(a), Init(b));
    }
  }

  lemma InitOfSum(s: string, c: char)
    ensures Init(s + [c]) == s && Last(s + [c]) == c
  {
  }

  lemma {:induction false} NoCheaperScript(script: Script)
    ensures Distance(Source(script), Target(script)) <= Cost(script)
  {
    if script.Then? {
      NoCheaperScript(script.init);
      EditCosts(Source(script.init), Target(script.init), script.last);
    }
  }

  /** One more edit changes the distance by at most its price. */
  lemma EditCosts(a: string, b: string, e: Edit)
    ensures Distance(a + Read(e), b + Written(e)) <= Distance(a, b) + Price(e)
  {
    match e
    case Keep(c) =>
      InitOfSum(a, c);
      InitOfSum(b, c);
    case Substitute(c, d) =>
      InitOfSum(a, c);
      InitOfSum(b, d);
      DropLast(a + [c], b + [d]);
      DropLast(a + [c], b);
    case Delete(c) =>
      InitOfSum(a, c);
      assert b + Written(e) == b;
      DropLast(a + [c], b);
    case Insert(c) =>
      InitOfSum(b, c);
      assert a + Read(e) == a;
      DropLast(a, b + [c]);
  }

  /** `Distance(a, b)` is the least cost of a script turning `a` into `b`. */
  lemma DistanceIsLeastCost(a: string, b: string)
    ensures exists script :: Turns(script, a, b) && Cost(script) == Distance(a, b)
    ensures forall script :: Turns(script, a, b) ==> Distance(a, b) <= Cost(script)
  {
    BestScriptRealises(a, b);
    forall script | Turns(script, a, b)
      ensures Distance(a, b) <= Cost(script)
    {
      NoCheaperScript(script);
    }
  }

  // ---- Metric laws --------------------------------------------------------

  lemma {:induction false} Symmetric(a: string, b: string)
    ensures Distance(a, b) == Distance(b, a)
  {
    BestScriptRealises(a, b);
    InverseSwaps(BestScript(a, b));
    NoCheaperScript(Inverse(BestScript(a, b)));
    BestScriptRealises(b, a);
    InverseSwaps(BestScript(b, a));
    NoCheaperScript(Inverse(BestScript(b, a)));
  }

  /** Running one script after another: edits that meet on the same rune of the
      middle string are merged into one. */
  function Compose(s: Script, t: Script): (u: Script)
    requires Target(s) == Source(t)
    decreases s, t
  {
    if s.Empty? && t.Empty? then Empty
    else if s.Then? && s.last.Delete? then
      EmptyEnd(Target(s.init));
      Then(Compose(s.init, t), s.last)
    else if t.Then? && t.last.Insert? then
      EmptyEnd(Source(t.init));
      Then(Compose(s, t.init), t.last)
    else
      BothEnd(s, t);
      var rest := Compose(s.init, t.init);
      match (s.last, t.last)
      case (Insert(_), Delete(_)) => rest
      case (Insert(_), Keep(c)) => Then(rest, Insert(c))
      case (Insert(_), Substitute(_, c)) => Then(rest, Insert(c))
      case (Keep(_), f) => Then(rest, f)
      case (Substitute(c, _), Keep(d)) => Then(rest, Substitute(c, d))
      case (Substitute(c, _), Substitute(_, d)) => Then(rest, Substitute(c, d))
      case (Substitute(c, _), Delete(_)) => Then(rest, Delete(c))
  }

  lemma EmptyEnd(s: string)
    ensures s + [] == s
  {
  }

  /** Where neither script ends in an edit of its own, both end on one rune. */
  lemma BothEnd(s: Script, t: Script)
    requires Target(s) == Source(t) && !(s.Empty? && t.Empty?)
    requires s.Then? ==> !s.last.Delete?
    requires t.Then? ==> !t.last.Insert?
    ensures s.Then? && t.Then? && Target(s.init) == Source(t.init) && Written(s.last) == Read(t.last)
  {
    if s.Then? && t.Then? {
      SameEnd(Target(s.init), Written(s.last), Source(t.init), Read(t.last));
    }
  }

  lemma SameEnd(x: string, c: string, y: string, d: string)
    requires x + c == y + d && |c| == |d| == 1
    ensures x == y && c == d
  {
    assert x == (x + c)[..|x|] && y == (y + d)[..|y|];
    assert c[0] == (x + c)[|x|] && d[0] == (y + d)[|y|];
  }

  lemma {:induction false} ComposeTurns(s: Script, t: Script)
    requires Target(s) == Source(t)
    ensures Turns(Compose(s, t), Source(s), Target(t))
    ensures Cost(Compose(s, t)) <= Cost(s) + Cost(t)
    decreases s, t
  {
    if s.Empty? && t.Empty? {
    } else if s.Then? && s.last.Delete? {
      EmptyEnd(Target(s.init));
      EmptyEnd(Target(t));
      ComposeTurns(s.init, t);
    } else if t.Then? && t.last.Insert? {
      EmptyEnd(Source(t.init));
      EmptyEnd(Source(s));
      ComposeTurns(s, t.init);
    } else {
      BothEnd(s, t);
      ComposeTurns(s.init, t.init);
      EmptyEnd(Source(s.init));
      EmptyEnd(Target(t.init));
    }
  }

  lemma Triangle(a: string, b: string, c: string)
    ensures Distance(a, c) <= Distance(a, b) + Distance(b, c)
  {
    BestScriptRealises(a, b);
    BestScriptRealises(b, c);
    ComposeTurns(BestScript(a, b), BestScript(b, c));
    NoCheaperScript(Compose(BestScript(a, b), BestScript(b, c)));
  }

  lemma {:induction false} Bounds(a: string, b: string)
    ensures |a| - |b| <= Distance(a, b) && |b| - |a| <= Distance(a, b)
    ensures Distance(a, b) <= if |a| < |b| then |b| else |a|
    decreases |a| + |b|
  {
    if a != "" && b != "" {
      Bounds(Init(a), Init(b));
      Bounds(Init(a), b);
      Bounds(a, Init(b));
    }
  }

  lemma {:induction false} ZeroIffEqual(a: string, b: string)
    ensures Distance(a, b) == 0 <==> a == b
    decreases |a| + |b|
  {
    if a != "" && b != "" {
      assert a == Init(a) + [Last(a)] && b == Init(b) + [Last(b)];
      ZeroIffEqual(Init(a), Init(b));
    }
  }

  // ---- The single-row program ---------------------------------------------

  /** One cell of the table, from its three neighbours. */
  lemma Cell(a: string, b: string, i: nat, j: nat)
    requires 1 <= i <= |b| && 1 <= j <= |a|
    ensures Distance(a[..j], b[..i]) ==
            if a[j - 1] == b[i - 1] then Distance(a[..j - 1], b[..i - 1])
            else 1 + Min3(Distance(a[..j - 1], b[..i - 1]),
                          Distance(a[..j], b[..i - 1]),
                          Distance(a[..j - 1], b[..i]))
  {
    assert Init(a[..j]) == a[..j - 1] && Init(b[..i]) == b[..i - 1];
  }

  /** `row[j]` holds the distance of the first `j` runes of `a` and the first `i` of `b`. */
  ghost predicate RowIs(row: seq<nat>, a: string, b: string, i: nat)
    requires i <= |b|
  {
    |row| == |a| + 1 && forall j :: 0 <= j <= |a| ==> row[j] == Distance(a[..j], b[..i])
  }

  /** The inner loop: one pass over the row moves it from `i - 1` to `i`. */
  method AdvanceRow(row: array<nat>, a: string, b: string, i: nat)
    requires 1 <= i <= |b| && RowIs(row[..], a, b, i - 1)
    modifies row
    ensures RowIs(row[..], a, b, i)
  {
    var prev := row[0];
    row[0] := i;
    for j := 1 to |a| + 1
      invariant prev == old(row[j - 1])
      invariant forall k :: 0 <= k < j ==> row[k] == Distance(a[..k], b[..i])
      invariant forall k :: j <= k <= |a| ==> row[k] == old(row[k])
    {
      var cell := row[j];
      Cell(a, b, i, j);
      if a[j - 1] == b[i - 1] {
        row[j] := prev;
      } else {
        row[j] := 1 + Min3(prev, row[j], row[j - 1]);
      }
      prev := cell;
    }
  }

  method Levenshtein(a: string, b: string) returns (distance: nat)
    ensures distance == Distance(a, b)
  {
    var ra, rb := a, b;
    if |ra| > |rb| {
      ra, rb := rb, ra;
      Symmetric(a, b);
    }
    var m, n := |ra|, |rb|;
    var row := new nat[m + 1];
    for j := 0 to m + 1
      invariant forall k :: 0 <= k < j ==> row[k] == k
    {
      row[j] := j;
    }
    for i := 1 to n + 1
      invariant RowIs(row[..], ra, rb, i - 1)
    {
      AdvanceRow(row, ra, rb, i);
    }
    assert ra[..m] == ra && rb[..n] == rb;
    distance := row[m];
  }

  /** Similarity in [0, 1]: one exactly for equal titles, and the same either way
      round.  Quotients are exact here (see README on rounding). */
  method TitleSimilarity(a: string, b: string) returns (similarity: real)
    ensures 0.0 <= similarity <= 1.0
    ensures similarity == 1.0 <==> a == b
    ensures |a| >= |b| && a != "" ==> IsQuotient(1.0 - similarity, Distance(a, b), |a|)
    ensures |b| > |a| ==> IsQuotient(1.0 - similarity, Distance(a, b), |b|)
  {
    var maxLen := |a|;
    if |b| > maxLen {
      maxLen := |b|;
    }
    if maxLen == 0 {
      return 1.0;
    }
    var dist := Levenshtein(a, b);
    Bounds(a, b);
    ZeroIffEqual(a, b);
    var ratio := Ratio(dist, maxLen);
    similarity := 1.0 - ratio;
    assert 1.0 - similarity == ratio;
  }

  predicate IsQuotient(q: real, d: nat, m: nat) {
    q * m as real == d as real
  }

  function Ratio(d: nat, m: nat): (q: real)
    requires m > 0
    ensures IsQuotient(q, d, m)
    ensures d <= m ==> 0.0 <= q <= 1.0
    ensures q == 0.0 <==> d == 0
    ensures q == 1.0 <==> d == m
  {
    assert d as real / m as real * m as real == d as real;
    d as real / m as real
  }
}
