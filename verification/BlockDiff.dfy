/** The whole block diff (internal/history/differ.go): fast paths, search, back-trace,
    and change list. */
module BlockDiff {
  import opened Blocks
  import opened EditGraph
  import opened Outcomes
  import opened Myers
  import opened Changes
  import Lines
  import Splitter

  method InsertsOnly(newBlocks: seq<Block>) returns (changes: seq<Change>)
    ensures changes == AllAdded(newBlocks, 0)
  {
    changes := [];
    for i := 0 to |newBlocks|
      invariant changes + AllAdded(newBlocks, i) == AllAdded(newBlocks, 0)
    {
      var nb := newBlocks[i];
      assert AllAdded(newBlocks, i) == [Change(Added, nb.kind, nb.section, "", nb.raw)] + AllAdded(newBlocks, i + 1);
      changes := changes + [Change(Added, nb.kind, nb.section, "", nb.raw)];
    }
  }

  method DeletesOnly(oldBlocks: seq<Block>) returns (changes: seq<Change>)
    ensures changes == AllRemoved(oldBlocks, 0)
  {
    changes := [];
    for i := 0 to |oldBlocks|
      invariant changes + AllRemoved(oldBlocks, i) == AllRemoved(oldBlocks, 0)
    {
      var ob := oldBlocks[i];
      assert AllRemoved(oldBlocks, i) == [Change(Removed, ob.kind, ob.section, ob.raw, "")] + AllRemoved(oldBlocks, i + 1);
      changes := changes + [Change(Removed, ob.kind, ob.section, ob.raw, "")];
    }
  }

  function AllAdded(bs: seq<Block>, i: nat): seq<Change>
    requires i <= |bs|
    decreases |bs| - i
  {
    if i == |bs| then [] else [Change(Added, bs[i].kind, bs[i].section, "", bs[i].raw)] + AllAdded(bs, i + 1)
  }

  function AllRemoved(bs: seq<Block>, i: nat): seq<Change>
    requires i <= |bs|
    decreases |bs| - i
  {
    if i == |bs| then [] else [Change(Removed, bs[i].kind, bs[i].section, bs[i].raw, "")] + AllRemoved(bs, i + 1)
  }

  // ---- The fast paths are the general path --------------------------------

  /** With nothing old, a replayable script can only insert 0, 1, 2, ... */
  lemma {:induction false} NothingOld(ops: seq<EditOp>, b: seq<Text>)
    requires Replay(ops, [], b).Some?
    ensures Replay(ops, [], b).value.taken == 0 && |Replay(ops, [], b).value.out| == |ops|
    ensures forall p :: 0 <= p < |ops| ==> ops[p] == Insert(p)
  {
    if ops != [] {
      var init, op := ops[..|ops| - 1], ops[|ops| - 1];
      NothingOld(init, b);
      var c := Replay(init, [], b).value;
      assert Apply(c, op, [], b).Some?;
      assert op == Insert(|c.out|);
    }
  }

  /** With nothing new, a replayable script that writes nothing can only delete 0, 1, 2, ... */
  lemma {:induction false} NothingNew(ops: seq<EditOp>, a: seq<Text>)
    requires Replay(ops, a, []).Some? && Replay(ops, a, []).value.out == []
    ensures Replay(ops, a, []).value.taken == |ops|
    ensures forall p :: 0 <= p < |ops| ==> ops[p] == Delete(p)
  {
    if ops != [] {
      NothingNew(ops[..|ops| - 1], a);
    }
  }

  lemma {:induction false} AllInserted(ops: seq<EditOp>, i: nat, newBlocks: seq<Block>)
    requires |ops| == |newBlocks| && i <= |ops| && forall p :: 0 <= p < |ops| ==> ops[p] == Insert(p)
    ensures ChangesFrom(ops, i, [], newBlocks) == AllAdded(newBlocks, i)
    decreases |ops| - i
  {
    if i < |ops| {
      AllInserted(ops, i + 1, newBlocks);
    }
  }

  lemma {:induction false} AllDeleted(ops: seq<EditOp>, i: nat, oldBlocks: seq<Block>)
    requires |ops| == |oldBlocks| && i <= |ops| && forall p :: 0 <= p < |ops| ==> ops[p] == Delete(p)
    ensures ChangesFrom(ops, i, oldBlocks, []) == AllRemoved(oldBlocks, i)
    decreases |ops| - i
  {
    if i < |ops| {
      AllDeleted(ops, i + 1, oldBlocks);
    }
  }

  lemma FastPathsAgree(bs: seq<Block>)
    ensures Diff([], bs) == AllAdded(bs, 0)
    ensures Diff(bs, []) == AllRemoved(bs, 0)
  {
    var ts := Texts(bs);
    assert Texts([]) == [];
    ScriptIsShortest([], ts);
    ScriptPatches([], ts);
    NothingOld(Script([], ts), ts);
    AllInserted(Script([], ts), 0, bs);
    ScriptIsShortest(ts, []);
    ScriptPatches(ts, []);
    NothingNew(Script(ts, []), ts);
    AllDeleted(Script(ts, []), 0, bs);
  }

  // ---- The diff -----------------------------------------------------------

  method MyersDiff(oldBlocks: seq<Block>, newBlocks: seq<Block>) returns (changes: seq<Change>)
    ensures changes == Diff(oldBlocks, newBlocks)
  {
    if oldBlocks == [] && newBlocks == [] {
      FastPathsAgree(newBlocks);
      return [];
    }
    if oldBlocks == [] {
      FastPathsAgree(newBlocks);
      changes := InsertsOnly(newBlocks);
      return;
    }
    if newBlocks == [] {
      FastPathsAgree(oldBlocks);
      changes := DeletesOnly(oldBlocks);
      return;
    }
    ghost var a, b := Texts(oldBlocks), Texts(newBlocks);
    var trace, finalD, rows := ForwardPass(oldBlocks, newBlocks);
    var ops := new EditOp[finalD];
    ghost var path, script := ScriptPath(a, b, rows);
    BackTrace(trace, |oldBlocks|, |newBlocks|, ops, a, b, rows, path, script);
    ReverseInPlace(ops, script);
    ScriptIsShortest(a, b);
    changes := OpsToChanges(ops[..], oldBlocks, newBlocks);
  }

  method DiffDocs(oldContent: string, newContent: string) returns (changes: seq<Change>)
    ensures changes == Diff(Splitter.Split(oldContent), Splitter.Split(newContent))
  {
    var oldBlocks := Splitter.SplitBlocks(oldContent);
    var newBlocks := Splitter.SplitBlocks(newContent);
    changes := MyersDiff(oldBlocks, newBlocks);
  }

  /** Cosmetic changes go unreported: a document differs neither from itself nor from
      its blocks printed with one blank line in between. */
  lemma LayoutIsIgnored(content: string)
    ensures Diff(Splitter.Split(content), Splitter.Split(content)) == []
    ensures !Splitter.FrontAfterBlank(Lines.SplitLines(content)) ==>
      Diff(Splitter.Split(content), Splitter.Split(Splitter.Print(Splitter.Split(content)))) == []
  {
    var bs := Splitter.Split(content);
    var a := Texts(bs);
    SubsequenceGrows([], [], a);
    assert [] + a == a;
    EmptyDiff(bs, bs);
    Splitter.SplitAgain(content);
  }

  /** The rows the search stored determine the script. */
  lemma ScriptPath(a: seq<Text>, b: seq<Text>, rows: seq<seq<nat>>) returns (path: seq<nat>, script: seq<EditOp>)
    requires IsRows(a, b, rows) && |rows| == EditLength(a, b)
    ensures script == Script(a, b) && IsPath(a, b, rows, path, script)
    ensures |a| - |b| == 2 * path[|script|] - |script|
  {
    RowsAreUnique(a, b, rows, Rows(a, b, |rows|));
    GoalIsCorner(a, b, rows);
    path := PathTo(a, b, rows, |a| - Lcs(a, b));
    script := Script(a, b);
  }

  lemma {:induction false} RowsAreUnique(a: seq<Text>, b: seq<Text>, r: seq<seq<nat>>, s: seq<seq<nat>>)
    requires IsRows(a, b, r) && IsRows(a, b, s) && |r| == |s|
    ensures r == s
  {
    if r != [] {
      var last := |r| - 1;
      InitIsRows(a, b, r);
      InitIsRows(a, b, s);
      RowsAreUnique(a, b, r[..last], s[..last]);
      assert Follows(a, b, r, last) && Follows(a, b, s, last);
      assert Before(r, last) == Before(s, last);
    }
  }

  // ---- Accounting for the whole diff --------------------------------------

  lemma {:induction false} DeletedTextsCount(ops: seq<EditOp>, i: nat, oldBlocks: seq<Block>, m: nat)
    requires i <= |ops| && InRange(ops, |oldBlocks|, m)
    ensures |DeletedTexts(ops, i, oldBlocks, m)| == Deletes(ops) - Deletes(ops[..i])
    decreases |ops| - i
  {
    if i < |ops| {
      DeletedTextsCount(ops, i + 1, oldBlocks, m);
      assert ops[..i + 1][..i] == ops[..i];
    } else {
      assert ops[..i] == ops;
    }
  }

  /** Every old block outside the longest common subsequence is reported exactly once,
      every inserted text the old document lacks is reported as often as it is
      inserted, nothing is presented more often than inserted or out of order, and labels
      are true. */
  lemma DiffAccounts(oldBlocks: seq<Block>, newBlocks: seq<Block>)
    ensures var (a, b) := (Texts(oldBlocks), Texts(newBlocks));
      var (ops, changes) := (Script(a, b), Diff(oldBlocks, newBlocks));
      && InRange(ops, |oldBlocks|, |newBlocks|)
      && OldTexts(changes) == DeletedTexts(ops, 0, oldBlocks, |newBlocks|)
      && |OldTexts(changes)| == |a| - Lcs(a, b)
      && Presents(NewTexts(changes), InsertedTexts(ops, 0, newBlocks, |oldBlocks|), oldBlocks)
      && IsSubsequence(NewTexts(changes), InsertedTexts(ops, 0, newBlocks, |oldBlocks|))
      && forall c :: c in changes ==> Truthful(c, oldBlocks, newBlocks)
  {
    var a, b := Texts(oldBlocks), Texts(newBlocks);
    var ops := Script(a, b);
    ScriptIsShortest(a, b);
    DeletesAreAccounted(ops, 0, oldBlocks, newBlocks);
    InsertsAreAccounted(ops, 0, oldBlocks, newBlocks);
    LabelsAreTruthful(ops, 0, oldBlocks, newBlocks);
    ScriptPatches(a, b);
    ReplayCounts(ops, a, b);
    DeletedTextsCount(ops, 0, oldBlocks, |newBlocks|);
  }

  // ---- Folded texts -------------------------------------------------------

  /** Where the replay stands after the first `d` edits of the script. */
  lemma {:induction false} ReplayPrefix(a: seq<Text>, b: seq<Text>, rows: seq<seq<nat>>, path: seq<nat>, script: seq<EditOp>, d: nat)
    requires IsRows(a, b, rows) && IsPath(a, b, rows, path, script) && 0 < d <= |rows|
    ensures Before(rows, 0) == [] && |rows[d - 1]| == d && path[d] <= d
    ensures var (row, j) := (rows[d - 1], path[d]);
      && Enter(row, j) + d - 2 * j <= |b|
      && Replay(script[..d], a, b) == Some(CursorAt(b, row, j))
  {
    var row, j := rows[d - 1], path[d];
    assert script[..d][..d - 1] == script[..d - 1] && script[..d][d - 1] == script[d - 1];
    ComesFromGrid(a, b, row, j);
    assert Follows(a, b, rows, d - 1);
    if d > 1 {
      ReplayPrefix(a, b, rows, path, script, d - 1);
    }
    ReplayOneStep(a, b, Before(rows, d - 1), row, j);
  }

  lemma UnmatchedEditsDiffer(a: seq<Text>, b: seq<Text>, rows: seq<seq<nat>>, path: seq<nat>, script: seq<EditOp>, p: nat)
    requires IsRows(a, b, rows) && IsPath(a, b, rows, path, script) && p + 1 < |script|
    requires script[p].Delete? && script[p + 1].Insert? && Replay(script[..p + 1], a, b).Some?
    requires |Replay(script[..p + 1], a, b).value.out| == script[p + 1].newI
    ensures script[p].oldI < |a| && script[p + 1].newI < |b| ==> a[script[p].oldI] != b[script[p + 1].newI]
  {
    InsertFollows(a, b, rows, path, script, p);
    OnPath(a, b, rows, path, script, p);
    assert Follows(a, b, rows, p);
    DeleteAtMaximal(a, b, Before(rows, p), rows[p], path[p + 1]);
  }

  lemma InsertFollows(a: seq<Text>, b: seq<Text>, rows: seq<seq<nat>>, path: seq<nat>, script: seq<EditOp>, p: nat)
    requires IsRows(a, b, rows) && IsPath(a, b, rows, path, script) && p + 1 < |script|
    requires script[p + 1].Insert? && Replay(script[..p + 1], a, b).Some?
    requires |Replay(script[..p + 1], a, b).value.out| == script[p + 1].newI
    ensures |rows[p]| == p + 1 && IsRow(rows[p]) && path[p + 1] <= p + 1
    ensures script[p + 1].newI == Enter(rows[p], path[p + 1]) + p + 1 - 2 * path[p + 1]
  {
    ReplayPrefix(a, b, rows, path, script, p + 1);
  }

  /** A delete enters the diagonal at the end of a maximal run. */
  lemma DeleteAtMaximal(a: seq<Text>, b: seq<Text>, before: seq<nat>, row: seq<nat>, q: nat)
    requires IsRow(before) && row == NextRow(a, b, before) && IsRow(row) && q <= |row| && OpAt(row, q).Delete?
    ensures var (x, y) := (OpAt(row, q).oldI, Enter(row, q) + |row| - 2 * q);
      x < |a| && y < |b| ==> a[x] != b[y]
  {
    EndsMaximal(a, b, before, q - 1);
  }

  /** A delete directly followed by an insert, with no block matched in between, never
      replaces a text by itself: the search would have run along that match instead. */
  lemma FoldedTextsDiffer(a: seq<Text>, b: seq<Text>, p: nat)
    requires p + 1 < |Script(a, b)| && Script(a, b)[p].Delete? && Script(a, b)[p + 1].Insert?
    requires Replay(Script(a, b)[..p + 1], a, b).Some?
    requires |Replay(Script(a, b)[..p + 1], a, b).value.out| == Script(a, b)[p + 1].newI
    ensures Script(a, b)[p].oldI < |a| && Script(a, b)[p + 1].newI < |b|
    ensures a[Script(a, b)[p].oldI] != b[Script(a, b)[p + 1].newI]
  {
    ScriptIsShortest(a, b);
    var rows := Rows(a, b, EditLength(a, b));
    var path, script := ScriptPath(a, b, rows);
    UnmatchedEditsDiffer(a, b, rows, path, script, p);
  }

  /** A delete and the insert right after it in the script, with `run` blocks matched in
      between; the lengths are those of the two documents. */
  ghost predicate Adjacent(ops: seq<EditOp>, p: nat, x: nat, y: nat, run: nat, n: nat, m: nat) {
    && p + 1 < |ops| && ops[p] == Delete(x) && ops[p + 1] == Insert(y)
    && run <= y < m && x + run < n
  }

  /** The new stretch is the old one rotated left by one. */
  ghost predicate Rotated(a: seq<Text>, b: seq<Text>, x: nat, y: nat, run: nat)
    requires run <= y < |b| && x + run < |a|
  {
    run > 0 && b[y - run..y + 1] == a[x + 1..x + run + 1] + [a[x]]
  }

  /** Replaying only ever appends. */
  lemma {:induction false} ReplayGrows(ops: seq<EditOp>, a: seq<Text>, b: seq<Text>, d: nat)
    requires Replay(ops, a, b).Some? && d <= |ops|
    ensures Replay(ops[..d], a, b).Some? && Replay(ops[..d], a, b).value.out <= Replay(ops, a, b).value.out
    decreases |ops|
  {
    if d < |ops| {
      ReplayGrows(ops[..|ops| - 1], a, b, d);
      assert ops[..|ops| - 1][..d] == ops[..d];
    } else {
      assert ops[..d] == ops;
    }
  }

  lemma PatchesSoFar(a: seq<Text>, b: seq<Text>, d: nat)
    requires d <= |Script(a, b)|
    ensures Replay(Script(a, b)[..d], a, b).Some? && Replay(Script(a, b)[..d], a, b).value.out <= b
  {
    ScriptIsShortest(a, b);
    ScriptPatches(a, b);
    ReplayGrows(Script(a, b), a, b, d);
  }

  /** What an insert copies is the stretch of the new document before it. */
  lemma InsertCopies(c: Cursor, y: nat, a: seq<Text>, b: seq<Text>)
    requires Apply(c, Insert(y), a, b).Some? && Apply(c, Insert(y), a, b).value.out <= b
    ensures |c.out| <= y < |b| && c.taken + y - |c.out| <= |a|
    ensures a[c.taken..c.taken + y - |c.out|] == b[|c.out|..y]
  {
    var end := c.taken + y - |c.out|;
    var out := c.out + a[c.taken..end] + [b[y]];
    assert out[|c.out|..y] == a[c.taken..end];
    assert out == b[..y + 1];
  }

  lemma LastTwo(ops: seq<EditOp>, p: nat, a: seq<Text>, b: seq<Text>)
    requires p + 1 < |ops| && ops[p].Delete? && Replay(ops[..p + 1], a, b).Some? && Replay(ops[..p + 2], a, b).Some?
    ensures Replay(ops[..p + 1], a, b).value.taken == ops[p].oldI + 1
    ensures Apply(Replay(ops[..p + 1], a, b).value, ops[p + 1], a, b) == Replay(ops[..p + 2], a, b)
  {
    assert ops[..p + 2][..p + 1] == ops[..p + 1] && ops[..p + 1][..p] == ops[..p];
  }

  /** Between the two edits the documents agree. */
  lemma RunBetween(a: seq<Text>, b: seq<Text>, p: nat) returns (x: nat, y: nat, run: nat)
    requires p + 1 < |Script(a, b)| && Script(a, b)[p].Delete? && Script(a, b)[p + 1].Insert?
    ensures Adjacent(Script(a, b), p, x, y, run, |a|, |b|) && a[x + 1..x + run + 1] == b[y - run..y]
    ensures a[x] == b[y] ==> run > 0
  {
    var ops := Script(a, b);
    PatchesSoFar(a, b, p + 1);
    PatchesSoFar(a, b, p + 2);
    LastTwo(ops, p, a, b);
    var c := Replay(ops[..p + 1], a, b).value;
    x, y := ops[p].oldI, ops[p + 1].newI;
    InsertCopies(c, y, a, b);
    run := y - |c.out|;
    if run == 0 {
      FoldedTextsDiffer(a, b, p);
    }
  }

  /** A delete and the insert right after it concern the same text if and only if the
      stretch from the one to the other has been rotated. */
  lemma SameTextIffRotated(a: seq<Text>, b: seq<Text>, p: nat) returns (x: nat, y: nat, run: nat)
    requires p + 1 < |Script(a, b)| && Script(a, b)[p].Delete? && Script(a, b)[p + 1].Insert?
    ensures Adjacent(Script(a, b), p, x, y, run, |a|, |b|) && a[x + 1..x + run + 1] == b[y - run..y]
    ensures a[x] == b[y] <==> Rotated(a, b, x, y, run)
  {
    x, y, run := RunBetween(a, b, p);
    assert b[y - run..y + 1] == b[y - run..y] + [b[y]];
    assert (a[x + 1..x + run + 1] + [a[x]])[run] == a[x] && b[y - run..y + 1][run] == b[y];
  }

  ghost predicate IntoItself(c: Change) {
    c.what.Modified? && c.oldContent == c.newContent
  }

  /** Edit `p` deletes a text, and the edit after it inserts the same text, into one change. */
  ghost predicate FoldsIntoItself(ops: seq<EditOp>, p: nat, oldBlocks: seq<Block>, newBlocks: seq<Block>)
    requires InRange(ops, |oldBlocks|, |newBlocks|)
  {
    && p + 1 < |ops| && ops[p].Delete? && ops[p + 1].Insert?
    && Folds(oldBlocks[ops[p].oldI], newBlocks[ops[p + 1].newI])
    && oldBlocks[ops[p].oldI].raw == newBlocks[ops[p + 1].newI].raw
  }

  ghost predicate HasIntoItself(changes: seq<Change>) {
    exists c :: c in changes && IntoItself(c)
  }

  lemma HasInEither(cs: seq<Change>, ds: seq<Change>)
    ensures HasIntoItself(cs + ds) <==> HasIntoItself(cs) || HasIntoItself(ds)
  {
    assert forall c :: c in cs + ds <==> c in cs || c in ds;
  }

  lemma IntoItselfAt(ops: seq<EditOp>, i: nat, oldBlocks: seq<Block>, newBlocks: seq<Block>)
    requires i < |ops| && InRange(ops, |oldBlocks|, |newBlocks|)
    ensures var (cs, next) := ChangesAt(ops, i, oldBlocks, newBlocks);
      && (HasIntoItself(cs) <==> FoldsIntoItself(ops, i, oldBlocks, newBlocks))
      && forall p: nat :: i < p < next ==> !FoldsIntoItself(ops, p, oldBlocks, newBlocks)
  {
    var (cs, next) := ChangesAt(ops, i, oldBlocks, newBlocks);
    if FoldsIntoItself(ops, i, oldBlocks, newBlocks) {
      assert cs[0] in cs && IntoItself(cs[0]);
    }
  }

  lemma {:induction false} IntoItselfIff(ops: seq<EditOp>, i: nat, oldBlocks: seq<Block>, newBlocks: seq<Block>)
    requires i <= |ops| && InRange(ops, |oldBlocks|, |newBlocks|)
    ensures HasIntoItself(ChangesFrom(ops, i, oldBlocks, newBlocks))
       <==> exists p: nat :: i <= p && FoldsIntoItself(ops, p, oldBlocks, newBlocks)
    decreases |ops| - i
  {
    if i < |ops| {
      var (cs, next) := ChangesAt(ops, i, oldBlocks, newBlocks);
      IntoItselfIff(ops, next, oldBlocks, newBlocks);
      IntoItselfAt(ops, i, oldBlocks, newBlocks);
      HasInEither(cs, ChangesFrom(ops, next, oldBlocks, newBlocks));
    }
  }

  /** The script rotates a stretch whose first block stays in its section. */
  ghost predicate RotatesFolding(oldBlocks: seq<Block>, newBlocks: seq<Block>, p: nat, x: nat, y: nat, run: nat) {
    var (a, b) := (Texts(oldBlocks), Texts(newBlocks));
    && Adjacent(Script(a, b), p, x, y, run, |a|, |b|) && Rotated(a, b, x, y, run)
    && Folds(oldBlocks[x], newBlocks[y])
  }

  lemma FoldRotates(oldBlocks: seq<Block>, newBlocks: seq<Block>, ops: seq<EditOp>, p: nat)
      returns (x: nat, y: nat, run: nat)
    requires ops == Script(Texts(oldBlocks), Texts(newBlocks)) && InRange(ops, |oldBlocks|, |newBlocks|)
    requires FoldsIntoItself(ops, p, oldBlocks, newBlocks)
    ensures RotatesFolding(oldBlocks, newBlocks, p, x, y, run)
  {
    x, y, run := SameTextIffRotated(Texts(oldBlocks), Texts(newBlocks), p);
  }

  lemma RotationFolds(oldBlocks: seq<Block>, newBlocks: seq<Block>, ops: seq<EditOp>, p: nat, x: nat, y: nat, run: nat)
    requires ops == Script(Texts(oldBlocks), Texts(newBlocks)) && InRange(ops, |oldBlocks|, |newBlocks|)
    requires RotatesFolding(oldBlocks, newBlocks, p, x, y, run)
    ensures FoldsIntoItself(ops, p, oldBlocks, newBlocks)
  {
    var a, b := Texts(oldBlocks), Texts(newBlocks);
    assert b[y - run..y + 1][run] == b[y] && (a[x + 1..x + run + 1] + [a[x]])[run] == a[x];
  }

  /** A change is modified into itself if and only if somewhere the script rotates a
      stretch by one block that keeps its kind and section and is no heading. */
  lemma ModifiedIntoItselfIff(oldBlocks: seq<Block>, newBlocks: seq<Block>)
    ensures HasIntoItself(Diff(oldBlocks, newBlocks))
       <==> (exists p: nat, x: nat, y: nat, run: nat :: RotatesFolding(oldBlocks, newBlocks, p, x, y, run))
  {
    var ops := Script(Texts(oldBlocks), Texts(newBlocks));
    ScriptIsShortest(Texts(oldBlocks), Texts(newBlocks));
    IntoItselfIff(ops, 0, oldBlocks, newBlocks);
    if p: nat :| FoldsIntoItself(ops, p, oldBlocks, newBlocks) {
      var x, y, run := FoldRotates(oldBlocks, newBlocks, ops, p);
    }
    if p: nat, x: nat, y: nat, run: nat :| RotatesFolding(oldBlocks, newBlocks, p, x, y, run) {
      RotationFolds(oldBlocks, newBlocks, ops, p, x, y, run);
    }
  }

  lemma OnPath(a: seq<Text>, b: seq<Text>, rows: seq<seq<nat>>, path: seq<nat>, script: seq<EditOp>, p: nat)
    requires IsPath(a, b, rows, path, script) && p < |script|
    ensures |rows[p]| == p + 1 && IsRow(rows[p]) && path[p + 1] <= p + 1
    ensures path[p] == From(rows[p], path[p + 1]) && script[p] == OpAt(rows[p], path[p + 1])
  {
    assert path[p + 1] <= |rows[p]|;
  }

  lemma EndsMaximal(a: seq<Text>, b: seq<Text>, prev: seq<nat>, j: nat)
    requires IsRow(prev) && j <= |prev|
    ensures var x := NextFar(a, b, prev, j); var y := x + |prev| - 2 * j;
      !(x < |a| && y < |b| && a[x] == b[y])
  {
    var s := Enter(prev, j);
    SnakeIsRun(a, b, s, s + |prev| - 2 * j);
  }

  lemma SwapScript(x: Text, y: Text)
    requires x != y
    ensures Script([x, y], [y, x]) == [Delete(0), Insert(1)]
  {
    var a, b := [x, y], [y, x];
    assert LcsTo(a, b, 1, 1) == 0 && LcsTo(a, b, 2, 1) == 1 && LcsTo(a, b, 1, 2) == 1;
    assert Lcs(a, b) == 1 && EditLength(a, b) == 2;
    var rows := Rows(a, b, 2);
    SwapRows(x, y, rows);
    var path, script := ScriptPath(a, b, rows);
    assert path[2] == 1;
    assert script[1] == OpAt(rows[1], 1) == Insert(1) && path[1] == 1;
    assert script[0] == OpAt(rows[0], 1) == Delete(0);
  }

  lemma SwapRows(x: Text, y: Text, rows: seq<seq<nat>>)
    requires x != y && |rows| == 2 && IsRows([x, y], [y, x], rows)
    ensures rows[0] == [0] && rows[1] == [1, 2]
  {
    var a, b := [x, y], [y, x];
    assert Follows(a, b, rows, 0) && Follows(a, b, rows, 1);
    assert Snake(a, b, 0, 0) == 0 && Snake(a, b, 0, 1) == 1 && Snake(a, b, 1, 0) == 2;
    assert rows[0][0] == NextFar(a, b, [], 0);
    assert rows[1][0] == NextFar(a, b, rows[0], 0) && rows[1][1] == NextFar(a, b, rows[0], 1);
  }

  /** With a match in between it can: swapping two paragraphs (or list items, or code
      blocks) of a section reports the first as modified into itself. */
  lemma SwapIsModifiedIntoItself(x: Block, y: Block)
    requires x.raw != y.raw && x.kind == y.kind && x.section == y.section && x.kind != Heading
    ensures Diff([x, y], [y, x]) == [Change(Modified, x.kind, x.section, x.raw, x.raw)]
  {
    assert Texts([x, y]) == [x.raw, y.raw] && Texts([y, x]) == [y.raw, x.raw];
    SwapScript(x.raw, y.raw);
    ScriptIsShortest([x.raw, y.raw], [y.raw, x.raw]);
    assert ChangesFrom([Delete(0), Insert(1)], 2, [x, y], [y, x]) == [];
  }
}
