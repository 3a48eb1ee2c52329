/** The block diff (internal/history/differ.go) of a document in which one block has been
    replaced in place: what is reported, and when that is the one modification. */
module Replacement {
  import opened Blocks
  import opened Changes
  import opened EditGraph
  import opened Myers
  import Reordering

  /** How often `t` occurs at the start of `ts`. */
  function Lead(ts: seq<Text>, t: Text): (n: nat)
    ensures n <= |ts| && (forall i :: 0 <= i < n ==> ts[i] == t) && (n < |ts| ==> ts[n] != t)
  {
    if ts == [] || ts[0] != t then 0 else 1 + Lead(ts[1..], t)
  }

  function With(p: seq<Text>, t: Text, q: seq<Text>): (ts: seq<Text>)
    ensures |ts| == |p| + 1 + |q| && ts[|p|] == t
  {
    p + [t] + q
  }

  // ---- The script -----------------------------------------------------------

  lemma RestIsCommon(p: seq<Text>, t: Text, q: seq<Text>)
    ensures IsSubsequence(p + q, With(p, t, q))
  {
    assert p + [] == p && [] + p == p;
    SubsequenceGrows([], [], p);
    SubsequenceGrows(p, p, [t]);
    SubsequenceGrows(p, p + [t], q);
  }

  /** One delete and one insert are what it takes. */
  lemma TwoEdits(p: seq<Text>, x: Text, y: Text, q: seq<Text>)
    requires x != y
    ensures var (a, b) := (With(p, x, q), With(p, y, q)); |a| - Lcs(a, b) == 1 && EditLength(a, b) == 2
  {
    var a, b := With(p, x, q), With(p, y, q);
    RestIsCommon(p, x, q);
    RestIsCommon(p, y, q);
    LcsIsLongest(a, b);
    if Lcs(a, b) == |a| {
      var c :| IsSubsequence(c, a) && IsSubsequence(c, b) && |c| == Lcs(a, b);
      Reordering.PartIsShorter(c, a);
      Reordering.PartIsShorter(c, b);
      assert false;
    }
  }

  lemma {:induction false} SnakePast(a: seq<Text>, b: seq<Text>, x: nat, y: nat, n: nat)
    requires x + n <= |a| && y + n <= |b| && a[x..x + n] == b[y..y + n]
    ensures Snake(a, b, x, y) == Snake(a, b, x + n, y + n)
  {
    if n > 0 {
      assert a[x..x + n][..n - 1] == a[x..x + (n - 1)] && b[y..y + n][..n - 1] == b[y..y + (n - 1)];
      assert a[x..x + n][n - 1] == a[x + (n - 1)] && b[y..y + n][n - 1] == b[y + (n - 1)];
      SnakePast(a, b, x, y, n - 1);
    }
  }

  /** A run of `n` equal texts that cannot be continued is the snake. */
  lemma SnakeIs(a: seq<Text>, b: seq<Text>, x: nat, y: nat, n: nat)
    requires x + n <= |a| && y + n <= |b| && a[x..x + n] == b[y..y + n]
    requires !(x + n < |a| && y + n < |b| && a[x + n] == b[y + n])
    ensures Snake(a, b, x, y) == x + n
  {
    SnakePast(a, b, x, y, n);
  }

  function Copies(t: Text, n: nat): (ts: seq<Text>)
    ensures |ts| == n && forall i :: 0 <= i < n ==> ts[i] == t
  {
    seq(n, _ => t)
  }

  lemma LeadIsCopies(t: Text, q: seq<Text>)
    ensures q[..Lead(q, t)] == Copies(t, Lead(q, t)) == ([t] + q)[..Lead(q, t)]
    ensures ([t] + q)[Lead(q, t)] == t
  {
    var n := Lead(q, t);
    forall i | 0 <= i <= n
      ensures ([t] + q)[i] == t
    {
      assert i > 0 ==> ([t] + q)[i] == q[i - 1];
    }
  }

  lemma SlicesOfWith(p: seq<Text>, t: Text, q: seq<Text>, n: nat)
    requires n <= |q|
    ensures With(p, t, q)[|p|..|p| + n] == ([t] + q)[..n] && With(p, t, q)[|p| + n] == ([t] + q)[n]
    ensures With(p, t, q)[|p| + 1..|p| + 1 + n] == q[..n] && (n < |q| ==> With(p, t, q)[|p| + 1 + n] == q[n])
  {
    var ts := With(p, t, q);
    assert ts == p + ([t] + q);
    assert forall i :: 0 <= i <= |q| ==> (p + ([t] + q))[|p| + i] == ([t] + q)[i];
  }

  lemma RunsOfWith(p: seq<Text>, t: Text, u: Text, q: seq<Text>)
    ensures var (ts, us, n) := (With(p, t, q), With(p, u, q), Lead(q, t));
      && ts[|p|..|p| + n] == us[|p| + 1..|p| + 1 + n]
      && !(|p| + 1 + n < |us| && ts[|p| + n] == us[|p| + 1 + n])
  {
    var n := Lead(q, t);
    LeadIsCopies(t, q);
    SlicesOfWith(p, t, q, n);
    SlicesOfWith(p, u, q, n);
    assert n < |q| ==> q[n] != t;
  }

  /** Off the diagonal by one, the run of equal texts ends with the lead of the text that
      is in both: once with the old one ahead, once with the new one. */
  lemma SnakeWithOld(a: seq<Text>, b: seq<Text>, p: seq<Text>, x: Text, y: Text, q: seq<Text>)
    requires a == With(p, x, q) && b == With(p, y, q)
    ensures Snake(a, b, |p|, |p| + 1) == |p| + Lead(q, x)
  {
    RunsOfWith(p, x, y, q);
    SnakeIs(a, b, |p|, |p| + 1, Lead(q, x));
  }

  lemma SnakeWithNew(a: seq<Text>, b: seq<Text>, p: seq<Text>, x: Text, y: Text, q: seq<Text>)
    requires a == With(p, x, q) && b == With(p, y, q)
    ensures Snake(a, b, |p| + 1, |p|) == |p| + 1 + Lead(q, y)
  {
    RunsOfWith(p, y, x, q);
    SnakeIs(a, b, |p| + 1, |p|, Lead(q, y));
  }

  lemma SnakeAtStart(p: seq<Text>, x: Text, y: Text, q: seq<Text>)
    requires x != y
    ensures Snake(With(p, x, q), With(p, y, q), 0, 0) == |p|
  {
    var a, b := With(p, x, q), With(p, y, q);
    assert a[0..0 + |p|] == p && b[0..0 + |p|] == p;
    SnakeIs(a, b, 0, 0, |p|);
  }

  lemma FirstFar(a: seq<Text>, b: seq<Text>, k: nat)
    ensures NextFar(a, b, [], 0) == Snake(a, b, 0, 0)
    ensures IsRow([k]) && NextFar(a, b, [k], 0) == Snake(a, b, k, k + 1) && NextFar(a, b, [k], 1) == Snake(a, b, k + 1, k)
  {
  }

  lemma TwoRows(a: seq<Text>, b: seq<Text>, rows: seq<seq<nat>>, k: nat, m: nat, n: nat)
    requires |rows| == 2 && IsRows(a, b, rows)
    requires Snake(a, b, 0, 0) == k && Snake(a, b, k, k + 1) == m && Snake(a, b, k + 1, k) == n
    ensures rows == [[k], [m, n]]
  {
    assert Follows(a, b, rows, 0) && Follows(a, b, rows, 1);
    FirstFar(a, b, k);
    FirstRow(a, b, rows, k);
    assert rows[1] == NextRow(a, b, [k]);
    assert rows[1][0] == NextFar(a, b, [k], 0) && rows[1][1] == NextFar(a, b, [k], 1);
    assert rows[1] == [m, n];
    assert rows == [rows[0], rows[1]];
  }

  lemma FirstRow(a: seq<Text>, b: seq<Text>, rows: seq<seq<nat>>, k: nat)
    requires |rows| == 2 && IsRows(a, b, rows) && NextFar(a, b, [], 0) == k
    ensures rows[0] == [k]
  {
    assert Follows(a, b, rows, 0);
    assert rows[0][0] == NextFar(a, b, [], 0);
  }

  lemma OpsOfRows(rows: seq<seq<nat>>, k: nat, m: nat, n: nat)
    requires rows == [[k], [k + m, k + 1 + n]]
    ensures OpsTo(rows, 1) == if m <= n then [Delete(k), Insert(k + n)] else [Insert(k), Delete(k + m)]
  {
    assert rows[..1] == [[k]] && rows[..1][..0] == [];
    assert IsRow(rows[0]) && IsRow(rows[1]);
    assert OpsTo(rows[..1], From(rows[1], 1)) == [] + [OpAt(rows[0], From(rows[1], 1))];
  }

  lemma RowsOfReplacement(a: seq<Text>, b: seq<Text>, rows: seq<seq<nat>>, p: seq<Text>, x: Text, y: Text, q: seq<Text>)
    requires a == With(p, x, q) && b == With(p, y, q) && x != y && |rows| == 2 && IsRows(a, b, rows)
    ensures rows == [[|p|], [|p| + Lead(q, x), |p| + 1 + Lead(q, y)]]
  {
    SnakeAtStart(p, x, y, q);
    SnakeWithOld(a, b, p, x, y, q);
    SnakeWithNew(a, b, p, x, y, q);
    TwoRows(a, b, rows, |p|, |p| + Lead(q, x), |p| + 1 + Lead(q, y));
  }

  /** The delete comes first unless the old text also comes next. */
  lemma ScriptOfReplacement(a: seq<Text>, b: seq<Text>, p: seq<Text>, x: Text, y: Text, q: seq<Text>)
    requires a == With(p, x, q) && b == With(p, y, q) && x != y
    ensures Script(a, b) ==
      if q != [] && q[0] == x then [Insert(|p|), Delete(|p| + Lead(q, x))] else [Delete(|p|), Insert(|p| + Lead(q, y))]
  {
    TwoEdits(p, x, y, q);
    var rows := Rows(a, b, 2);
    RowsOfReplacement(a, b, rows, p, x, y, q);
    OpsOfRows(rows, |p|, Lead(q, x), Lead(q, y));
  }

  // ---- The report -----------------------------------------------------------

  predicate Occurs(t: Text, bs: seq<Block>) {
    exists i :: 0 <= i < |bs| && bs[i].raw == t
  }

  function AddedUnless(known: bool, n: Block): seq<Change> {
    if known then [] else [Change(Added, n.kind, n.section, "", n.raw)]
  }

  /** The change a lone delete of `x` yields. */
  function Gone(x: Block, still: bool): Change {
    if still then Change(Moved, x.kind, x.section, x.raw, x.raw) else Change(Removed, x.kind, x.section, x.raw, "")
  }

  /** What replacing `x` by `y` between `p` and `q` is reported as.  The insert may be
      attributed to a later block with the text of `y`, and the delete to a later one with
      the text of `x`, where that text also comes next. */
  function Report(p: seq<Block>, x: Block, y: Block, q: seq<Block>): seq<Change> {
    var inserted, deleted := ([y] + q)[Lead(Texts(q), y.raw)], ([x] + q)[Lead(Texts(q), x.raw)];
    if x.raw == y.raw then []
    else if q != [] && q[0].raw == x.raw then
      AddedUnless(Occurs(y.raw, p + q), y) + [Gone(deleted, true)]
    else if x.kind == inserted.kind && x.section == inserted.section && x.kind != Heading then
      [Change(Modified, x.kind, x.section, x.raw, y.raw)]
    else
      [Gone(x, Occurs(x.raw, p + q))] + AddedUnless(Occurs(y.raw, p + q), inserted)
  }

  function Replaced(p: seq<Block>, x: Block, q: seq<Block>): (bs: seq<Block>)
    ensures |bs| == |p| + 1 + |q| && Texts(bs) == With(Texts(p), x.raw, Texts(q))
    ensures forall i :: 0 <= i <= |q| ==> bs[|p| + i] == ([x] + q)[i]
  {
    var bs := p + [x] + q;
    assert Texts(bs) == Texts(p) + [x.raw] + Texts(q);
    bs
  }

  lemma OccursInReplaced(t: Text, p: seq<Block>, x: Block, q: seq<Block>)
    ensures Occurs(t, Replaced(p, x, q)) <==> t == x.raw || Occurs(t, p + q)
  {
    var bs := Replaced(p, x, q);
    assert bs[|p|] == x;
    assert forall i :: 0 <= i < |p| ==> bs[i] == (p + q)[i];
    assert forall i :: |p| <= i < |p + q| ==> bs[i + 1] == (p + q)[i];
    if i :| 0 <= i < |bs| && bs[i].raw == t {
      assert i < |p| ==> (p + q)[i].raw == t;
      assert i > |p| ==> (p + q)[i - 1].raw == t;
    }
  }

  lemma TwoContributions(ops: seq<EditOp>, oldBlocks: seq<Block>, newBlocks: seq<Block>)
    requires |ops| == 2 && InRange(ops, |oldBlocks|, |newBlocks|)
    ensures Contributions(ops, 0, oldBlocks, newBlocks)
         == Contribution(ops, 0, oldBlocks, newBlocks) + Contribution(ops, 1, oldBlocks, newBlocks)
  {
    assert Contributions(ops, 1, oldBlocks, newBlocks) == Contribution(ops, 1, oldBlocks, newBlocks) + [];
  }

  lemma InsertedFirst(p: seq<Block>, x: Block, y: Block, q: seq<Block>, ops: seq<EditOp>)
    requires x.raw != y.raw && q != [] && q[0].raw == x.raw
    requires ops == [Insert(|p|), Delete(|p| + Lead(Texts(q), x.raw))]
    ensures Contributions(ops, 0, Replaced(p, x, q), Replaced(p, y, q)) == Report(p, x, y, q)
  {
    var oldBlocks, newBlocks := Replaced(p, x, q), Replaced(p, y, q);
    TwoContributions(ops, oldBlocks, newBlocks);
    LeadIsCopies(x.raw, Texts(q));
    OccursInReplaced(y.raw, p, x, q);
    OccursInReplaced(x.raw, p, y, q);
    assert (p + q)[|p|] == q[0];
    assert oldBlocks[|p| + Lead(Texts(q), x.raw)].raw == x.raw by { LeadText(x, q); }
    assert newBlocks[|p| + 0] == y;
    assert Occurs(x.raw, newBlocks);
  }

  lemma LeadText(x: Block, q: seq<Block>)
    ensures ([x] + q)[Lead(Texts(q), x.raw)].raw == x.raw
  {
    var n := Lead(Texts(q), x.raw);
    assert n > 0 ==> Texts(q)[n - 1] == q[n - 1].raw;
  }

  lemma DeletedFirst(p: seq<Block>, x: Block, y: Block, q: seq<Block>, ops: seq<EditOp>)
    requires x.raw != y.raw && (q != [] ==> q[0].raw != x.raw)
    requires ops == [Delete(|p|), Insert(|p| + Lead(Texts(q), y.raw))]
    ensures Contributions(ops, 0, Replaced(p, x, q), Replaced(p, y, q)) == Report(p, x, y, q)
  {
    var oldBlocks, newBlocks := Replaced(p, x, q), Replaced(p, y, q);
    TwoContributions(ops, oldBlocks, newBlocks);
    OccursInReplaced(y.raw, p, x, q);
    OccursInReplaced(x.raw, p, y, q);
    LeadText(y, q);
    assert oldBlocks[|p| + 0] == x;
    assert newBlocks[|p| + Lead(Texts(q), y.raw)] == ([y] + q)[Lead(Texts(q), y.raw)];
    assert Occurs(x.raw, newBlocks) == exists j :: 0 <= j < |newBlocks| && newBlocks[j].raw == x.raw;
  }

  lemma ReportOfScript(p: seq<Block>, x: Block, y: Block, q: seq<Block>, ops: seq<EditOp>)
    requires x.raw != y.raw
    requires ops == if q != [] && q[0].raw == x.raw then [Insert(|p|), Delete(|p| + Lead(Texts(q), x.raw))]
                    else [Delete(|p|), Insert(|p| + Lead(Texts(q), y.raw))]
    requires InRange(ops, |p| + 1 + |q|, |p| + 1 + |q|)
    ensures Contributions(ops, 0, Replaced(p, x, q), Replaced(p, y, q)) == Report(p, x, y, q)
  {
    if q != [] && q[0].raw == x.raw {
      InsertedFirst(p, x, y, q, ops);
    } else {
      DeletedFirst(p, x, y, q, ops);
    }
  }

  lemma DiffOfScript(oldBlocks: seq<Block>, newBlocks: seq<Block>, ops: seq<EditOp>)
    requires ops == Script(Texts(oldBlocks), Texts(newBlocks))
    ensures InRange(ops, |oldBlocks|, |newBlocks|) && Diff(oldBlocks, newBlocks) == Contributions(ops, 0, oldBlocks, newBlocks)
  {
    DiffIsContributions(oldBlocks, newBlocks);
  }

  predicate StartsWith(ts: seq<Text>, t: Text) {
    ts != [] && ts[0] == t
  }

  lemma StartOfTexts(q: seq<Block>, t: Text)
    ensures StartsWith(Texts(q), t) <==> q != [] && q[0].raw == t
  {
  }

  lemma ScriptOfTexts(a: seq<Text>, b: seq<Text>, p: seq<Text>, x: Text, y: Text, q: seq<Text>)
    requires a == With(p, x, q) && b == With(p, y, q) && x != y
    ensures StartsWith(q, x) ==> Script(a, b) == [Insert(|p|), Delete(|p| + Lead(q, x))]
    ensures !StartsWith(q, x) ==> Script(a, b) == [Delete(|p|), Insert(|p| + Lead(q, y))]
  {
    ScriptOfReplacement(a, b, p, x, y, q);
  }

  lemma ScriptOfBlocks(p: seq<Block>, x: Block, y: Block, q: seq<Block>)
    requires x.raw != y.raw
    ensures Script(Texts(Replaced(p, x, q)), Texts(Replaced(p, y, q))) ==
      if q != [] && q[0].raw == x.raw then [Insert(|p|), Delete(|p| + Lead(Texts(q), x.raw))]
      else [Delete(|p|), Insert(|p| + Lead(Texts(q), y.raw))]
  {
    var a, b := Texts(Replaced(p, x, q)), Texts(Replaced(p, y, q));
    StartOfTexts(q, x.raw);
    ScriptOfTexts(a, b, Texts(p), x.raw, y.raw, Texts(q));
  }

  lemma DiffOfDifferent(p: seq<Block>, x: Block, y: Block, q: seq<Block>, oldBlocks: seq<Block>, newBlocks: seq<Block>)
    requires x.raw != y.raw && oldBlocks == Replaced(p, x, q) && newBlocks == Replaced(p, y, q)
    ensures Diff(oldBlocks, newBlocks) == Report(p, x, y, q)
  {
    var ops := Script(Texts(oldBlocks), Texts(newBlocks));
    ScriptOfBlocks(p, x, y, q);
    DiffOfScript(oldBlocks, newBlocks, ops);
    ReportOfScript(p, x, y, q, ops);
  }

  /** What the diff says of any replacement of one block. */
  lemma DiffOfReplacement(p: seq<Block>, x: Block, y: Block, q: seq<Block>)
    ensures Diff(Replaced(p, x, q), Replaced(p, y, q)) == Report(p, x, y, q)
  {
    if x.raw == y.raw {
      SameTexts(Replaced(p, x, q), Replaced(p, y, q));
    } else {
      DiffOfDifferent(p, x, y, q, Replaced(p, x, q), Replaced(p, y, q));
    }
  }

  lemma SameTexts(oldBlocks: seq<Block>, newBlocks: seq<Block>)
    requires Texts(oldBlocks) == Texts(newBlocks)
    ensures Diff(oldBlocks, newBlocks) == []
  {
    var a := Texts(oldBlocks);
    SubsequenceGrows([], [], a);
    assert [] + a == a;
    EmptyDiff(oldBlocks, newBlocks);
  }

  lemma ReportIsModificationIff(p: seq<Block>, x: Block, y: Block, q: seq<Block>)
    ensures Report(p, x, y, q) == [Change(Modified, x.kind, x.section, x.raw, y.raw)] <==>
      && x.raw != y.raw && (q != [] ==> q[0].raw != x.raw) && x.kind != Heading
      && var last := ([y] + q)[Lead(Texts(q), y.raw)]; x.kind == last.kind && x.section == last.section
  {
    var report := Report(p, x, y, q);
    if x.raw != y.raw && q != [] && q[0].raw == x.raw {
      assert !report[|report| - 1].what.Modified?;
    } else if x.raw != y.raw {
      assert report[0].what.Modified? || report[0] == Gone(x, Occurs(x.raw, p + q));
    }
  }

  /** A replacement in place is reported as the one modification of `x` into `y` if and
      only if the texts differ, the next block does not have the text of `x`, and `x` is no
      heading and has the kind and section of `y`: or, where the text of `y` also comes
      next, of the last block of that run. */
  lemma ReplacementIsModificationIff(p: seq<Block>, x: Block, y: Block, q: seq<Block>)
    ensures Diff(p + [x] + q, p + [y] + q) == [Change(Modified, x.kind, x.section, x.raw, y.raw)] <==>
      && x.raw != y.raw && (q != [] ==> q[0].raw != x.raw) && x.kind != Heading
      && var last := ([y] + q)[Lead(Texts(q), y.raw)]; x.kind == last.kind && x.section == last.section
  {
    DiffOfReplacement(p, x, y, q);
    ReportIsModificationIff(p, x, y, q);
    assert p + [x] + q == Replaced(p, x, q) && p + [y] + q == Replaced(p, y, q);
  }

  /** So when neither text comes next, kind and section decide. */
  lemma FreshReplacement(p: seq<Block>, x: Block, y: Block, q: seq<Block>)
    requires x.raw != y.raw && (q != [] ==> q[0].raw != x.raw && q[0].raw != y.raw)
    ensures Diff(p + [x] + q, p + [y] + q) == [Change(Modified, x.kind, x.section, x.raw, y.raw)] <==>
      x.kind == y.kind && x.section == y.section && x.kind != Heading
  {
    ReplacementIsModificationIff(p, x, y, q);
    assert Lead(Texts(q), y.raw) == 0 && ([y] + q)[0] == y;
  }
}
