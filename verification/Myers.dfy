/** The block diff's search and back-trace (internal/history/differ.go): a forward pass
    over a diagonal array with a snapshot per step, a back-trace over the snapshots, and
    an in-place reversal.  Together they produce `Script`, a shortest edit script. */
module Myers {
  import opened Blocks
  import opened EditGraph
  import opened Outcomes

  datatype EditOp = Delete(oldI: nat) | Insert(newI: nat)

  // ---- The script the search determines -----------------------------------

  /** Where the edit into diagonal `j` comes from, as a diagonal of the row before. */
  ghost function From(prev: seq<nat>, j: nat): (i: nat)
    requires 0 < |prev| && j <= |prev|
    ensures i < |prev|
  {
    if GoesDown(prev, j) then j else j - 1
  }

  /** The edit by which the step after row `prev` enters diagonal `j`. */
  ghost function OpAt(prev: seq<nat>, j: nat): EditOp
    requires IsRow(prev) && 0 < |prev| && j <= |prev|
  {
    if GoesDown(prev, j) then Insert(prev[j] + |prev| - 1 - 2 * j) else Delete(prev[j - 1])
  }

  /** The edits on the way to entry `j` of the step after `rows`. */
  ghost function OpsTo(rows: seq<seq<nat>>, j: nat): (ops: seq<EditOp>)
    requires (forall d :: 0 <= d < |rows| ==> |rows[d]| == d + 1 && IsRow(rows[d])) && j <= |rows|
    ensures |ops| == |rows|
  {
    if rows == [] then []
    else
      var row := rows[|rows| - 1];
      OpsTo(rows[..|rows| - 1], From(row, j)) + [OpAt(row, j)]
  }

  /** The script of the diff: back from the far corner, which the search reaches at
      step `EditLength` on the diagonal of entry |a| - Lcs. */
  ghost function Script(a: seq<Text>, b: seq<Text>): (ops: seq<EditOp>)
    ensures |ops| == EditLength(a, b)
  {
    OpsTo(Rows(a, b, EditLength(a, b)), |a| - Lcs(a, b))
  }

  // ---- What a script means ------------------------------------------------

  /** `taken` old texts have been dealt with, and `out` has been written. */
  datatype Cursor = Cursor(taken: nat, out: seq<Text>)

  /** Copies old texts up to the point of the edit, then edits. */
  ghost function Apply(c: Cursor, op: EditOp, a: seq<Text>, b: seq<Text>): Option<Cursor> {
    match op
    case Delete(i) =>
      if c.taken <= i < |a| then Some(Cursor(i + 1, c.out + a[c.taken..i])) else None
    case Insert(j) =>
      var copied := j - |c.out|;
      if 0 <= copied && c.taken + copied <= |a| && j < |b| then
        Some(Cursor(c.taken + copied, c.out + a[c.taken..c.taken + copied] + [b[j]]))
      else None
  }

  ghost function Replay(ops: seq<EditOp>, a: seq<Text>, b: seq<Text>): Option<Cursor> {
    if ops == [] then Some(Cursor(0, []))
    else
      match Replay(ops[..|ops| - 1], a, b)
      case None => None
      case Some(c) => Apply(c, ops[|ops| - 1], a, b)
  }

  /** The old texts with the script carried out on them. */
  ghost function Patch(ops: seq<EditOp>, a: seq<Text>, b: seq<Text>): Option<seq<Text>> {
    match Replay(ops, a, b)
    case None => None
    case Some(c) => if c.taken <= |a| then Some(c.out + a[c.taken..]) else None
  }

  /** Old indices of deletes and new indices of inserts are in range and strictly increasing. */
  ghost predicate InOrder(ops: seq<EditOp>, n: nat, m: nat) {
    && (forall p :: 0 <= p < |ops| ==> match ops[p] case Delete(i) => i < n case Insert(j) => j < m)
    && (forall p, q :: 0 <= p < q < |ops| && ops[p].Delete? && ops[q].Delete? ==> ops[p].oldI < ops[q].oldI)
    && (forall p, q :: 0 <= p < q < |ops| && ops[p].Insert? && ops[q].Insert? ==> ops[p].newI < ops[q].newI)
  }

  ghost predicate Behind(ops: seq<EditOp>, c: Cursor) {
    forall p :: 0 <= p < |ops| ==>
      match ops[p] case Delete(i) => i < c.taken case Insert(j) => j < |c.out|
  }

  lemma ApplyMovesOn(ops: seq<EditOp>, op: EditOp, c: Cursor, a: seq<Text>, b: seq<Text>)
    requires InOrder(ops, |a|, |b|) && Behind(ops, c) && c.taken <= |a| && Apply(c, op, a, b).Some?
    ensures InOrder(ops + [op], |a|, |b|)
    ensures var c' := Apply(c, op, a, b).value; Behind(ops + [op], c') && c'.taken <= |a|
  {
  }

  lemma {:induction false} ReplayedIsInOrder(ops: seq<EditOp>, a: seq<Text>, b: seq<Text>)
    requires Replay(ops, a, b).Some?
    ensures InOrder(ops, |a|, |b|)
    ensures var c := Replay(ops, a, b).value; Behind(ops, c) && c.taken <= |a|
  {
    if ops != [] {
      var init, op := ops[..|ops| - 1], ops[|ops| - 1];
      ReplayedIsInOrder(init, a, b);
      ApplyMovesOn(init, op, Replay(init, a, b).value, a, b);
      assert ops == init + [op];
    }
  }

  // ---- The script turns old into new --------------------------------------

  /** Whether entry `j` of a row is a point of the grid. */
  ghost predicate OnGrid(a: seq<Text>, b: seq<Text>, row: seq<nat>, j: nat)
    requires j < |row|
  {
    row[j] <= |a| && row[j] + |row| - 1 - 2 * j <= |b|
  }

  /** The edit into a point of the grid comes from a point of the grid, and its index
      is in range: deletes name old blocks, inserts name new ones. */
  lemma ComesFromGrid(a: seq<Text>, b: seq<Text>, prev: seq<nat>, j: nat)
    requires IsRow(prev) && 0 < |prev| && j <= |prev|
    requires NextFar(a, b, prev, j) <= |a| && NextFar(a, b, prev, j) + |prev| - 2 * j <= |b|
    ensures OnGrid(a, b, prev, From(prev, j))
    ensures match OpAt(prev, j) case Delete(i) => i < |a| case Insert(i) => i < |b|
  {
    var x := Enter(prev, j);
    assert x <= Snake(a, b, x, x + |prev| - 2 * j);
  }

  /** The replay's position once the step after `prev` has entered diagonal `j`. */
  ghost function CursorAt(b: seq<Text>, prev: seq<nat>, j: nat): Cursor
    requires IsRow(prev) && j <= |prev| && Enter(prev, j) + |prev| - 2 * j <= |b|
  {
    Cursor(Enter(prev, j), b[..Enter(prev, j) + |prev| - 2 * j])
  }

  /** Copying a run of equal texts and then editing at its end. */
  lemma CopyThenEdit(a: seq<Text>, b: seq<Text>, x: nat, y: nat, end: nat)
    requires x <= end <= |a| && y + end - x <= |b| && a[x..end] == b[y..y + end - x]
    ensures var (c, endY) := (Cursor(x, b[..y]), y + end - x);
      && (endY < |b| ==> Apply(c, Insert(endY), a, b) == Some(Cursor(end, b[..endY + 1])))
      && (end < |a| ==> Apply(c, Delete(end), a, b) == Some(Cursor(end + 1, b[..endY])))
  {
    var endY := y + end - x;
    assert b[..y] + a[x..end] == b[..endY];
    if endY < |b| {
      assert b[..endY] + [b[endY]] == b[..endY + 1];
    }
  }

  lemma ReplayOneStep(a: seq<Text>, b: seq<Text>, before: seq<nat>, row: seq<nat>, j: nat)
    requires IsRow(before) && IsRow(row) && |row| == |before| + 1 && j <= |row|
    requires From(row, j) <= |before| && row[From(row, j)] == NextFar(a, b, before, From(row, j))
    requires NextFar(a, b, row, j) <= |a| && NextFar(a, b, row, j) + |row| - 2 * j <= |b|
    ensures Enter(row, j) <= |a| && Enter(row, j) + |row| - 2 * j <= |b|
    ensures Enter(before, From(row, j)) + |before| - 2 * From(row, j) <= |b|
    ensures Apply(CursorAt(b, before, From(row, j)), OpAt(row, j), a, b) == Some(CursorAt(b, row, j))
  {
    var i := From(row, j);
    ComesFromGrid(a, b, row, j);
    var x, end := Enter(before, i), row[i];
    var y := x + |before| - 2 * i;
    SnakeIsRun(a, b, x, y);
    CopyThenEdit(a, b, x, y, end);
    assert Enter(row, j) == if GoesDown(row, j) then end else end + 1;
  }

  lemma LastOp(rows: seq<seq<nat>>, j: nat)
    requires (forall d :: 0 <= d < |rows| ==> |rows[d]| == d + 1 && IsRow(rows[d])) && rows != [] && j <= |rows|
    ensures var row := rows[|rows| - 1];
      OpsTo(rows, j) == OpsTo(rows[..|rows| - 1], From(row, j)) + [OpAt(row, j)]
  {
  }

  lemma ReplaySnoc(ops: seq<EditOp>, op: EditOp, a: seq<Text>, b: seq<Text>)
    requires Replay(ops, a, b).Some?
    ensures Replay(ops + [op], a, b) == Apply(Replay(ops, a, b).value, op, a, b)
  {
    assert (ops + [op])[..|ops|] == ops;
  }

  /** The last edit into a point of the grid, and the point it comes from. */
  lemma LastStep(a: seq<Text>, b: seq<Text>, rows: seq<seq<nat>>, j: nat)
    requires rows != [] && IsRows(a, b, rows) && j <= |rows|
    requires var row := rows[|rows| - 1]; NextFar(a, b, row, j) <= |a| && NextFar(a, b, row, j) + |row| - 2 * j <= |b|
    ensures var (row, init) := (rows[|rows| - 1], rows[..|rows| - 1]);
      && IsRows(a, b, init) && IsRow(row) && |row| == |rows| && From(row, j) <= |init|
      && var before := Before(init, |init|);
      && IsRow(before) && |before| == |init| && row[From(row, j)] == NextFar(a, b, before, From(row, j))
      && row[From(row, j)] <= |a| && row[From(row, j)] + |before| - 2 * From(row, j) <= |b|
  {
    assert Follows(a, b, rows, |rows| - 1);
    InitIsRows(a, b, rows);
    ComesFromGrid(a, b, rows[|rows| - 1], j);
  }

  lemma {:induction false} ReplayToEntry(a: seq<Text>, b: seq<Text>, rows: seq<seq<nat>>, j: nat)
    requires IsRows(a, b, rows) && j <= |rows|
    requires var prev := Before(rows, |rows|);
      NextFar(a, b, prev, j) <= |a| && NextFar(a, b, prev, j) + |prev| - 2 * j <= |b|
    ensures var prev := Before(rows, |rows|);
      && Enter(prev, j) <= |a| && Enter(prev, j) + |prev| - 2 * j <= |b|
      && Replay(OpsTo(rows, j), a, b) == Some(CursorAt(b, prev, j))
  {
    if rows != [] {
      var row, init := rows[|rows| - 1], rows[..|rows| - 1];
      LastStep(a, b, rows, j);
      ReplayToEntry(a, b, init, From(row, j));
      ReplayOneStep(a, b, Before(init, |init|), row, j);
      LastOp(rows, j);
      ReplaySnoc(OpsTo(init, From(row, j)), OpAt(row, j), a, b);
    }
  }

  lemma InitIsRows(a: seq<Text>, b: seq<Text>, rows: seq<seq<nat>>)
    requires rows != [] && IsRows(a, b, rows)
    ensures var init := rows[..|rows| - 1];
      IsRows(a, b, init) && Before(init, |init|) == Before(rows, |init|)
  {
    var init := rows[..|rows| - 1];
    forall d | 0 <= d < |init|
      ensures Follows(a, b, init, d)
    {
      assert Follows(a, b, rows, d) && Before(init, d) == Before(rows, d);
    }
  }

  /** The search ends at the far corner. */
  lemma GoalIsCorner(a: seq<Text>, b: seq<Text>, rows: seq<seq<nat>>)
    requires IsRows(a, b, rows) && |rows| == EditLength(a, b)
    ensures var j := |a| - Lcs(a, b);
      NextFar(a, b, Before(rows, |rows|), j) == |a| && |a| + |rows| - 2 * j == |b|
  {
    var row := NextRow(a, b, Before(rows, |rows|));
    RowsExtend(a, b, rows, row);
    SearchStops(a, b, rows + [row], |rows|);
  }

  /** The last run of equal texts completes the output. */
  lemma LastRun(a: seq<Text>, b: seq<Text>, prev: seq<nat>, j: nat)
    requires IsRow(prev) && j <= |prev| && NextFar(a, b, prev, j) == |a| && |a| + |prev| - 2 * j == |b|
    ensures var (x, y) := (Enter(prev, j), Enter(prev, j) + |prev| - 2 * j);
      x <= |a| && y <= |b| && b[..y] + a[x..] == b
  {
    var x := Enter(prev, j);
    var y := x + |prev| - 2 * j;
    SnakeIsRun(a, b, x, y);
    RestOf(a, b, x, y);
  }

  lemma RestOf(a: seq<Text>, b: seq<Text>, x: nat, y: nat)
    requires x <= |a| && y <= |b| && a[x..|a|] == b[y..|b|]
    ensures b[..y] + a[x..] == b
  {
    assert a[x..] == a[x..|a|] == b[y..|b|];
    assert b[..y] + b[y..|b|] == b;
  }

  lemma RowsPatch(a: seq<Text>, b: seq<Text>, rows: seq<seq<nat>>, j: nat)
    requires IsRows(a, b, rows) && |rows| == EditLength(a, b) && j == |a| - Lcs(a, b)
    ensures var ops := OpsTo(rows, j); Replay(ops, a, b).Some? && Patch(ops, a, b) == Some(b)
  {
    GoalIsCorner(a, b, rows);
    ReplayToEntry(a, b, rows, j);
    LastRun(a, b, Before(rows, |rows|), j);
  }

  lemma ScriptPatches(a: seq<Text>, b: seq<Text>)
    ensures Replay(Script(a, b), a, b).Some?
    ensures Patch(Script(a, b), a, b) == Some(b)
  {
    var rows, j := Rows(a, b, EditLength(a, b)), |a| - Lcs(a, b);
    RowsPatch(a, b, rows, j);
    assert Script(a, b) == OpsTo(rows, j);
  }

  /** Replaying the script on the old texts gives the new texts, its indices are in
      range and increasing, and no script of any kind does it with fewer edits. */
  lemma ScriptIsShortest(a: seq<Text>, b: seq<Text>)
    ensures Patch(Script(a, b), a, b) == Some(b)
    ensures InOrder(Script(a, b), |a|, |b|)
    ensures |Script(a, b)| == |a| + |b| - 2 * Lcs(a, b)
    ensures forall script :: Run(script, a) == Some(b) ==> |Script(a, b)| <= Edits(script)
  {
    ScriptPatches(a, b);
    ReplayedIsInOrder(Script(a, b), a, b);
    forall script | Run(script, a) == Some(b)
      ensures |Script(a, b)| <= Edits(script)
    {
      NoShorterScript(script, a, b);
    }
  }

  // ---- The program --------------------------------------------------------

  /** A snapshot taken after a step holds the step's row, at offset `max`. */
  ghost predicate Holds(v: seq<int>, max: nat, row: seq<nat>, count: nat)
    requires count <= |row|
  {
    && |row| <= max + 1
    && |v| == 2 * max + 2
    && forall j :: 0 <= j < count ==> v[2 * j - |row| + 1 + max] == row[j]
  }

  ghost predicate Snapshots(trace: seq<seq<int>>, max: nat, rows: seq<seq<nat>>) {
    && |trace| >= |rows|
    && forall d :: 0 <= d < |rows| ==> |rows[d]| == d + 1 && IsRow(rows[d]) && Holds(trace[d], max, rows[d], d + 1)
  }

  lemma ExtendSnapshots(trace: seq<seq<int>>, max: nat, rows: seq<seq<nat>>, v: seq<int>, row: seq<nat>)
    requires Snapshots(trace, max, rows) && |trace| == |rows|
    requires |row| == |rows| + 1 && IsRow(row) && Holds(v, max, row, |row|)
    ensures Snapshots(trace + [v], max, rows + [row])
  {
  }

  method ExtendSnake(oldBlocks: seq<Block>, newBlocks: seq<Block>, x0: nat, y0: nat) returns (x: nat, y: nat)
    ensures x == Snake(Texts(oldBlocks), Texts(newBlocks), x0, y0) && y - x == y0 - x0
  {
    x, y := x0, y0;
    while x < |oldBlocks| && y < |newBlocks| && oldBlocks[x].raw == newBlocks[y].raw
      invariant y - x == y0 - x0
      invariant Snake(Texts(oldBlocks), Texts(newBlocks), x0, y0) == Snake(Texts(oldBlocks), Texts(newBlocks), x, y)
      decreases |oldBlocks| - x
    {
      x, y := x + 1, y + 1;
    }
  }

  /** The furthest point of diagonal `k`, from the diagonals next to it. */
  method Advance(oldBlocks: seq<Block>, newBlocks: seq<Block>, v: array<int>, k: int, d: int,
                 ghost prev: seq<nat>, ghost j: nat)
    returns (x: nat, y: nat)
    requires IsRow(prev) && |prev| == d <= |oldBlocks| + |newBlocks| && j <= d && k == 2 * j - d
    requires v.Length == 2 * (|oldBlocks| + |newBlocks|) + 2
    requires d == 0 ==> v[|oldBlocks| + |newBlocks| + 1] == 0
    requires j > 0 ==> v[k + |oldBlocks| + |newBlocks| - 1] == prev[j - 1]
    requires j < d ==> v[k + |oldBlocks| + |newBlocks| + 1] == prev[j]
    ensures x == NextFar(Texts(oldBlocks), Texts(newBlocks), prev, j) && y == x - k
  {
    var kOff := k + |oldBlocks| + |newBlocks|;
    if k == -d || (k != d && v[kOff - 1] < v[kOff + 1]) {
      x := v[kOff + 1];
    } else {
      x := v[kOff - 1] + 1;
    }
    x, y := ExtendSnake(oldBlocks, newBlocks, x, x - k);
  }

  lemma Neighbours(v: seq<int>, max: nat, prev: seq<nat>, j: nat)
    requires |prev| <= max && j <= |prev| && Holds(v, max, prev, |prev|)
    ensures j > 0 ==> v[2 * j - |prev| + max - 1] == prev[j - 1]
    ensures j < |prev| ==> v[2 * j - |prev| + max + 1] == prev[j]
  {
  }

  /** Storing an entry of this step's row leaves the row before it readable. */
  lemma Store(v: seq<int>, max: nat, prev: seq<nat>, row: seq<nat>, j: nat)
    requires j <= |prev| <= max && |row| == |prev| + 1
    requires Holds(v, max, prev, |prev|) && Holds(v, max, row, j)
    ensures var w := v[2 * j - |prev| + max := row[j]];
      Holds(w, max, prev, |prev|) && Holds(w, max, row, j + 1)
  {
  }

  /** One step of the search.  Diagonals of this step have the other parity from those
      of the step before, so overwriting `v` in place never destroys a value still needed. */
  method SearchStep(oldBlocks: seq<Block>, newBlocks: seq<Block>, v: array<int>, d: int,
                    ghost prev: seq<nat>, ghost row: seq<nat>)
    returns (found: bool)
    requires 0 <= d <= |oldBlocks| + |newBlocks|
    requires IsRow(prev) && |prev| == d && Holds(v[..], |oldBlocks| + |newBlocks|, prev, d)
    requires |row| == d + 1 && forall j :: 0 <= j <= d ==> row[j] == NextFar(Texts(oldBlocks), Texts(newBlocks), prev, j)
    requires d == 0 ==> v[|oldBlocks| + |newBlocks| + 1] == 0
    modifies v
    ensures found <==> Stops(Texts(oldBlocks), Texts(newBlocks), row)
    ensures !found ==> Holds(v[..], |oldBlocks| + |newBlocks|, row, d + 1)
  {
    ghost var a, b := Texts(oldBlocks), Texts(newBlocks);
    var max := |oldBlocks| + |newBlocks|;
    var k := -d;
    ghost var j := 0;
    while k <= d
      invariant k == 2 * j - d && 0 <= j <= d + 1
      invariant d == 0 && j == 0 ==> v[max + 1] == 0
      invariant Holds(v[..], max, prev, d) && Holds(v[..], max, row, j)
      invariant forall i :: 0 <= i < j ==> !ArrivesAt(a, b, row, i)
    {
      ghost var was := v[..];
      Neighbours(was, max, prev, j);
      var x, y := Advance(oldBlocks, newBlocks, v, k, d, prev, j);
      Store(was, max, prev, row, j);
      v[k + max] := x;
      assert v[..] == was[k + max := row[j]];
      if x >= |oldBlocks| && y >= |newBlocks| {
        assert ArrivesAt(a, b, row, j);
        return true;
      }
      k, j := k + 2, j + 1;
    }
    found := false;
  }

  lemma NextStops(a: seq<Text>, b: seq<Text>, rows: seq<seq<nat>>, row: seq<nat>)
    requires IsRows(a, b, rows) && |rows| <= EditLength(a, b) && row == NextRow(a, b, Before(rows, |rows|))
    ensures IsRows(a, b, rows + [row])
    ensures Stops(a, b, row) <==> |rows| == EditLength(a, b)
  {
    RowsExtend(a, b, rows, row);
    SearchStops(a, b, rows + [row], |rows|);
  }

  /** The search: stops at the edit length with a snapshot of every step before. */
  method ForwardPass(oldBlocks: seq<Block>, newBlocks: seq<Block>)
    returns (trace: seq<seq<int>>, finalD: nat, ghost rows: seq<seq<nat>>)
    ensures finalD == EditLength(Texts(oldBlocks), Texts(newBlocks)) && |trace| == finalD + 1
    ensures |rows| == finalD
    ensures IsRows(Texts(oldBlocks), Texts(newBlocks), rows)
    ensures Snapshots(trace, |oldBlocks| + |newBlocks|, rows)
  {
    ghost var a, b := Texts(oldBlocks), Texts(newBlocks);
    var max := |oldBlocks| + |newBlocks|;
    var v := new int[2 * max + 2](_ => 0);
    trace, rows := [], [];
    for d := 0 to max + 1
      invariant |trace| == |rows| == d <= EditLength(a, b)
      invariant d == 0 ==> v[max + 1] == 0
      invariant IsRows(a, b, rows)
      invariant Holds(v[..], max, Before(rows, d), d)
      invariant Snapshots(trace, max, rows)
    {
      ghost var prev := Before(rows, d);
      ghost var row := NextRow(a, b, prev);
      var found := SearchStep(oldBlocks, newBlocks, v, d, prev, row);
      NextStops(a, b, rows, row);
      if found {
        return trace + [v[..]], d, rows;
      }
      ExtendSnapshots(trace, max, rows, v[..], row);
      trace, rows := trace + [v[..]], rows + [row];
    }
    assert false;
  }

  /** One step of the back-trace: from a grid point of the step after `row` to the
      point its last edit came from, choosing between the two as the search did. */
  method StepBack(prev: seq<int>, max: nat, d: int, x: int, y: int, ghost row: seq<nat>, ghost j: nat,
                  ghost a: seq<Text>, ghost b: seq<Text>)
    returns (op: EditOp, prevX: nat, prevY: nat)
    requires IsRow(row) && 0 < d == |row| && j <= d && Holds(prev, max, row, d)
    requires x - y == 2 * j - d
    requires NextFar(a, b, row, j) <= |a| && NextFar(a, b, row, j) + d - 2 * j <= |b|
    ensures op == OpAt(row, j)
    ensures prevX == row[From(row, j)] && prevX - prevY == 2 * From(row, j) - (d - 1)
  {
    ComesFromGrid(a, b, row, j);
    var k := x - y;
    var kOff := k + max;
    assert j > 0 ==> prev[kOff - 1] == row[j - 1];
    assert j < d ==> prev[kOff + 1] == row[j];
    var prevK;
    if k == -d || (k != d && prev[kOff - 1] < prev[kOff + 1]) {
      prevK := k + 1;
    } else {
      prevK := k - 1;
    }
    prevX := prev[prevK + max];
    prevY := prevX - prevK;
    if prevK == k + 1 {
      op := Insert(prevY);
    } else {
      op := Delete(prevX);
    }
  }

  /** The diagonals of a script, one per step: `path[d]` is where step `d` ends. */
  ghost predicate IsPath(a: seq<Text>, b: seq<Text>, rows: seq<seq<nat>>, path: seq<nat>, script: seq<EditOp>) {
    && |rows| == |script| && |path| == |script| + 1
    && forall d :: 0 <= d < |rows| ==>
      var (row, j) := (rows[d], path[d + 1]);
      && |row| == d + 1 && IsRow(row) && j <= d + 1
      && NextFar(a, b, row, j) <= |a| && NextFar(a, b, row, j) + d + 1 - 2 * j <= |b|
      && path[d] == From(row, j) && script[d] == OpAt(row, j)
  }

  lemma ExtendPath(a: seq<Text>, b: seq<Text>, rows: seq<seq<nat>>, path: seq<nat>, script: seq<EditOp>,
                   row: seq<nat>, j: nat)
    requires IsPath(a, b, rows, path, script) && IsRow(row) && |row| == |rows| + 1 && j <= |row|
    requires NextFar(a, b, row, j) <= |a| && NextFar(a, b, row, j) + |row| - 2 * j <= |b|
    requires path[|rows|] == From(row, j)
    ensures IsPath(a, b, rows + [row], path + [j], script + [OpAt(row, j)])
  {
  }

  lemma {:induction false} PathTo(a: seq<Text>, b: seq<Text>, rows: seq<seq<nat>>, j: nat) returns (path: seq<nat>)
    requires IsRows(a, b, rows) && j <= |rows|
    requires var prev := Before(rows, |rows|);
      NextFar(a, b, prev, j) <= |a| && NextFar(a, b, prev, j) + |prev| - 2 * j <= |b|
    ensures IsPath(a, b, rows, path, OpsTo(rows, j)) && path[|rows|] == j
  {
    if rows == [] {
      path := [j];
    } else {
      LastStep(a, b, rows, j);
      path := PathTo(a, b, rows[..|rows| - 1], From(rows[|rows| - 1], j));
      GrowPath(a, b, rows, j, path);
      path := path + [j];
    }
  }

  lemma GrowPath(a: seq<Text>, b: seq<Text>, rows: seq<seq<nat>>, j: nat, path: seq<nat>)
    requires (forall d :: 0 <= d < |rows| ==> |rows[d]| == d + 1 && IsRow(rows[d])) && rows != [] && j <= |rows|
    requires var row := rows[|rows| - 1];
      && NextFar(a, b, row, j) <= |a| && NextFar(a, b, row, j) + |row| - 2 * j <= |b|
      && IsPath(a, b, rows[..|rows| - 1], path, OpsTo(rows[..|rows| - 1], From(row, j)))
      && path[|rows| - 1] == From(row, j)
    ensures IsPath(a, b, rows, path + [j], OpsTo(rows, j))
  {
    var init, row := rows[..|rows| - 1], rows[|rows| - 1];
    LastOp(rows, j);
    ExtendPath(a, b, init, path, OpsTo(init, From(row, j)), row, j);
    assert rows == init + [row];
  }

  /** The back-trace: reads the snapshots from last to first, recording edits in reverse. */
  method BackTrace(trace: seq<seq<int>>, n: nat, m: nat, ops: array<EditOp>, ghost a: seq<Text>, ghost b: seq<Text>,
                   ghost rows: seq<seq<nat>>, ghost path: seq<nat>, ghost script: seq<EditOp>)
    requires IsPath(a, b, rows, path, script) && Snapshots(trace, n + m, rows)
    requires ops.Length == |script| && n - m == 2 * path[|script|] - |script|
    modifies ops
    ensures forall t :: 0 <= t < |script| ==> ops[t] == script[|script| - 1 - t]
  {
    var finalD := ops.Length;
    var x: int, y: int := n, m;
    var d := finalD;
    while d > 0
      invariant 0 <= d <= finalD
      invariant x - y == 2 * path[d] - d
      invariant forall t :: 0 <= t < finalD - d ==> ops[t] == script[finalD - 1 - t]
    {
      var op;
      op, x, y := StepBack(trace[d - 1], n + m, d, x, y, rows[d - 1], path[d], a, b);
      ops[finalD - d] := op;
      d := d - 1;
    }
  }

  /** Oldest edit first again. */
  method ReverseInPlace(ops: array<EditOp>, ghost script: seq<EditOp>)
    requires ops.Length == |script|
    requires forall t :: 0 <= t < |script| ==> ops[t] == script[|script| - 1 - t]
    modifies ops
    ensures ops[..] == script
  {
    var i, j := 0, ops.Length - 1;
    while i < j
      invariant 0 <= i && i + j == ops.Length - 1 && i <= j + 2
      invariant forall t :: 0 <= t < |script| && (t < i || j < t) ==> ops[t] == script[t]
      invariant forall t :: i <= t <= j ==> ops[t] == script[|script| - 1 - t]
    {
      ops[i], ops[j] := ops[j], ops[i];
      i, j := i + 1, j - 1;
    }
  }
}
