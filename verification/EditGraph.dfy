/** The theory behind the block diff (internal/history/differ.go): the edit graph of
    two lists of texts, furthest-reaching points, and longest common subsequences.

    A point (x, y) means: x texts of `a` consumed, y texts of `b` produced.  The grid
    is not clipped, because the diff's own array is not: a right move may leave
    x > |a| and a down move may leave y > |b|.

    The d-edit points on diagonal k = x - y are numbered by j with k = 2 * j - d,
    so 0 <= j <= d enumerates exactly the diagonals step d visits, in its order. */
module EditGraph {
  import opened Outcomes

  type Text = string

  // ---- Points and moves ---------------------------------------------------

  /** Some path of free diagonals and exactly `d` right or down moves ends at (x, y). */
  ghost predicate Reach(a: seq<Text>, b: seq<Text>, d: nat, x: nat, y: nat)
    decreases x + y
  {
    || (d == 0 && x == 0 && y == 0)
    || (d > 0 && x > 0 && Reach(a, b, d - 1, x - 1, y))
    || (d > 0 && y > 0 && Reach(a, b, d - 1, x, y - 1))
    || (0 < x <= |a| && 0 < y <= |b| && a[x - 1] == b[y - 1] && Reach(a, b, d, x - 1, y - 1))
  }

  /** The x at which the run of equal texts starting at (x, y) ends. */
  function Snake(a: seq<Text>, b: seq<Text>, x: nat, y: nat): (end: nat)
    ensures x <= end
    decreases |a| - x
  {
    if x < |a| && y < |b| && a[x] == b[y] then Snake(a, b, x + 1, y + 1) else x
  }

  /** The run consists of equal texts, stays inside both lists, and is maximal. */
  lemma {:induction false} SnakeIsRun(a: seq<Text>, b: seq<Text>, x: nat, y: nat)
    ensures var end := Snake(a, b, x, y);
      && (x < end ==> end <= |a| && y + (end - x) <= |b|)
      && (end <= |a| && y + (end - x) <= |b| ==> a[x..end] == b[y..y + (end - x)])
      && !(end < |a| && y + (end - x) < |b| && a[end] == b[y + (end - x)])
    decreases |a| - x
  {
    if x < |a| && y < |b| && a[x] == b[y] {
      SnakeIsRun(a, b, x + 1, y + 1);
      var end := Snake(a, b, x, y);
      assert a[x..end] == [a[x]] + a[x + 1..end];
      assert b[y..y + (end - x)] == [b[y]] + b[y + 1..y + (end - x)];
    }
  }

  lemma {:induction false} SnakeReach(a: seq<Text>, b: seq<Text>, d: nat, x: nat, y: nat)
    requires Reach(a, b, d, x, y)
    ensures var end := Snake(a, b, x, y); Reach(a, b, d, end, y + (end - x))
    decreases |a| - x
  {
    if x < |a| && y < |b| && a[x] == b[y] {
      SnakeReach(a, b, d, x + 1, y + 1);
    }
  }

  // ---- Furthest-reaching points -------------------------------------------

  /** A row holds one x per diagonal of a step; each belongs to a point with y >= 0. */
  ghost predicate IsRow(row: seq<nat>) {
    forall j :: 0 <= j < |row| ==> row[j] + |row| - 1 >= 2 * j
  }

  /** Whether the step after `prev` enters diagonal `j` by a down move (an insert). */
  ghost predicate GoesDown(prev: seq<nat>, j: nat)
    requires 0 < |prev| && j <= |prev|
  {
    j == 0 || (j != |prev| && prev[j - 1] < prev[j])
  }

  /** The x on diagonal `j` right after that move; step 0 starts at the origin. */
  ghost function Enter(prev: seq<nat>, j: nat): (x: nat)
    requires IsRow(prev) && j <= |prev|
    ensures x + |prev| >= 2 * j
  {
    if prev == [] then 0
    else if GoesDown(prev, j) then prev[j]
    else prev[j - 1] + 1
  }

  /** An entry of the row after `prev`: the entry point run forward over equal texts. */
  ghost function NextFar(a: seq<Text>, b: seq<Text>, prev: seq<nat>, j: nat): (x: nat)
    requires IsRow(prev) && j <= |prev|
    ensures x + |prev| >= 2 * j
  {
    Snake(a, b, Enter(prev, j), Enter(prev, j) + |prev| - 2 * j)
  }

  lemma NextRowExists(a: seq<Text>, b: seq<Text>, prev: seq<nat>, count: nat) returns (row: seq<nat>)
    requires IsRow(prev) && count <= |prev| + 1
    ensures |row| == count && forall j :: 0 <= j < count ==> row[j] == NextFar(a, b, prev, j)
  {
    if count == 0 {
      row := [];
    } else {
      row := NextRowExists(a, b, prev, count - 1);
      row := row + [NextFar(a, b, prev, count - 1)];
    }
  }

  /** The row of the step after `prev`. */
  ghost function NextRow(a: seq<Text>, b: seq<Text>, prev: seq<nat>): (row: seq<nat>)
    requires IsRow(prev)
    ensures |row| == |prev| + 1
    ensures forall j :: 0 <= j <= |prev| ==> row[j] == NextFar(a, b, prev, j)
  {
    assert exists row: seq<nat> :: |row| == |prev| + 1 && forall j :: 0 <= j <= |prev| ==> row[j] == NextFar(a, b, prev, j) by {
      var row := NextRowExists(a, b, prev, |prev| + 1);
    }
    var row: seq<nat> :| |row| == |prev| + 1 && forall j :: 0 <= j <= |prev| ==> row[j] == NextFar(a, b, prev, j);
    row
  }

  ghost function Before(rows: seq<seq<nat>>, d: nat): seq<nat>
    requires d <= |rows|
  {
    if d == 0 then [] else rows[d - 1]
  }

  /** What the diff stores, step by step: `rows[d][j]` is its x for entry j of step d. */
  ghost predicate IsRows(a: seq<Text>, b: seq<Text>, rows: seq<seq<nat>>) {
    && (forall d :: 0 <= d < |rows| ==> |rows[d]| == d + 1 && IsRow(rows[d]))
    && (forall d :: 0 <= d < |rows| ==> Follows(a, b, rows, d))
  }

  ghost predicate Follows(a: seq<Text>, b: seq<Text>, rows: seq<seq<nat>>, d: nat)
    requires d < |rows|
  {
    var prev := Before(rows, d);
    |prev| == d && IsRow(prev) && rows[d] == NextRow(a, b, prev)
  }

  lemma RowsExtend(a: seq<Text>, b: seq<Text>, rows: seq<seq<nat>>, row: seq<nat>)
    requires IsRows(a, b, rows) && row == NextRow(a, b, Before(rows, |rows|))
    ensures IsRows(a, b, rows + [row])
  {
    var all := rows + [row];
    forall d | 0 <= d < |all|
      ensures Follows(a, b, all, d)
    {
      assert Before(all, d) == Before(rows, d);
      assert d < |rows| ==> Follows(a, b, rows, d);
    }
  }

  lemma RowsExist(a: seq<Text>, b: seq<Text>, count: nat) returns (rows: seq<seq<nat>>)
    ensures |rows| == count && IsRows(a, b, rows)
  {
    if count == 0 {
      rows := [];
    } else {
      rows := RowsExist(a, b, count - 1);
      var row := NextRow(a, b, Before(rows, count - 1));
      RowsExtend(a, b, rows, row);
      rows := rows + [row];
    }
  }

  /** The rows of steps 0 to `count - 1`; they are determined by that. */
  ghost function Rows(a: seq<Text>, b: seq<Text>, count: nat): (rows: seq<seq<nat>>)
    ensures |rows| == count && IsRows(a, b, rows)
  {
    assert exists rows: seq<seq<nat>> :: |rows| == count && IsRows(a, b, rows) by {
      var rows := RowsExist(a, b, count);
    }
    var rows: seq<seq<nat>> :| |rows| == count && IsRows(a, b, rows);
    rows
  }

  ghost predicate RowIsReached(a: seq<Text>, b: seq<Text>, row: seq<nat>)
    requires IsRow(row)
  {
    forall j :: 0 <= j < |row| ==> Reach(a, b, |row| - 1, row[j], row[j] + |row| - 1 - 2 * j)
  }

  lemma NextIsReached(a: seq<Text>, b: seq<Text>, prev: seq<nat>, j: nat)
    requires IsRow(prev) && RowIsReached(a, b, prev) && j <= |prev|
    ensures Reach(a, b, |prev|, NextFar(a, b, prev, j), NextFar(a, b, prev, j) + |prev| - 2 * j)
  {
    var d, x := |prev|, Enter(prev, j);
    if d > 0 {
      var i := if GoesDown(prev, j) then j else j - 1;
      assert Reach(a, b, d - 1, prev[i], prev[i] + d - 1 - 2 * i);
    }
    assert Reach(a, b, d, x, x + d - 2 * j);
    SnakeReach(a, b, d, x, x + d - 2 * j);
  }

  /** Every stored point is really reached with that many edits. */
  lemma {:induction false} StoredIsReached(a: seq<Text>, b: seq<Text>, rows: seq<seq<nat>>, d: nat)
    requires IsRows(a, b, rows) && d < |rows|
    ensures RowIsReached(a, b, rows[d])
  {
    assert Follows(a, b, rows, d);
    if d > 0 {
      StoredIsReached(a, b, rows, d - 1);
    }
    forall j | 0 <= j <= d
      ensures Reach(a, b, d, rows[d][j], rows[d][j] + d - 2 * j)
    {
      NextIsReached(a, b, Before(rows, d), j);
    }
  }

  /** A stored point is at least as good as each of the two it can come from. */
  lemma KeepsTheBest(a: seq<Text>, b: seq<Text>, prev: seq<nat>, j: nat)
    requires IsRow(prev) && 0 < |prev| && j <= |prev|
    ensures j < |prev| ==> prev[j] <= NextFar(a, b, prev, j)
    ensures j > 0 ==> prev[j - 1] + 1 <= NextFar(a, b, prev, j)
  {
    var x := Enter(prev, j);
    assert x <= Snake(a, b, x, x + |prev| - 2 * j);
  }

  lemma TakesDiagonals(a: seq<Text>, b: seq<Text>, prev: seq<nat>, j: nat, x: nat, y: nat)
    requires IsRow(prev) && j <= |prev| && x + |prev| - 2 * j == y && x <= NextFar(a, b, prev, j)
    requires x < |a| && y < |b| && a[x] == b[y]
    ensures x + 1 <= NextFar(a, b, prev, j)
  {
    var s := Enter(prev, j);
    SnakeIsRun(a, b, s, s + |prev| - 2 * j);
  }

  /** No d-edit path gets further on its diagonal, on or off the grid. */
  lemma {:induction false} StoredIsFurthest(a: seq<Text>, b: seq<Text>, rows: seq<seq<nat>>, d: nat, x: nat, y: nat, j: int)
    requires IsRows(a, b, rows) && d < |rows|
    requires Reach(a, b, d, x, y) && 2 * j == d + x - y
    ensures 0 <= j <= d && x <= rows[d][j]
    decreases x + y
  {
    var prev := Before(rows, d);
    assert Follows(a, b, rows, d);
    if d > 0 && x > 0 && Reach(a, b, d - 1, x - 1, y) {
      StoredIsFurthest(a, b, rows, d - 1, x - 1, y, j - 1);
      KeepsTheBest(a, b, prev, j);
    } else if d > 0 && y > 0 && Reach(a, b, d - 1, x, y - 1) {
      StoredIsFurthest(a, b, rows, d - 1, x, y - 1, j);
      KeepsTheBest(a, b, prev, j);
    } else if 0 < x <= |a| && 0 < y <= |b| && a[x - 1] == b[y - 1] && Reach(a, b, d, x - 1, y - 1) {
      StoredIsFurthest(a, b, rows, d, x - 1, y - 1, j);
      TakesDiagonals(a, b, prev, j, x - 1, y - 1);
    } else {
      assert d == 0 && x == 0 && j == 0;
    }
  }

  lemma {:induction false} Parity(a: seq<Text>, b: seq<Text>, d: nat, x: nat, y: nat) returns (j: int)
    requires Reach(a, b, d, x, y)
    ensures 2 * j == d + x - y
    decreases x + y
  {
    if d > 0 && x > 0 && Reach(a, b, d - 1, x - 1, y) {
      j := Parity(a, b, d - 1, x - 1, y);
      j := j + 1;
    } else if d > 0 && y > 0 && Reach(a, b, d - 1, x, y - 1) {
      j := Parity(a, b, d - 1, x, y - 1);
    } else if x > 0 && y > 0 {
      j := Parity(a, b, d, x - 1, y - 1);
    } else {
      j := 0;
    }
  }

  // ---- Stopping -----------------------------------------------------------

  function Excess(x: nat, n: nat): nat {
    if x > n then x - n else 0
  }

  /** A path that leaves the grid pays one edit for every step outside it. */
  lemma {:induction false} Clip(a: seq<Text>, b: seq<Text>, d: nat, x: nat, y: nat)
    requires Reach(a, b, d, x, y)
    ensures d >= Excess(x, |a|) + Excess(y, |b|)
    ensures Reach(a, b, d - Excess(x, |a|) - Excess(y, |b|), x - Excess(x, |a|), y - Excess(y, |b|))
    decreases x + y
  {
    if d > 0 && x > 0 && Reach(a, b, d - 1, x - 1, y) {
      Clip(a, b, d - 1, x - 1, y);
    } else if d > 0 && y > 0 && Reach(a, b, d - 1, x, y - 1) {
      Clip(a, b, d - 1, x, y - 1);
    }
  }

  /** The diff's stopping test on entry `j` of a row. */
  ghost predicate ArrivesAt(a: seq<Text>, b: seq<Text>, row: seq<nat>, j: nat)
    requires j < |row|
  {
    row[j] >= |a| && row[j] + |row| - 1 - 2 * j >= |b|
  }

  ghost predicate Stops(a: seq<Text>, b: seq<Text>, row: seq<nat>) {
    exists j :: 0 <= j < |row| && ArrivesAt(a, b, row, j)
  }

  lemma ReachStops(a: seq<Text>, b: seq<Text>, rows: seq<seq<nat>>, d: nat) returns (j: nat)
    requires IsRows(a, b, rows) && d < |rows| && Reach(a, b, d, |a|, |b|)
    ensures j <= d && 2 * j == d + |a| - |b| && ArrivesAt(a, b, rows[d], j)
  {
    var i := Parity(a, b, d, |a|, |b|);
    StoredIsFurthest(a, b, rows, d, |a|, |b|, i);
    j := i;
  }

  // ---- Longest common subsequences ----------------------------------------

  ghost predicate IsSubsequence(c: seq<Text>, a: seq<Text>)
    decreases |a|
  {
    || c == []
    || (a != [] && c[|c| - 1] == a[|a| - 1] && IsSubsequence(c[..|c| - 1], a[..|a| - 1]))
    || (a != [] && IsSubsequence(c, a[..|a| - 1]))
  }

  /** Length of a longest common subsequence of the first `x` and first `y` texts. */
  ghost function LcsTo(a: seq<Text>, b: seq<Text>, x: nat, y: nat): (l: nat)
    requires x <= |a| && y <= |b|
    ensures l <= x && l <= y
  {
    if x == 0 || y == 0 then 0
    else if a[x - 1] == b[y - 1] then 1 + LcsTo(a, b, x - 1, y - 1)
    else
      var (l, r) := (LcsTo(a, b, x - 1, y), LcsTo(a, b, x, y - 1));
      if l < r then r else l
  }

  ghost function Lcs(a: seq<Text>, b: seq<Text>): (l: nat)
    ensures l <= |a| && l <= |b|
  {
    LcsTo(a, b, |a|, |b|)
  }

  lemma {:induction false} LcsSteps(a: seq<Text>, b: seq<Text>, x: nat, y: nat)
    requires x <= |a| && y <= |b|
    ensures x > 0 ==> LcsTo(a, b, x - 1, y) <= LcsTo(a, b, x, y) <= LcsTo(a, b, x - 1, y) + 1
    ensures y > 0 ==> LcsTo(a, b, x, y - 1) <= LcsTo(a, b, x, y) <= LcsTo(a, b, x, y - 1) + 1
    decreases x + y
  {
    if x > 0 && y > 0 {
      LcsSteps(a, b, x - 1, y);
      LcsSteps(a, b, x, y - 1);
      LcsSteps(a, b, x - 1, y - 1);
    }
  }

  lemma {:induction false} CommonIsNoLonger(a: seq<Text>, b: seq<Text>, x: nat, y: nat, c: seq<Text>)
    requires x <= |a| && y <= |b|
    requires IsSubsequence(c, a[..x]) && IsSubsequence(c, b[..y])
    ensures |c| <= LcsTo(a, b, x, y)
    decreases x + y
  {
    if c != [] {
      assert a[..x][..x - 1] == a[..x - 1] && b[..y][..y - 1] == b[..y - 1];
      LcsSteps(a, b, x, y);
      if IsSubsequence(c, a[..x - 1]) {
        CommonIsNoLonger(a, b, x - 1, y, c);
      } else if IsSubsequence(c, b[..y - 1]) {
        CommonIsNoLonger(a, b, x, y - 1, c);
      } else {
        CommonIsNoLonger(a, b, x - 1, y - 1, c[..|c| - 1]);
      }
    }
  }

  ghost function CommonTo(a: seq<Text>, b: seq<Text>, x: nat, y: nat): seq<Text>
    requires x <= |a| && y <= |b|
  {
    if x == 0 || y == 0 then []
    else if a[x - 1] == b[y - 1] then CommonTo(a, b, x - 1, y - 1) + [a[x - 1]]
    else if LcsTo(a, b, x - 1, y) < LcsTo(a, b, x, y - 1) then CommonTo(a, b, x, y - 1)
    else CommonTo(a, b, x - 1, y)
  }

  lemma {:induction false} CommonIsCommon(a: seq<Text>, b: seq<Text>, x: nat, y: nat)
    requires x <= |a| && y <= |b|
    ensures var c := CommonTo(a, b, x, y);
      |c| == LcsTo(a, b, x, y) && IsSubsequence(c, a[..x]) && IsSubsequence(c, b[..y])
    decreases x + y
  {
    if x > 0 && y > 0 {
      assert a[..x][..x - 1] == a[..x - 1] && b[..y][..y - 1] == b[..y - 1];
      if a[x - 1] == b[y - 1] {
        CommonIsCommon(a, b, x - 1, y - 1);
        var c := CommonTo(a, b, x, y);
        assert c[..|c| - 1] == CommonTo(a, b, x - 1, y - 1);
      } else if LcsTo(a, b, x - 1, y) < LcsTo(a, b, x, y - 1) {
        CommonIsCommon(a, b, x, y - 1);
      } else {
        CommonIsCommon(a, b, x - 1, y);
      }
    }
  }

  lemma LcsIsLongest(a: seq<Text>, b: seq<Text>)
    ensures exists c :: IsSubsequence(c, a) && IsSubsequence(c, b) && |c| == Lcs(a, b)
    ensures forall c :: IsSubsequence(c, a) && IsSubsequence(c, b) ==> |c| <= Lcs(a, b)
  {
    assert a[..|a|] == a && b[..|b|] == b;
    CommonIsCommon(a, b, |a|, |b|);
    forall c | IsSubsequence(c, a) && IsSubsequence(c, b)
      ensures |c| <= Lcs(a, b)
    {
      CommonIsNoLonger(a, b, |a|, |b|, c);
    }
  }

  // ---- Edit length --------------------------------------------------------

  /** Inserts and deletes an optimal script needs. */
  ghost function EditLength(a: seq<Text>, b: seq<Text>): (d: nat)
    ensures d <= |a| + |b|
  {
    |a| + |b| - 2 * Lcs(a, b)
  }

  lemma {:induction false} ReachNeedsEdits(a: seq<Text>, b: seq<Text>, d: nat, x: nat, y: nat)
    requires x <= |a| && y <= |b| && Reach(a, b, d, x, y)
    ensures d >= x + y - 2 * LcsTo(a, b, x, y)
    decreases x + y
  {
    LcsSteps(a, b, x, y);
    if d > 0 && x > 0 && Reach(a, b, d - 1, x - 1, y) {
      ReachNeedsEdits(a, b, d - 1, x - 1, y);
    } else if d > 0 && y > 0 && Reach(a, b, d - 1, x, y - 1) {
      ReachNeedsEdits(a, b, d - 1, x, y - 1);
    } else if x > 0 && y > 0 {
      ReachNeedsEdits(a, b, d, x - 1, y - 1);
    }
  }

  lemma {:induction false} LcsIsReached(a: seq<Text>, b: seq<Text>, x: nat, y: nat)
    requires x <= |a| && y <= |b|
    ensures Reach(a, b, x + y - 2 * LcsTo(a, b, x, y), x, y)
    decreases x + y
  {
    if x == 0 && y == 0 {
    } else if x == 0 {
      LcsIsReached(a, b, x, y - 1);
    } else if y == 0 {
      LcsIsReached(a, b, x - 1, y);
    } else if a[x - 1] == b[y - 1] {
      LcsIsReached(a, b, x - 1, y - 1);
    } else if LcsTo(a, b, x - 1, y) < LcsTo(a, b, x, y - 1) {
      LcsIsReached(a, b, x, y - 1);
    } else {
      LcsIsReached(a, b, x - 1, y);
    }
  }

  /** The least d at which (|a|, |b|) is reached is the edit length, so the search
      loop always stops, at or before step |a| + |b|. */
  lemma EditLengthIsLeast(a: seq<Text>, b: seq<Text>)
    ensures Reach(a, b, EditLength(a, b), |a|, |b|)
    ensures forall d: nat :: Reach(a, b, d, |a|, |b|) ==> EditLength(a, b) <= d
  {
    LcsIsReached(a, b, |a|, |b|);
    forall d: nat | Reach(a, b, d, |a|, |b|)
      ensures EditLength(a, b) <= d
    {
      ReachNeedsEdits(a, b, d, |a|, |b|);
    }
  }

  /** The stopping test succeeds at no step before the edit length, and when it does
      succeed there, it is at exactly (|a|, |b|), never past it. */
  lemma StopIsExact(a: seq<Text>, b: seq<Text>, rows: seq<seq<nat>>, d: nat, j: nat)
    requires IsRows(a, b, rows) && d < |rows| && d <= EditLength(a, b)
    requires j <= d && ArrivesAt(a, b, rows[d], j)
    ensures d == EditLength(a, b) && j == |a| - Lcs(a, b) && rows[d][j] == |a|
  {
    var x := rows[d][j];
    StoredIsReached(a, b, rows, d);
    assert Reach(a, b, d, x, x + d - 2 * j);
    Clip(a, b, d, x, x + d - 2 * j);
    EditLengthIsLeast(a, b);
  }

  lemma SearchStops(a: seq<Text>, b: seq<Text>, rows: seq<seq<nat>>, d: nat)
    requires IsRows(a, b, rows) && d < |rows| && d <= EditLength(a, b)
    ensures Stops(a, b, rows[d]) <==> d == EditLength(a, b)
    ensures d == EditLength(a, b) ==> rows[d][|a| - Lcs(a, b)] == |a|
  {
    if Stops(a, b, rows[d]) {
      var j :| 0 <= j <= d && ArrivesAt(a, b, rows[d], j);
      StopIsExact(a, b, rows, d, j);
    }
    if d == EditLength(a, b) {
      EditLengthIsLeast(a, b);
      var j := ReachStops(a, b, rows, d);
    }
  }

  // ---- Arbitrary scripts --------------------------------------------------

  datatype Step = Keep | Drop | Put(text: Text)

  /** What a script makes of `a`, or None when it does not fit `a`. */
  ghost function Run(script: seq<Step>, a: seq<Text>): Option<seq<Text>> {
    if script == [] then
      if a == [] then Some([]) else None
    else
      var (init, step) := (script[..|script| - 1], script[|script| - 1]);
      if step.Put? then
        match Run(init, a)
        case None => None
        case Some(out) => Some(out + [step.text])
      else if a == [] then None
      else
        match Run(init, a[..|a| - 1])
        case None => None
        case Some(out) => Some(if step.Keep? then out + [a[|a| - 1]] else out)
  }

  ghost function Edits(script: seq<Step>): nat {
    if script == [] then 0
    else Edits(script[..|script| - 1]) + if script[|script| - 1].Keep? then 0 else 1
  }

  lemma {:induction false} ScriptIsPath(script: seq<Step>, a: seq<Text>, b: seq<Text>, x: nat, y: nat)
    requires x <= |a| && y <= |b| && Run(script, a[..x]) == Some(b[..y])
    ensures Reach(a, b, Edits(script), x, y)
  {
    if script != [] {
      var init, step := script[..|script| - 1], script[|script| - 1];
      if x > 0 { assert a[..x][..x - 1] == a[..x - 1]; }
      match step
      case Put(t) =>
        var out := Run(init, a[..x]).value;
        assert out == (out + [t])[..|out|] == b[..y - 1];
        ScriptIsPath(init, a, b, x, y - 1);
      case Drop =>
        ScriptIsPath(init, a, b, x - 1, y);
      case Keep =>
        var out := Run(init, a[..x - 1]).value;
        assert out == (out + [a[x - 1]])[..|out|] == b[..y - 1];
        assert a[x - 1] == (out + [a[x - 1]])[|out|] == b[y - 1];
        ScriptIsPath(init, a, b, x - 1, y - 1);
    }
  }

  /** No way of keeping, dropping and putting texts turns `a` into `b` with fewer
      drops and puts than the edit length. */
  lemma NoShorterScript(script: seq<Step>, a: seq<Text>, b: seq<Text>)
    requires Run(script, a) == Some(b)
    ensures EditLength(a, b) <= Edits(script)
  {
    assert a[..|a|] == a && b[..|b|] == b;
    ScriptIsPath(script, a, b, |a|, |b|);
    EditLengthIsLeast(a, b);
  }
}
