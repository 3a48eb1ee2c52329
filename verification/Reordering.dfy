/** When the block diff (internal/history/differ.go) reports texts that are still there:
    the old texts that the new document keeps, in another order. */
module Reordering {
  import opened Blocks
  import opened BlockDiff
  import opened Changes
  import opened EditGraph
  import opened Myers

  /** The texts of `a` that occur in `b`, in the order of `a`. */
  function Common(a: seq<Text>, b: seq<Text>): seq<Text> {
    if a == [] then []
    else
      var before, last := Common(a[..|a| - 1], b), a[|a| - 1];
      if last in b then before + [last] else before
  }

  /** How many texts of `a` do not occur in `b`. */
  function Foreign(a: seq<Text>, b: seq<Text>): nat {
    if a == [] then 0
    else Foreign(a[..|a| - 1], b) + if a[|a| - 1] in b then 0 else 1
  }

  // ---- The longest common subsequence ----------------------------------------

  lemma {:induction false} CommonIsPart(a: seq<Text>, b: seq<Text>)
    ensures IsSubsequence(Common(a, b), a) && |Common(a, b)| == |a| - Foreign(a, b)
  {
    if a != [] {
      var init, last := a[..|a| - 1], a[|a| - 1];
      CommonIsPart(init, b);
      if last in b {
        assert Common(a, b)[..|Common(init, b)|] == Common(init, b);
      }
    }
  }

  lemma {:induction false} AllInTarget(c: seq<Text>, b: seq<Text>)
    requires IsSubsequence(c, b)
    ensures forall t :: t in c ==> t in b
  {
    forall t | t in c
      ensures t in b
    {
      SubsequenceIsContained(c, b, t);
    }
  }

  /** A part of `a` made of texts of `b` is a part of what they have in common. */
  lemma {:induction false} PartOfCommon(c: seq<Text>, a: seq<Text>, b: seq<Text>)
    requires IsSubsequence(c, a) && forall t :: t in c ==> t in b
    ensures IsSubsequence(c, Common(a, b))
    decreases |a|
  {
    if c != [] {
      var init, last := a[..|a| - 1], a[|a| - 1];
      var before := Common(init, b);
      if IsSubsequence(c, init) {
        PartOfCommon(c, init, b);
        if last in b {
          SubsequenceGrows(c, before, [last]);
        }
      } else {
        var short := c[..|c| - 1];
        PartOfCommon(short, init, b);
        assert c == short + [last];
        SubsequenceGrows(short, before, [last]);
      }
    }
  }

  lemma {:induction false} PartIsShorter(c: seq<Text>, a: seq<Text>)
    requires IsSubsequence(c, a)
    ensures |c| <= |a| && (|c| == |a| ==> c == a)
    decreases |a|
  {
    if c != [] {
      var init := a[..|a| - 1];
      if IsSubsequence(c, init) {
        PartIsShorter(c, init);
      } else {
        PartIsShorter(c[..|c| - 1], init);
        assert c == c[..|c| - 1] + [c[|c| - 1]] && a == init + [a[|a| - 1]];
      }
    }
  }

  /** The common texts are a longest common subsequence exactly if they come in the same
      order in `b`. */
  lemma CommonIsLongestIff(a: seq<Text>, b: seq<Text>)
    ensures Lcs(a, b) == |Common(a, b)| <==> IsSubsequence(Common(a, b), b)
  {
    var common := Common(a, b);
    CommonIsPart(a, b);
    LcsIsLongest(a, b);
    var c :| IsSubsequence(c, a) && IsSubsequence(c, b) && |c| == Lcs(a, b);
    AllInTarget(c, b);
    PartOfCommon(c, a, b);
    PartIsShorter(c, common);
  }

  // ---- What the script deletes -----------------------------------------------

  /** The texts a script deletes. */
  ghost function Deleted(ops: seq<EditOp>, a: seq<Text>): seq<Text> {
    if ops == [] then []
    else
      var before, last := Deleted(ops[..|ops| - 1], a), ops[|ops| - 1];
      if last.Delete? && last.oldI < |a| then before + [a[last.oldI]] else before
  }

  lemma {:induction false} ForeignOfSum(x: seq<Text>, y: seq<Text>, b: seq<Text>)
    ensures Foreign(x + y, b) == Foreign(x, b) + Foreign(y, b)
  {
    if y == [] {
      assert x + y == x;
    } else {
      ForeignOfSum(x, y[..|y| - 1], b);
      assert (x + y)[..|x + y| - 1] == x + y[..|y| - 1];
    }
  }

  lemma {:induction false} ForeignBounds(x: seq<Text>, b: seq<Text>)
    ensures Foreign(x, b) <= |x|
    ensures Foreign(x, b) == 0 <==> forall t :: t in x ==> t in b
    ensures Foreign(x, b) == |x| <==> forall t :: t in x ==> t !in b
  {
    if x != [] {
      var init, last := x[..|x| - 1], x[|x| - 1];
      ForeignBounds(init, b);
      assert forall t :: t in x <==> t in init || t == last;
    }
  }

  /** Copying from `from` to `to`, and perhaps deleting the text after that. */
  lemma ForeignCopied(a: seq<Text>, b: seq<Text>, from: nat, to: nat)
    requires from <= to <= |a| && forall t :: t in a[from..to] ==> t in b
    ensures Foreign(a[..to], b) == Foreign(a[..from], b)
    ensures to < |a| ==> Foreign(a[..to + 1], b) == Foreign(a[..from], b) + if a[to] in b then 0 else 1
  {
    ForeignOfSum(a[..from], a[from..to], b);
    ForeignBounds(a[from..to], b);
    assert a[..from] + a[from..to] == a[..to];
    if to < |a| {
      assert a[..to + 1][..to] == a[..to];
    }
  }

  lemma {:induction false} ForeignOfOneMore(x: seq<Text>, t: Text, b: seq<Text>)
    ensures Foreign(x + [t], b) == Foreign(x, b) + if t in b then 0 else 1
  {
    assert (x + [t])[..|x|] == x;
  }

  /** What an edit copies is written, and so occurs in `b` if everything written does. */
  lemma CopiedOccur(c: Cursor, op: EditOp, a: seq<Text>, b: seq<Text>)
    requires Apply(c, op, a, b).Some? && c.taken <= |a|
    requires forall t :: t in Apply(c, op, a, b).value.out ==> t in b
    ensures forall t :: t in c.out ==> t in b
    ensures var to := if op.Delete? then op.oldI else Apply(c, op, a, b).value.taken;
      c.taken <= to <= |a| && forall t :: t in a[c.taken..to] ==> t in b
  {
    var out' := Apply(c, op, a, b).value.out;
    var to := if op.Delete? then op.oldI else Apply(c, op, a, b).value.taken;
    var copied := a[c.taken..to];
    assert c.out + copied <= out';
    assert forall i :: 0 <= i < |c.out| ==> c.out[i] == out'[i];
    assert forall i :: 0 <= i < |copied| ==> copied[i] == out'[|c.out| + i];
  }

  lemma ForeignStep(c: Cursor, op: EditOp, a: seq<Text>, b: seq<Text>)
    requires Apply(c, op, a, b).Some? && c.taken <= |a|
    requires forall t :: t in Apply(c, op, a, b).value.out ==> t in b
    ensures var c' := Apply(c, op, a, b).value;
      && c'.taken <= |a| && (forall t :: t in c.out ==> t in b)
      && Foreign(a[..c'.taken], b) == Foreign(a[..c.taken], b) + if op.Delete? && a[op.oldI] !in b then 1 else 0
  {
    CopiedOccur(c, op, a, b);
    ForeignCopied(a, b, c.taken, if op.Delete? then op.oldI else Apply(c, op, a, b).value.taken);
  }

  /** While everything written occurs in `b`, the deleted texts that do not are all the
      texts taken so far that do not. */
  lemma {:induction false} ForeignAreDeleted(ops: seq<EditOp>, a: seq<Text>, b: seq<Text>)
    requires Replay(ops, a, b).Some? && forall t :: t in Replay(ops, a, b).value.out ==> t in b
    ensures var c := Replay(ops, a, b).value;
      c.taken <= |a| && Foreign(Deleted(ops, a), b) == Foreign(a[..c.taken], b)
  {
    ReplayedIsInOrder(ops, a, b);
    if ops != [] {
      var init, op := ops[..|ops| - 1], ops[|ops| - 1];
      ReplayedIsInOrder(init, a, b);
      ForeignStep(Replay(init, a, b).value, op, a, b);
      ForeignAreDeleted(init, a, b);
      if op.Delete? {
        ForeignOfOneMore(Deleted(init, a), a[op.oldI], b);
      }
    }
  }

  lemma {:induction false} DeletedCount(ops: seq<EditOp>, a: seq<Text>)
    requires forall p :: 0 <= p < |ops| && ops[p].Delete? ==> ops[p].oldI < |a|
    ensures |Deleted(ops, a)| == Deletes(ops)
  {
    if ops != [] {
      DeletedCount(ops[..|ops| - 1], a);
    }
  }

  /** The diff's script deletes every old text that `b` lacks, and |a| - Lcs texts in all. */
  lemma ScriptDeletes(a: seq<Text>, b: seq<Text>)
    ensures Foreign(Deleted(Script(a, b), a), b) == Foreign(a, b)
    ensures |Deleted(Script(a, b), a)| == |a| - Lcs(a, b)
  {
    var ops := Script(a, b);
    ScriptIsShortest(a, b);
    ScriptPatches(a, b);
    var c := Replay(ops, a, b).value;
    assert b == c.out + a[c.taken..];
    assert forall t :: t in c.out ==> t in b;
    assert forall t :: t in a[c.taken..] ==> t in b;
    ForeignAreDeleted(ops, a, b);
    ForeignCopied(a, b, c.taken, |a|);
    assert a[..|a|] == a;
    ReplayCounts(ops, a, b);
    DeletedCount(ops, a);
  }

  lemma DeletesNothingKeptIff(a: seq<Text>, b: seq<Text>)
    ensures (forall t :: t in Deleted(Script(a, b), a) ==> t !in b) <==> IsSubsequence(Common(a, b), b)
  {
    ScriptDeletes(a, b);
    ForeignBounds(Deleted(Script(a, b), a), b);
    CommonIsPart(a, b);
    CommonIsLongestIff(a, b);
  }

  // ---- What the diff reports -------------------------------------------------

  lemma {:induction false} SameDeleted(ops: seq<EditOp>, i: nat, oldBlocks: seq<Block>, m: nat)
    requires i <= |ops| && InRange(ops, |oldBlocks|, m)
    ensures Deleted(ops, Texts(oldBlocks)) == Deleted(ops[..i], Texts(oldBlocks)) + DeletedTexts(ops, i, oldBlocks, m)
    decreases |ops| - i
  {
    if i < |ops| {
      SameDeleted(ops, i + 1, oldBlocks, m);
      assert ops[..i + 1][..i] == ops[..i];
    } else {
      assert ops[..i] == ops;
    }
  }

  /** No change but an addition speaks of a text that the new document still has, if and
      only if the texts that stay come in the same order in both documents. */
  lemma NothingKeptIsReportedIff(oldBlocks: seq<Block>, newBlocks: seq<Block>)
    ensures var (a, b) := (Texts(oldBlocks), Texts(newBlocks));
      (forall t :: t in OldTexts(Diff(oldBlocks, newBlocks)) ==> t !in b) <==> IsSubsequence(Common(a, b), b)
  {
    var a, b := Texts(oldBlocks), Texts(newBlocks);
    DiffAccounts(oldBlocks, newBlocks);
    SameDeleted(Script(a, b), 0, oldBlocks, |newBlocks|);
    assert Script(a, b)[..0] == [];
    assert [] + DeletedTexts(Script(a, b), 0, oldBlocks, |newBlocks|) == Deleted(Script(a, b), a);
    DeletesNothingKeptIff(a, b);
  }

  lemma {:induction false} OldTextOf(changes: seq<Change>, c: Change)
    requires c in changes && !c.what.Added?
    ensures c.oldContent in OldTexts(changes)
  {
    if changes[0] != c {
      OldTextOf(changes[1..], c);
    }
  }

  lemma {:induction false} OldTextFrom(changes: seq<Change>, t: Text) returns (c: Change)
    requires t in OldTexts(changes)
    ensures c in changes && !c.what.Added? && c.oldContent == t
  {
    if !changes[0].what.Added? && changes[0].oldContent == t {
      c := changes[0];
    } else {
      c := OldTextFrom(changes[1..], t);
    }
  }

  /** So with the texts that stay in one order, nothing is reported as moved or as
      modified into itself; and with two of them in another order, some text that stays
      is reported as moved or modified. */
  lemma ReportsReordering(oldBlocks: seq<Block>, newBlocks: seq<Block>)
    ensures var (a, b, changes) := (Texts(oldBlocks), Texts(newBlocks), Diff(oldBlocks, newBlocks));
      if IsSubsequence(Common(a, b), b) then
        forall c :: c in changes ==> !c.what.Moved? && (c.what.Modified? ==> c.oldContent != c.newContent)
      else
        exists c :: c in changes && (c.what.Moved? || c.what.Modified?) && c.oldContent in b
  {
    var a, b, changes := Texts(oldBlocks), Texts(newBlocks), Diff(oldBlocks, newBlocks);
    DiffAccounts(oldBlocks, newBlocks);
    NothingKeptIsReportedIff(oldBlocks, newBlocks);
    if IsSubsequence(Common(a, b), b) {
      forall c | c in changes
        ensures !c.what.Moved? && (c.what.Modified? ==> c.oldContent != c.newContent)
      {
        if !c.what.Added? {
          OldTextOf(changes, c);
          TruthfulText(c, oldBlocks, newBlocks);
        }
      }
    } else {
      var t :| t in OldTexts(changes) && t in b;
      var c := OldTextFrom(changes, t);
      TruthfulText(c, oldBlocks, newBlocks);
    }
  }

  lemma TruthfulText(c: Change, oldBlocks: seq<Block>, newBlocks: seq<Block>)
    requires Truthful(c, oldBlocks, newBlocks)
    ensures var b := Texts(newBlocks);
      && (c.what.Moved? ==> c.oldContent in b) && (c.what.Removed? ==> c.oldContent !in b)
      && (c.what.Modified? ==> c.newContent in b)
  {
    ExistsIsIn(c.oldContent, newBlocks);
    ExistsIsIn(c.newContent, newBlocks);
  }
}
