/** From edit scripts to semantic changes (internal/history/differ.go). */
module Changes {
  import opened Blocks
  import opened EditGraph
  import opened Outcomes
  import opened Myers

  datatype ChangeType = Added | Removed | Modified | Moved

  datatype Change = Change(what: ChangeType, kind: BlockKind, section: string, oldContent: string, newContent: string)

  predicate BlockExistsIn(raw: string, bs: seq<Block>) {
    exists i :: 0 <= i < |bs| && bs[i].raw == raw
  }

  predicate InRange(ops: seq<EditOp>, n: nat, m: nat) {
    forall p :: 0 <= p < |ops| ==> match ops[p] case Delete(i) => i < n case Insert(j) => j < m
  }

  /** Whether a delete and the insert right after it become one change. */
  predicate Folds(o: Block, n: Block) {
    o.kind == n.kind && o.section == n.section && !o.kind.Heading?
  }

  function Dropped(o: Block, newBlocks: seq<Block>): Change {
    if BlockExistsIn(o.raw, newBlocks) then Change(Moved, o.kind, o.section, o.raw, o.raw)
    else Change(Removed, o.kind, o.section, o.raw, "")
  }

  /** The changes edit `i` gives rise to, and the edit to go on from. */
  function ChangesAt(ops: seq<EditOp>, i: nat, oldBlocks: seq<Block>, newBlocks: seq<Block>): (r: (seq<Change>, nat))
    requires i < |ops| && InRange(ops, |oldBlocks|, |newBlocks|)
    ensures i < r.1 <= |ops|
  {
    match ops[i]
    case Delete(o) =>
      var ob := oldBlocks[o];
      if i + 1 < |ops| && ops[i + 1].Insert? && Folds(ob, newBlocks[ops[i + 1].newI]) then
        ([Change(Modified, ob.kind, ob.section, ob.raw, newBlocks[ops[i + 1].newI].raw)], i + 2)
      else ([Dropped(ob, newBlocks)], i + 1)
    case Insert(n) =>
      var nb := newBlocks[n];
      if BlockExistsIn(nb.raw, oldBlocks) then ([], i + 1)
      else ([Change(Added, nb.kind, nb.section, "", nb.raw)], i + 1)
  }

  /** The changes of the script from edit `i` on. */
  function ChangesFrom(ops: seq<EditOp>, i: nat, oldBlocks: seq<Block>, newBlocks: seq<Block>): seq<Change>
    requires i <= |ops| && InRange(ops, |oldBlocks|, |newBlocks|)
    decreases |ops| - i
  {
    if i == |ops| then []
    else
      var (cs, next) := ChangesAt(ops, i, oldBlocks, newBlocks);
      cs + ChangesFrom(ops, next, oldBlocks, newBlocks)
  }

  lemma Associate(done: seq<Change>, ops: seq<EditOp>, i: nat, oldBlocks: seq<Block>, newBlocks: seq<Block>)
    requires i < |ops| && InRange(ops, |oldBlocks|, |newBlocks|)
    ensures var (cs, next) := ChangesAt(ops, i, oldBlocks, newBlocks);
      done + ChangesFrom(ops, i, oldBlocks, newBlocks) == done + cs + ChangesFrom(ops, next, oldBlocks, newBlocks)
  {
  }

  method OpsToChanges(ops: seq<EditOp>, oldBlocks: seq<Block>, newBlocks: seq<Block>) returns (changes: seq<Change>)
    requires InRange(ops, |oldBlocks|, |newBlocks|)
    ensures changes == ChangesFrom(ops, 0, oldBlocks, newBlocks)
  {
    changes := [];
    var i := 0;
    while i < |ops|
      invariant 0 <= i <= |ops|
      invariant changes + ChangesFrom(ops, i, oldBlocks, newBlocks) == ChangesFrom(ops, 0, oldBlocks, newBlocks)
    {
      Associate(changes, ops, i, oldBlocks, newBlocks);
      changes, i := NextChange(changes, i, ops, oldBlocks, newBlocks);
    }
  }

  /** The loop body: appends what edit `i` gives rise to and moves past what it used. */
  method NextChange(done: seq<Change>, i: nat, ops: seq<EditOp>, oldBlocks: seq<Block>, newBlocks: seq<Block>)
      returns (changes: seq<Change>, next: nat)
    requires i < |ops| && InRange(ops, |oldBlocks|, |newBlocks|)
    ensures var (cs, n) := ChangesAt(ops, i, oldBlocks, newBlocks); changes == done + cs && next == n
  {
    changes := done;
    if ops[i].Delete? {
      var ob := oldBlocks[ops[i].oldI];
      if i + 1 < |ops| && ops[i + 1].Insert? {
        var nb := newBlocks[ops[i + 1].newI];
        if ob.kind == nb.kind && ob.section == nb.section && ob.kind != Heading {
          return changes + [Change(Modified, ob.kind, ob.section, ob.raw, nb.raw)], i + 2;
        }
      }
      if BlockExistsIn(ob.raw, newBlocks) {
        changes := changes + [Change(Moved, ob.kind, ob.section, ob.raw, ob.raw)];
      } else {
        changes := changes + [Change(Removed, ob.kind, ob.section, ob.raw, "")];
      }
    } else {
      var nb := newBlocks[ops[i].newI];
      if !BlockExistsIn(nb.raw, oldBlocks) {
        changes := changes + [Change(Added, nb.kind, nb.section, "", nb.raw)];
      }
    }
    next := i + 1;
  }

  // ---- Each edit by itself --------------------------------------------------

  /** Edit `p` deletes a block, and the edit after it inserts one of the same kind and
      section in its place; headings are not replaced. */
  predicate Replaces(ops: seq<EditOp>, p: int, oldBlocks: seq<Block>, newBlocks: seq<Block>)
    requires InRange(ops, |oldBlocks|, |newBlocks|)
  {
    && 0 <= p && p + 1 < |ops| && ops[p].Delete? && ops[p + 1].Insert?
    && var (o, n) := (oldBlocks[ops[p].oldI], newBlocks[ops[p + 1].newI]);
       o.kind == n.kind && o.section == n.section && o.kind != Heading
  }

  /** What edit `p` contributes, read off that edit and its neighbours. */
  function Contribution(ops: seq<EditOp>, p: nat, oldBlocks: seq<Block>, newBlocks: seq<Block>): seq<Change>
    requires p < |ops| && InRange(ops, |oldBlocks|, |newBlocks|)
  {
    match ops[p]
    case Delete(i) =>
      var o := oldBlocks[i];
      if Replaces(ops, p, oldBlocks, newBlocks) then
        [Change(Modified, o.kind, o.section, o.raw, newBlocks[ops[p + 1].newI].raw)]
      else if exists j :: 0 <= j < |newBlocks| && newBlocks[j].raw == o.raw then
        [Change(Moved, o.kind, o.section, o.raw, o.raw)]
      else [Change(Removed, o.kind, o.section, o.raw, "")]
    case Insert(j) =>
      var n := newBlocks[j];
      if Replaces(ops, p - 1, oldBlocks, newBlocks) || exists i :: 0 <= i < |oldBlocks| && oldBlocks[i].raw == n.raw then []
      else [Change(Added, n.kind, n.section, "", n.raw)]
  }

  function Contributions(ops: seq<EditOp>, p: nat, oldBlocks: seq<Block>, newBlocks: seq<Block>): seq<Change>
    requires p <= |ops| && InRange(ops, |oldBlocks|, |newBlocks|)
    decreases |ops| - p
  {
    if p == |ops| then []
    else Contribution(ops, p, oldBlocks, newBlocks) + Contributions(ops, p + 1, oldBlocks, newBlocks)
  }

  lemma ContributesAt(ops: seq<EditOp>, p: nat, oldBlocks: seq<Block>, newBlocks: seq<Block>)
    requires p < |ops| && InRange(ops, |oldBlocks|, |newBlocks|) && !Replaces(ops, p - 1, oldBlocks, newBlocks)
    ensures var (cs, next) := ChangesAt(ops, p, oldBlocks, newBlocks);
      && cs == Contribution(ops, p, oldBlocks, newBlocks) && !Replaces(ops, next - 1, oldBlocks, newBlocks)
      && if Replaces(ops, p, oldBlocks, newBlocks) then next == p + 2 && Contribution(ops, p + 1, oldBlocks, newBlocks) == []
         else next == p + 1
  {
  }

  lemma ContributesTwo(ops: seq<EditOp>, p: nat, oldBlocks: seq<Block>, newBlocks: seq<Block>)
    requires p + 1 < |ops| && InRange(ops, |oldBlocks|, |newBlocks|)
    requires Contribution(ops, p + 1, oldBlocks, newBlocks) == []
    ensures Contributions(ops, p + 1, oldBlocks, newBlocks) == Contributions(ops, p + 2, oldBlocks, newBlocks)
  {
  }

  lemma ContributesPast(ops: seq<EditOp>, p: nat, next: nat, oldBlocks: seq<Block>, newBlocks: seq<Block>)
    requires p < |ops| && InRange(ops, |oldBlocks|, |newBlocks|)
    requires next == p + 1 || (next == p + 2 <= |ops| && Contribution(ops, p + 1, oldBlocks, newBlocks) == [])
    ensures Contributions(ops, p, oldBlocks, newBlocks)
         == Contribution(ops, p, oldBlocks, newBlocks) + Contributions(ops, next, oldBlocks, newBlocks)
  {
    if next == p + 2 {
      ContributesTwo(ops, p, oldBlocks, newBlocks);
    }
  }

  /** The changes are what the edits contribute, one after the other. */
  lemma {:induction false} EditsContribute(ops: seq<EditOp>, p: nat, oldBlocks: seq<Block>, newBlocks: seq<Block>)
    requires p <= |ops| && InRange(ops, |oldBlocks|, |newBlocks|) && !Replaces(ops, p - 1, oldBlocks, newBlocks)
    ensures ChangesFrom(ops, p, oldBlocks, newBlocks) == Contributions(ops, p, oldBlocks, newBlocks)
    decreases |ops| - p
  {
    if p < |ops| {
      ContributesAt(ops, p, oldBlocks, newBlocks);
      ContributesPast(ops, p, ChangesAt(ops, p, oldBlocks, newBlocks).1, oldBlocks, newBlocks);
      EditsContribute(ops, ChangesAt(ops, p, oldBlocks, newBlocks).1, oldBlocks, newBlocks);
    }
  }

  // ---- Accounting ---------------------------------------------------------

  function DeletedTexts(ops: seq<EditOp>, i: nat, oldBlocks: seq<Block>, m: nat): seq<string>
    requires i <= |ops| && InRange(ops, |oldBlocks|, m)
    decreases |ops| - i
  {
    if i == |ops| then []
    else
      var rest := DeletedTexts(ops, i + 1, oldBlocks, m);
      match ops[i] case Delete(o) => [oldBlocks[o].raw] + rest case Insert(_) => rest
  }

  function InsertedTexts(ops: seq<EditOp>, i: nat, newBlocks: seq<Block>, n: nat): seq<string>
    requires i <= |ops| && InRange(ops, n, |newBlocks|)
    decreases |ops| - i
  {
    if i == |ops| then []
    else
      var rest := InsertedTexts(ops, i + 1, newBlocks, n);
      match ops[i] case Delete(_) => rest case Insert(j) => [newBlocks[j].raw] + rest
  }

  /** Old texts of the changes that are not additions, in order. */
  function OldTexts(changes: seq<Change>): seq<string> {
    if changes == [] then []
    else
      var rest := OldTexts(changes[1..]);
      if changes[0].what.Added? then rest else [changes[0].oldContent] + rest
  }

  /** Texts the changes present as new: additions and replacements, in order. */
  function NewTexts(changes: seq<Change>): seq<string> {
    if changes == [] then []
    else
      var rest := NewTexts(changes[1..]);
      if changes[0].what.Added? || changes[0].what.Modified? then [changes[0].newContent] + rest else rest
  }

  lemma TextsOfMore(c: Change, rest: seq<Change>)
    ensures OldTexts([c] + rest) == if c.what.Added? then OldTexts(rest) else [c.oldContent] + OldTexts(rest)
    ensures NewTexts([c] + rest) ==
      if c.what.Added? || c.what.Modified? then [c.newContent] + NewTexts(rest) else NewTexts(rest)
  {
    assert ([c] + rest)[1..] == rest && ([c] + rest)[0] == c;
  }

  /** The first change of the script from edit `i` on, if that edit gives rise to one. */
  lemma FirstChange(ops: seq<EditOp>, i: nat, oldBlocks: seq<Block>, newBlocks: seq<Block>)
    requires i < |ops| && InRange(ops, |oldBlocks|, |newBlocks|)
    ensures var (cs, next) := ChangesAt(ops, i, oldBlocks, newBlocks);
      var rest := ChangesFrom(ops, next, oldBlocks, newBlocks);
      ChangesFrom(ops, i, oldBlocks, newBlocks) == if cs == [] then rest else [cs[0]] + rest
  {
    var (cs, next) := ChangesAt(ops, i, oldBlocks, newBlocks);
    var rest := ChangesFrom(ops, next, oldBlocks, newBlocks);
    assert cs == [] || cs == [cs[0]];
    assert [] + rest == rest;
  }

  lemma DeletedAt(ops: seq<EditOp>, i: nat, oldBlocks: seq<Block>, newBlocks: seq<Block>)
    requires i < |ops| && InRange(ops, |oldBlocks|, |newBlocks|)
    ensures var next := ChangesAt(ops, i, oldBlocks, newBlocks).1;
      var deleted := DeletedTexts(ops, next, oldBlocks, |newBlocks|);
      DeletedTexts(ops, i, oldBlocks, |newBlocks|) ==
        if ops[i].Delete? then [oldBlocks[ops[i].oldI].raw] + deleted else deleted
  {
  }

  lemma ReportedAt(ops: seq<EditOp>, i: nat, oldBlocks: seq<Block>, newBlocks: seq<Block>)
    requires i < |ops| && InRange(ops, |oldBlocks|, |newBlocks|)
    ensures var next := ChangesAt(ops, i, oldBlocks, newBlocks).1;
      var olds := OldTexts(ChangesFrom(ops, next, oldBlocks, newBlocks));
      OldTexts(ChangesFrom(ops, i, oldBlocks, newBlocks)) ==
        if ops[i].Delete? then [oldBlocks[ops[i].oldI].raw] + olds else olds
  {
    var (cs, next) := ChangesAt(ops, i, oldBlocks, newBlocks);
    FirstChange(ops, i, oldBlocks, newBlocks);
    if cs != [] {
      TextsOfMore(cs[0], ChangesFrom(ops, next, oldBlocks, newBlocks));
    }
  }

  /** Every delete yields exactly one change that is not an addition, in script order. */
  lemma {:induction false} DeletesAreAccounted(ops: seq<EditOp>, i: nat, oldBlocks: seq<Block>, newBlocks: seq<Block>)
    requires i <= |ops| && InRange(ops, |oldBlocks|, |newBlocks|)
    ensures OldTexts(ChangesFrom(ops, i, oldBlocks, newBlocks)) == DeletedTexts(ops, i, oldBlocks, |newBlocks|)
    decreases |ops| - i
  {
    if i < |ops| {
      DeletesAreAccounted(ops, ChangesAt(ops, i, oldBlocks, newBlocks).1, oldBlocks, newBlocks);
      DeletedAt(ops, i, oldBlocks, newBlocks);
      ReportedAt(ops, i, oldBlocks, newBlocks);
    }
  }

  /** `shown` presents no text more often than it is inserted, and texts the old
      document lacks exactly as often. */
  ghost predicate Presents(shown: seq<string>, inserted: seq<string>, oldBlocks: seq<Block>) {
    forall t :: multiset(shown)[t] <= multiset(inserted)[t]
      && (!BlockExistsIn(t, oldBlocks) ==> multiset(shown)[t] == multiset(inserted)[t])
  }

  /** One more insert, presented or passed over, or nothing. */
  ghost predicate OneMore(shown': seq<string>, inserted': seq<string>, shown: seq<string>, inserted: seq<string>,
                          t: string, oldBlocks: seq<Block>)
  {
    || (shown' == shown && inserted' == inserted)
    || (shown' == [t] + shown && inserted' == [t] + inserted)
    || (shown' == shown && inserted' == [t] + inserted && BlockExistsIn(t, oldBlocks))
  }

  lemma PresentsMore(shown': seq<string>, inserted': seq<string>, shown: seq<string>, inserted: seq<string>,
                     t: string, oldBlocks: seq<Block>)
    requires Presents(shown, inserted, oldBlocks) && OneMore(shown', inserted', shown, inserted, t, oldBlocks)
    ensures Presents(shown', inserted', oldBlocks)
  {
  }

  lemma {:induction false} FrontGrows(t: string, c: seq<string>, a: seq<string>)
    requires IsSubsequence(c, a)
    ensures IsSubsequence([t] + c, [t] + a) && IsSubsequence(c, [t] + a)
    decreases |a|
  {
    if a != [] {
      var init := a[..|a| - 1];
      assert ([t] + a)[..|a|] == [t] + init;
      if c != [] && IsSubsequence(c[..|c| - 1], init) && c[|c| - 1] == a[|a| - 1] {
        FrontGrows(t, c[..|c| - 1], init);
        assert ([t] + c)[..|c|] == [t] + c[..|c| - 1];
      } else {
        FrontGrows(t, c, init);
      }
    }
  }

  /** The insert that one call of `ChangesAt` consumes, if it consumes one. */
  lemma InsertedAt(ops: seq<EditOp>, i: nat, oldBlocks: seq<Block>, newBlocks: seq<Block>) returns (t: string)
    requires i < |ops| && InRange(ops, |oldBlocks|, |newBlocks|)
    ensures var (cs, next) := ChangesAt(ops, i, oldBlocks, newBlocks);
      var (inserted', inserted) :=
        (InsertedTexts(ops, i, newBlocks, |oldBlocks|), InsertedTexts(ops, next, newBlocks, |oldBlocks|));
      if cs == [] then inserted' == [t] + inserted && BlockExistsIn(t, oldBlocks)
      else if cs[0].what.Added? || cs[0].what.Modified? then inserted' == [t] + inserted && cs[0].newContent == t
      else inserted' == inserted
  {
    var next := ChangesAt(ops, i, oldBlocks, newBlocks).1;
    var e := if next == i + 2 then ops[i + 1] else ops[i];
    t := if e.Insert? then newBlocks[e.newI].raw else "";
  }

  lemma PresentedAt(ops: seq<EditOp>, i: nat, oldBlocks: seq<Block>, newBlocks: seq<Block>) returns (t: string)
    requires i < |ops| && InRange(ops, |oldBlocks|, |newBlocks|)
    ensures var next := ChangesAt(ops, i, oldBlocks, newBlocks).1;
      OneMore(NewTexts(ChangesFrom(ops, i, oldBlocks, newBlocks)), InsertedTexts(ops, i, newBlocks, |oldBlocks|),
              NewTexts(ChangesFrom(ops, next, oldBlocks, newBlocks)), InsertedTexts(ops, next, newBlocks, |oldBlocks|),
              t, oldBlocks)
  {
    var (cs, next) := ChangesAt(ops, i, oldBlocks, newBlocks);
    t := InsertedAt(ops, i, oldBlocks, newBlocks);
    FirstChange(ops, i, oldBlocks, newBlocks);
    if cs != [] {
      TextsOfMore(cs[0], ChangesFrom(ops, next, oldBlocks, newBlocks));
    }
  }

  /** No insert is presented twice, and every insert of a text the old document did
      not have is presented: as often as it is inserted, and in script order. */
  lemma {:induction false} InsertsAreAccounted(ops: seq<EditOp>, i: nat, oldBlocks: seq<Block>, newBlocks: seq<Block>)
    requires i <= |ops| && InRange(ops, |oldBlocks|, |newBlocks|)
    ensures var (shown, inserted) :=
        (NewTexts(ChangesFrom(ops, i, oldBlocks, newBlocks)), InsertedTexts(ops, i, newBlocks, |oldBlocks|));
      Presents(shown, inserted, oldBlocks) && IsSubsequence(shown, inserted)
    decreases |ops| - i
  {
    if i < |ops| {
      var next := ChangesAt(ops, i, oldBlocks, newBlocks).1;
      var shown, inserted := NewTexts(ChangesFrom(ops, next, oldBlocks, newBlocks)), InsertedTexts(ops, next, newBlocks, |oldBlocks|);
      InsertsAreAccounted(ops, next, oldBlocks, newBlocks);
      var t := PresentedAt(ops, i, oldBlocks, newBlocks);
      PresentsMore(NewTexts(ChangesFrom(ops, i, oldBlocks, newBlocks)), InsertedTexts(ops, i, newBlocks, |oldBlocks|),
                   shown, inserted, t, oldBlocks);
      FrontGrows(t, shown, inserted);
    }
  }

  /** Some block has this text, and the change's kind and section. */
  predicate Names(c: Change, raw: string, bs: seq<Block>) {
    exists i :: 0 <= i < |bs| && bs[i].raw == raw && bs[i].kind == c.kind && bs[i].section == c.section
  }

  /** What a change says about the two documents. */
  predicate Truthful(c: Change, oldBlocks: seq<Block>, newBlocks: seq<Block>) {
    match c.what
    case Added => !BlockExistsIn(c.newContent, oldBlocks) && Names(c, c.newContent, newBlocks) && c.oldContent == ""
    case Removed => Names(c, c.oldContent, oldBlocks) && !BlockExistsIn(c.oldContent, newBlocks) && c.newContent == ""
    case Moved => Names(c, c.oldContent, oldBlocks) && BlockExistsIn(c.oldContent, newBlocks) && c.newContent == c.oldContent
    case Modified => Names(c, c.oldContent, oldBlocks) && Names(c, c.newContent, newBlocks) && c.kind != Heading
  }

  lemma TruthfulAt(ops: seq<EditOp>, i: nat, oldBlocks: seq<Block>, newBlocks: seq<Block>)
    requires i < |ops| && InRange(ops, |oldBlocks|, |newBlocks|)
    ensures forall c :: c in ChangesAt(ops, i, oldBlocks, newBlocks).0 ==> Truthful(c, oldBlocks, newBlocks)
  {
  }

  lemma {:induction false} LabelsAreTruthful(ops: seq<EditOp>, i: nat, oldBlocks: seq<Block>, newBlocks: seq<Block>)
    requires i <= |ops| && InRange(ops, |oldBlocks|, |newBlocks|)
    ensures forall c :: c in ChangesFrom(ops, i, oldBlocks, newBlocks) ==> Truthful(c, oldBlocks, newBlocks)
    decreases |ops| - i
  {
    if i < |ops| {
      TruthfulAt(ops, i, oldBlocks, newBlocks);
      LabelsAreTruthful(ops, ChangesAt(ops, i, oldBlocks, newBlocks).1, oldBlocks, newBlocks);
    }
  }

  lemma {:induction false} NoChangesMeans(ops: seq<EditOp>, i: nat, oldBlocks: seq<Block>, newBlocks: seq<Block>)
    requires i <= |ops| && InRange(ops, |oldBlocks|, |newBlocks|)
    ensures ChangesFrom(ops, i, oldBlocks, newBlocks) == [] <==>
      forall p :: i <= p < |ops| ==> ops[p].Insert? && BlockExistsIn(newBlocks[ops[p].newI].raw, oldBlocks)
    decreases |ops| - i
  {
    if i < |ops| {
      FirstChange(ops, i, oldBlocks, newBlocks);
      if ops[i].Insert? {
        NoChangesMeans(ops, i + 1, oldBlocks, newBlocks);
      }
    }
  }

  ghost function Deletes(ops: seq<EditOp>): nat {
    if ops == [] then 0 else Deletes(ops[..|ops| - 1]) + if ops[|ops| - 1].Delete? then 1 else 0
  }

  /** Each edit moves the replay by one, so deletes are what the lengths leave over. */
  lemma {:induction false} ReplayCounts(ops: seq<EditOp>, a: seq<Text>, b: seq<Text>)
    requires Replay(ops, a, b).Some?
    ensures var c := Replay(ops, a, b).value; |c.out| == c.taken + |ops| - 2 * Deletes(ops)
    ensures Deletes(ops) == 0 <==> forall p :: 0 <= p < |ops| ==> ops[p].Insert?
  {
    if ops != [] {
      ReplayCounts(ops[..|ops| - 1], a, b);
    }
  }

  lemma {:induction false} SubsequenceGrows(c: seq<Text>, a: seq<Text>, t: seq<Text>)
    requires IsSubsequence(c, a)
    ensures IsSubsequence(c, a + t) && IsSubsequence(c + t, a + t)
  {
    if t != [] {
      var init, last := t[..|t| - 1], t[|t| - 1];
      SubsequenceGrows(c, a, init);
      assert (a + t)[..|a + t| - 1] == a + init && (c + t)[..|c + t| - 1] == c + init;
      assert (a + t)[|a + t| - 1] == last && (c + t)[|c + t| - 1] == last;
    } else {
      assert a + t == a && c + t == c;
    }
  }

  lemma {:induction false} SubsequenceIsContained(c: seq<Text>, a: seq<Text>, t: Text)
    requires IsSubsequence(c, a) && t in c
    ensures t in a
    decreases |a|
  {
    if c[|c| - 1] == a[|a| - 1] && IsSubsequence(c[..|c| - 1], a[..|a| - 1]) {
      if t != c[|c| - 1] {
        assert t in c[..|c| - 1];
        SubsequenceIsContained(c[..|c| - 1], a[..|a| - 1], t);
      }
    } else {
      SubsequenceIsContained(c, a[..|a| - 1], t);
    }
  }

  /** A script without deletes keeps every old text in order, and writes only old texts
      and the texts it inserts. */
  lemma {:induction false} InsertsKeepOld(ops: seq<EditOp>, a: seq<Text>, b: seq<Text>)
    requires Replay(ops, a, b).Some? && forall p :: 0 <= p < |ops| ==> ops[p].Insert? && ops[p].newI < |b| && b[ops[p].newI] in a
    ensures var c := Replay(ops, a, b).value;
      c.taken <= |a| && IsSubsequence(a[..c.taken], c.out) && forall t :: t in c.out ==> t in a
  {
    if ops != [] {
      var init, op := ops[..|ops| - 1], ops[|ops| - 1];
      InsertsKeepOld(init, a, b);
      InsertKeepsOld(Replay(init, a, b).value, op.newI, a, b);
    }
  }

  lemma InsertKeepsOld(c: Cursor, n: nat, a: seq<Text>, b: seq<Text>)
    requires Apply(c, Insert(n), a, b).Some? && b[n] in a
    requires c.taken <= |a| && IsSubsequence(a[..c.taken], c.out) && forall t :: t in c.out ==> t in a
    ensures var c' := Apply(c, Insert(n), a, b).value;
      c'.taken <= |a| && IsSubsequence(a[..c'.taken], c'.out) && forall t :: t in c'.out ==> t in a
  {
    CopyKeepsOld(c.taken, Apply(c, Insert(n), a, b).value.taken, c.out, a);
    SubsequenceGrows(a[..Apply(c, Insert(n), a, b).value.taken],
                     c.out + a[c.taken..Apply(c, Insert(n), a, b).value.taken], [b[n]]);
  }

  lemma CopyKeepsOld(from: nat, to: nat, out: seq<Text>, a: seq<Text>)
    requires from <= to <= |a| && IsSubsequence(a[..from], out) && forall t :: t in out ==> t in a
    ensures IsSubsequence(a[..to], out + a[from..to]) && forall t :: t in out + a[from..to] ==> t in a
  {
    SubsequenceGrows(a[..from], out, a[from..to]);
    assert a[..from] + a[from..to] == a[..to];
  }

  /** The diff of two block lists. */
  ghost function Diff(oldBlocks: seq<Block>, newBlocks: seq<Block>): seq<Change> {
    var (a, b) := (Texts(oldBlocks), Texts(newBlocks));
    ScriptIsShortest(a, b);
    ChangesFrom(Script(a, b), 0, oldBlocks, newBlocks)
  }

  /** The diff of two block lists is what the edits of the script contribute: a delete
      directly followed by an insert is one modification exactly if both blocks have the
      same kind and section and are no headings; any other delete says whether its text is
      still there, and any other insert is an addition unless its text was there. */
  lemma DiffIsContributions(oldBlocks: seq<Block>, newBlocks: seq<Block>)
    ensures var ops := Script(Texts(oldBlocks), Texts(newBlocks));
      InRange(ops, |oldBlocks|, |newBlocks|) && Diff(oldBlocks, newBlocks) == Contributions(ops, 0, oldBlocks, newBlocks)
  {
    var ops := Script(Texts(oldBlocks), Texts(newBlocks));
    ScriptIsShortest(Texts(oldBlocks), Texts(newBlocks));
    EditsContribute(ops, 0, oldBlocks, newBlocks);
  }

  /** `before` and `after` are what the edits before and after `p` contribute. */
  ghost predicate Around(ops: seq<EditOp>, i: nat, p: nat, oldBlocks: seq<Block>, newBlocks: seq<Block>,
                         before: seq<Change>, after: seq<Change>)
    requires i <= p < |ops| && InRange(ops, |oldBlocks|, |newBlocks|)
  {
    && Contributions(ops, i, oldBlocks, newBlocks) == before + Contribution(ops, p, oldBlocks, newBlocks) + after
    && OldTexts(before) == DeletedBetween(ops, i, p, oldBlocks, |newBlocks|)
  }

  lemma Associated(w: seq<Change>, x: seq<Change>, y: seq<Change>, z: seq<Change>)
    ensures w + (x + y + z) == (w + x) + y + z
  {
  }

  lemma AroundFirst(ops: seq<EditOp>, p: nat, oldBlocks: seq<Block>, newBlocks: seq<Block>, after: seq<Change>)
    requires p < |ops| && InRange(ops, |oldBlocks|, |newBlocks|) && after == Contributions(ops, p + 1, oldBlocks, newBlocks)
    ensures Around(ops, p, p, oldBlocks, newBlocks, [], after)
  {
    assert [] + Contribution(ops, p, oldBlocks, newBlocks) == Contribution(ops, p, oldBlocks, newBlocks);
  }

  lemma AroundMore(ops: seq<EditOp>, i: nat, p: nat, oldBlocks: seq<Block>, newBlocks: seq<Block>,
                   rest: seq<Change>, after: seq<Change>)
    requires i < p < |ops| && InRange(ops, |oldBlocks|, |newBlocks|)
    requires Around(ops, i + 1, p, oldBlocks, newBlocks, rest, after)
    ensures Around(ops, i, p, oldBlocks, newBlocks, Contribution(ops, i, oldBlocks, newBlocks) + rest, after)
  {
    OldTextsOfFirst(ops, i, oldBlocks, newBlocks, rest);
    Associated(Contribution(ops, i, oldBlocks, newBlocks), rest, Contribution(ops, p, oldBlocks, newBlocks), after);
  }

  lemma {:induction false} ContributionsAround(ops: seq<EditOp>, i: nat, p: nat, oldBlocks: seq<Block>, newBlocks: seq<Block>)
      returns (before: seq<Change>, after: seq<Change>)
    requires i <= p < |ops| && InRange(ops, |oldBlocks|, |newBlocks|)
    ensures Around(ops, i, p, oldBlocks, newBlocks, before, after)
    decreases p - i
  {
    if i == p {
      before, after := [], Contributions(ops, p + 1, oldBlocks, newBlocks);
      AroundFirst(ops, p, oldBlocks, newBlocks, after);
    } else {
      before, after := ContributionsAround(ops, i + 1, p, oldBlocks, newBlocks);
      AroundMore(ops, i, p, oldBlocks, newBlocks, before, after);
      before := Contribution(ops, i, oldBlocks, newBlocks) + before;
    }
  }

  lemma OldTextsOfFirst(ops: seq<EditOp>, i: nat, oldBlocks: seq<Block>, newBlocks: seq<Block>, rest: seq<Change>)
    requires i < |ops| && InRange(ops, |oldBlocks|, |newBlocks|)
    ensures OldTexts(Contribution(ops, i, oldBlocks, newBlocks) + rest)
         == (match ops[i] case Delete(o) => [oldBlocks[o].raw] case Insert(_) => []) + OldTexts(rest)
  {
    var cs := Contribution(ops, i, oldBlocks, newBlocks);
    if cs == [] {
      assert cs + rest == rest;
    } else {
      TextsOfMore(cs[0], rest);
      assert cs == [cs[0]];
    }
  }

  /** Texts deleted by the edits from `i` on and before `p`. */
  function DeletedBetween(ops: seq<EditOp>, i: nat, p: nat, oldBlocks: seq<Block>, m: nat): seq<string>
    requires i <= p <= |ops| && InRange(ops, |oldBlocks|, m)
    decreases p - i
  {
    if i == p then []
    else (match ops[i] case Delete(o) => [oldBlocks[o].raw] case Insert(_) => []) + DeletedBetween(ops, i + 1, p, oldBlocks, m)
  }

  /** A delete of `o` that the script follows up with an insert of `n` is reported, after the
      deletes before it, as the modification of `o` into `n` exactly if they have the same
      kind and section and are no headings; otherwise as moved or removed. */
  lemma PairIsModificationIff(oldBlocks: seq<Block>, newBlocks: seq<Block>, ops: seq<EditOp>, p: nat, o: Block, n: Block)
      returns (before: seq<Change>, c: Change, after: seq<Change>)
    requires ops == Script(Texts(oldBlocks), Texts(newBlocks)) && InRange(ops, |oldBlocks|, |newBlocks|)
    requires p + 1 < |ops| && ops[p].Delete? && ops[p + 1].Insert?
    requires o == oldBlocks[ops[p].oldI] && n == newBlocks[ops[p + 1].newI]
    ensures Diff(oldBlocks, newBlocks) == before + [c] + after
    ensures OldTexts(before) == DeletedBetween(ops, 0, p, oldBlocks, |newBlocks|)
    ensures c == Change(Modified, o.kind, o.section, o.raw, n.raw) <==> o.kind == n.kind && o.section == n.section && o.kind != Heading
    ensures c == Change(Moved, o.kind, o.section, o.raw, o.raw) <==>
      !c.what.Modified? && exists j :: 0 <= j < |newBlocks| && newBlocks[j].raw == o.raw
    ensures c.what.Modified? || c.what.Moved? || c == Change(Removed, o.kind, o.section, o.raw, "")
  {
    DiffIsContributions(oldBlocks, newBlocks);
    before, after := ContributionsAround(ops, 0, p, oldBlocks, newBlocks);
    c := OfPair(ops, p, oldBlocks, newBlocks, o, n);
  }

  lemma OfPair(ops: seq<EditOp>, p: nat, oldBlocks: seq<Block>, newBlocks: seq<Block>, o: Block, n: Block) returns (c: Change)
    requires InRange(ops, |oldBlocks|, |newBlocks|) && p + 1 < |ops| && ops[p].Delete? && ops[p + 1].Insert?
    requires o == oldBlocks[ops[p].oldI] && n == newBlocks[ops[p + 1].newI]
    ensures Contribution(ops, p, oldBlocks, newBlocks) == [c]
    ensures c == Change(Modified, o.kind, o.section, o.raw, n.raw) <==> o.kind == n.kind && o.section == n.section && o.kind != Heading
    ensures c == Change(Moved, o.kind, o.section, o.raw, o.raw) <==>
      !c.what.Modified? && exists j :: 0 <= j < |newBlocks| && newBlocks[j].raw == o.raw
    ensures c.what.Modified? || c.what.Moved? || c == Change(Removed, o.kind, o.section, o.raw, "")
  {
    c := Contribution(ops, p, oldBlocks, newBlocks)[0];
  }

  /** The diff is empty exactly when every old block still occurs, in order, and the
      new document has no text the old one lacks.  Repeating a block goes unreported. */
  lemma EmptyDiff(oldBlocks: seq<Block>, newBlocks: seq<Block>)
    ensures var (a, b) := (Texts(oldBlocks), Texts(newBlocks));
      Diff(oldBlocks, newBlocks) == [] <==> IsSubsequence(a, b) && forall t :: t in b ==> t in a
  {
    var a, b := Texts(oldBlocks), Texts(newBlocks);
    ScriptIsShortest(a, b);
    NoChangesByText(Script(a, b), oldBlocks, newBlocks);
    if Diff(oldBlocks, newBlocks) == [] {
      EmptyMeansSame(Script(a, b), a, b);
    }
    if IsSubsequence(a, b) && forall t :: t in b ==> t in a {
      SubsequenceNeedsNoDeletes(a, b);
      InsertsOldTexts(Script(a, b), a, b);
    }
  }

  lemma InsertsOldTexts(ops: seq<EditOp>, a: seq<Text>, b: seq<Text>)
    requires InOrder(ops, |a|, |b|) && forall p :: 0 <= p < |ops| ==> ops[p].Insert?
    requires forall t :: t in b ==> t in a
    ensures forall p :: 0 <= p < |ops| ==> ops[p].newI < |b| && b[ops[p].newI] in a
  {
  }

  lemma NoChangesByText(ops: seq<EditOp>, oldBlocks: seq<Block>, newBlocks: seq<Block>)
    requires InRange(ops, |oldBlocks|, |newBlocks|)
    ensures var (a, b) := (Texts(oldBlocks), Texts(newBlocks));
      ChangesFrom(ops, 0, oldBlocks, newBlocks) == [] <==>
        forall p :: 0 <= p < |ops| ==> ops[p].Insert? && b[ops[p].newI] in a
  {
    NoChangesMeans(ops, 0, oldBlocks, newBlocks);
    forall t
      ensures BlockExistsIn(t, oldBlocks) <==> t in Texts(oldBlocks)
    {
      ExistsIsIn(t, oldBlocks);
    }
  }

  lemma ExistsIsIn(t: Text, bs: seq<Block>)
    ensures BlockExistsIn(t, bs) <==> t in Texts(bs)
  {
    if BlockExistsIn(t, bs) {
      var i :| 0 <= i < |bs| && bs[i].raw == t;
      assert Texts(bs)[i] == t;
    }
  }

  lemma EmptyMeansSame(ops: seq<EditOp>, a: seq<Text>, b: seq<Text>)
    requires Patch(ops, a, b) == Some(b) && InOrder(ops, |a|, |b|)
    requires forall p :: 0 <= p < |ops| ==> ops[p].Insert? && b[ops[p].newI] in a
    ensures IsSubsequence(a, b) && forall t :: t in b ==> t in a
  {
    InsertsKeepOld(ops, a, b);
    var c := Replay(ops, a, b).value;
    CopyKeepsOld(c.taken, |a|, c.out, a);
    assert a[..|a|] == a && a[c.taken..|a|] == a[c.taken..];
  }

  lemma SubsequenceNeedsNoDeletes(a: seq<Text>, b: seq<Text>)
    requires IsSubsequence(a, b)
    ensures forall p :: 0 <= p < |Script(a, b)| ==> Script(a, b)[p].Insert?
  {
    LcsIsLongest(a, b);
    SubsequenceGrows([], [], a);
    assert [] + a == a;
    assert |a| <= Lcs(a, b);
    ScriptPatches(a, b);
    ReplayCounts(Script(a, b), a, b);
  }
}
