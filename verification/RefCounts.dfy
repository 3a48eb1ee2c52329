/** The reference table and its denormalised counts (internal/docgraph/store.go).

    `SaveRefs` and `DeleteRefs` rewrite the outgoing edges of one document and
    recompute the counts that may have changed, in one transaction.  Deleting a
    document (internal/db/store.go) removes its edges by the foreign key's cascade
    and touches no counts. */
module RefCounts {

  datatype LinkType = MdLink | Wikilink | FrontmatterLink | VedoxScheme

  /** A reference as extracted from a document. */
  datatype DocRef = DocRef(target: string, link: LinkType, line: int, anchor: string)

  /** A row of doc_references. */
  datatype Row = Row(source: string, ref: DocRef)

  /** A row of doc_reference_counts. */
  datatype Counts = Counts(refs: nat, backlinks: nat)

  datatype Tables = Tables(rows: seq<Row>, counts: map<string, Counts>)

  // ---- What the counts should be ------------------------------------------

  function Outgoing(rows: seq<Row>, id: string): nat {
    if rows == [] then 0 else Outgoing(rows[1..], id) + if rows[0].source == id then 1 else 0
  }

  predicate PointsAt(r: DocRef, id: string) {
    r.target == id && !r.link.VedoxScheme?
  }

  function Inbound(rows: seq<Row>, id: string): nat {
    if rows == [] then 0 else Inbound(rows[1..], id) + if PointsAt(rows[0].ref, id) then 1 else 0
  }

  /** What GetReferenceCounts answers: a missing row reads as zero. */
  function CountsOf(counts: map<string, Counts>, id: string): Counts {
    if id in counts then counts[id] else Counts(0, 0)
  }

  ghost predicate Consistent(t: Tables) {
    forall id :: id != "" ==> ExactAt(t, id)
  }

  /** The counts of `id` equal its edges. */
  ghost predicate ExactAt(t: Tables, id: string) {
    CountsOf(t.counts, id) == Counts(Outgoing(t.rows, id), Inbound(t.rows, id))
  }

  // ---- Queries of a transaction -------------------------------------------

  function Without(rows: seq<Row>, id: string): seq<Row> {
    if rows == [] then []
    else if rows[0].source == id then Without(rows[1..], id)
    else [rows[0]] + Without(rows[1..], id)
  }

  /** Targets whose backlink count depends on `r`. */
  function Counted(r: DocRef): set<string> {
    if r.link.VedoxScheme? || r.target == "" then {} else {r.target}
  }

  function TargetsFrom(rows: seq<Row>, id: string): set<string> {
    if rows == [] then {}
    else TargetsFrom(rows[1..], id) + if rows[0].source == id then Counted(rows[0].ref) else {}
  }

  function TargetsOf(refs: seq<DocRef>): set<string> {
    if refs == [] then {} else Counted(refs[0]) + TargetsOf(refs[1..])
  }

  function RowsOf(id: string, refs: seq<DocRef>): (rows: seq<Row>)
    ensures |rows| == |refs|
  {
    if refs == [] then [] else [Row(id, refs[0])] + RowsOf(id, refs[1..])
  }

  /** The counts table once `id`'s outgoing count and the inbound counts of `targets`
      have been recomputed from `rows`: in whatever order that happened. */
  ghost function Recounted(counts: map<string, Counts>, rows: seq<Row>, id: string, targets: set<string>): map<string, Counts> {
    map k | k in counts.Keys + {id} + targets ::
      Counts(if k == id then Outgoing(rows, id) else CountsOf(counts, k).refs,
             if k in targets then Inbound(rows, k) else CountsOf(counts, k).backlinks)
  }

  ghost function Saved(t: Tables, id: string, refs: seq<DocRef>): Tables {
    var rows := Without(t.rows, id) + RowsOf(id, refs);
    Tables(rows, Recounted(t.counts, rows, id, TargetsFrom(t.rows, id) + TargetsOf(refs)))
  }

  ghost function Cleared(t: Tables, id: string): Tables {
    var rows := Without(t.rows, id);
    Tables(rows, Recounted(t.counts, rows, id, TargetsFrom(t.rows, id)))
  }

  /** Deleting a document: its edges go by cascade, the counts stay. */
  ghost function Cascaded(t: Tables, id: string): Tables {
    Tables(Without(t.rows, id), t.counts)
  }

  // ---- Which rows there are -------------------------------------------------

  /** A document's references, in the order of the rows. */
  function RefsFrom(rows: seq<Row>, id: string): seq<DocRef> {
    if rows == [] then [] else (if rows[0].source == id then [rows[0].ref] else []) + RefsFrom(rows[1..], id)
  }

  /** The rows of all other documents, in order. */
  function RowsNotFrom(rows: seq<Row>, id: string): seq<Row> {
    if rows == [] then [] else (if rows[0].source == id then [] else [rows[0]]) + RowsNotFrom(rows[1..], id)
  }

  lemma Regroup<T>(x: seq<T>, y: seq<T>, z: seq<T>)
    ensures x + (y + z) == x + y + z
  {
  }

  lemma {:induction false} RowsOfSum(r: seq<Row>, s: seq<Row>, id: string)
    ensures RefsFrom(r + s, id) == RefsFrom(r, id) + RefsFrom(s, id)
    ensures RowsNotFrom(r + s, id) == RowsNotFrom(r, id) + RowsNotFrom(s, id)
  {
    if r == [] {
      assert r + s == s;
    } else {
      RowsOfSum(r[1..], s, id);
      assert (r + s)[0] == r[0] && (r + s)[1..] == r[1..] + s;
      Regroup(if r[0].source == id then [r[0].ref] else [], RefsFrom(r[1..], id), RefsFrom(s, id));
      Regroup(if r[0].source == id then [] else [r[0]], RowsNotFrom(r[1..], id), RowsNotFrom(s, id));
    }
  }

  lemma {:induction false} NewRows(id: string, refs: seq<DocRef>)
    ensures RefsFrom(RowsOf(id, refs), id) == refs && RowsNotFrom(RowsOf(id, refs), id) == []
  {
    if refs != [] {
      NewRows(id, refs[1..]);
      assert RowsOf(id, refs)[1..] == RowsOf(id, refs[1..]);
      assert refs == [refs[0]] + refs[1..];
    }
  }

  lemma {:induction false} RemovedRows(rows: seq<Row>, id: string)
    ensures RefsFrom(Without(rows, id), id) == [] && RowsNotFrom(Without(rows, id), id) == RowsNotFrom(rows, id)
  {
    if rows != [] {
      RemovedRows(rows[1..], id);
      if rows[0].source != id {
        assert Without(rows, id)[1..] == Without(rows[1..], id);
      }
    }
  }

  /** Saving replaces: the document's references are those given, whatever they were, and
      no other document's rows are touched. */
  lemma SaveReplaces(t: Tables, id: string, refs: seq<DocRef>)
    ensures RefsFrom(Saved(t, id, refs).rows, id) == refs
    ensures RowsNotFrom(Saved(t, id, refs).rows, id) == RowsNotFrom(t.rows, id)
  {
    RowsOfSum(Without(t.rows, id), RowsOf(id, refs), id);
    RemovedRows(t.rows, id);
    NewRows(id, refs);
  }

  // ---- The store ----------------------------------------------------------

  class GraphStore {
    var rows: seq<Row>
    var counts: map<string, Counts>
    var documents: set<string>

    ghost function State(): Tables
      reads this
    {
      Tables(rows, counts)
    }

    constructor ()
      ensures State() == Tables([], map[]) && documents == {}
    {
      rows, counts, documents := [], map[], {};
    }

    /** UPSERT of `id`'s ref_count. */
    method RefreshOutgoingCount(id: string)
      modifies this`counts
      ensures counts == old(counts)[id := Counts(Outgoing(rows, id), CountsOf(old(counts), id).backlinks)]
    {
      var n := Outgoing(rows, id);
      counts := counts[id := if id in counts then counts[id].(refs := n) else Counts(n, 0)];
    }

    /** UPSERT of `target`'s backlink_count; the empty target has no row. */
    method RefreshInboundCount(target: string)
      modifies this`counts
      ensures target == "" ==> counts == old(counts)
      ensures target != "" ==>
        counts == old(counts)[target := Counts(CountsOf(old(counts), target).refs, Inbound(rows, target))]
    {
      if target == "" {
        return;
      }
      var n := Inbound(rows, target);
      counts := counts[target := if target in counts then counts[target].(backlinks := n) else Counts(0, n)];
    }

    /** Recomputes the counts around `id`, its targets in any order. */
    method Recount(id: string, targets: set<string>)
      requires "" !in targets
      modifies this`counts
      ensures counts == Recounted(old(counts), rows, id, targets)
    {
      RefreshOutgoingCount(id);
      var todo := targets;
      ghost var done := {};
      assert counts == Recounted(old(counts), rows, id, done);
      while todo != {}
        invariant done + todo == targets
        invariant counts == Recounted(old(counts), rows, id, done)
        decreases todo
      {
        var t :| t in todo;
        RefreshInboundCount(t);
        todo, done := todo - {t}, done + {t};
      }
    }

    /** Replaces all outgoing references of `docID`.  The transaction fails, and
        leaves no trace, when the engine says so or when the document is unknown. */
    method SaveRefs(docID: string, refs: seq<DocRef>, commits: bool) returns (ok: bool)
      modifies this`rows, this`counts
      ensures ok == (docID != "" && commits && (refs == [] || docID in documents))
      ensures State() == if ok then Saved(old(State()), docID, refs) else old(State())
      ensures ok ==> RefsFrom(rows, docID) == refs && RowsNotFrom(rows, docID) == RowsNotFrom(old(rows), docID)
    {
      if docID == "" {
        return false;
      }
      var savedRows, savedCounts := rows, counts;
      var affected := TargetsFrom(rows, docID) + TargetsOf(refs);
      TargetsAreNamed(rows, docID, refs);
      rows := Without(rows, docID);
      ok := InsertRefs(docID, refs);
      if !ok {
        rows := savedRows;
        return false;
      }
      Recount(docID, affected);
      if !commits {
        rows, counts := savedRows, savedCounts;
        return false;
      }
      SaveReplaces(Tables(savedRows, savedCounts), docID, refs);
    }

    /** One INSERT per reference; the first one fails if the document is unknown. */
    method InsertRefs(docID: string, refs: seq<DocRef>) returns (ok: bool)
      modifies this`rows
      ensures ok == (refs == [] || docID in documents)
      ensures ok ==> rows == old(rows) + RowsOf(docID, refs)
    {
      assert refs[0..] == refs;
      for i := 0 to |refs|
        invariant rows + RowsOf(docID, refs[i..]) == old(rows) + RowsOf(docID, refs)
        invariant i > 0 ==> docID in documents
      {
        if docID !in documents {
          return false;
        }
        assert RowsOf(docID, refs[i..]) == [Row(docID, refs[i])] + RowsOf(docID, refs[i + 1..]);
        rows := rows + [Row(docID, refs[i])];
      }
      assert refs[|refs|..] == [];
      ok := true;
    }

    method DeleteRefs(docID: string, commits: bool) returns (ok: bool)
      modifies this`rows, this`counts
      ensures ok == (docID != "" && commits)
      ensures State() == if ok then Cleared(old(State()), docID) else old(State())
      ensures ok ==> RefsFrom(rows, docID) == [] && RowsNotFrom(rows, docID) == RowsNotFrom(old(rows), docID)
    {
      RemovedRows(rows, docID);
      if docID == "" {
        return false;
      }
      var savedRows, savedCounts := rows, counts;
      var oldTargets := TargetsFrom(rows, docID);
      TargetsAreNamed(rows, docID, []);
      rows := Without(rows, docID);
      Recount(docID, oldTargets);
      if !commits {
        rows, counts := savedRows, savedCounts;
        return false;
      }
      ok := true;
    }

    method UpsertDoc(id: string)
      modifies this`documents
      ensures documents == old(documents) + {id}
    {
      documents := documents + {id};
    }

    /** Deletes the document; the cascade takes its edges along. */
    method DeleteDoc(id: string, commits: bool) returns (ok: bool)
      modifies this
      ensures ok == (id != "" && commits)
      ensures documents == if ok then old(documents) - {id} else old(documents)
      ensures State() == if ok && id in old(documents) then Cascaded(old(State()), id) else old(State())
      ensures ok && id in old(documents) ==> RefsFrom(rows, id) == [] && RowsNotFrom(rows, id) == RowsNotFrom(old(rows), id)
    {
      RemovedRows(rows, id);
      if id == "" || !commits {
        return false;
      }
      if id in documents {
        rows := Without(rows, id);
      }
      documents := documents - {id};
      ok := true;
    }
  }

  lemma {:induction false} TargetsAreNamed(rows: seq<Row>, id: string, refs: seq<DocRef>)
    ensures "" !in TargetsFrom(rows, id) && "" !in TargetsOf(refs)
    decreases |rows| + |refs|
  {
    if rows != [] {
      TargetsAreNamed(rows[1..], id, refs);
    } else if refs != [] {
      TargetsAreNamed(rows, id, refs[1..]);
    }
  }

  // ---- Counting lemmas ----------------------------------------------------

  lemma {:induction false} CountSum(r: seq<Row>, s: seq<Row>, id: string)
    ensures Outgoing(r + s, id) == Outgoing(r, id) + Outgoing(s, id)
    ensures Inbound(r + s, id) == Inbound(r, id) + Inbound(s, id)
  {
    if r == [] {
      assert r + s == s;
    } else {
      CountSum(r[1..], s, id);
      assert (r + s)[1..] == r[1..] + s;
    }
  }

  lemma {:induction false} CountWithout(rows: seq<Row>, id: string, k: string)
    ensures Outgoing(Without(rows, id), k) == if k == id then 0 else Outgoing(rows, k)
    ensures k != "" && k !in TargetsFrom(rows, id) ==> Inbound(Without(rows, id), k) == Inbound(rows, k)
    ensures k != "" && k in TargetsFrom(rows, id) ==> Inbound(Without(rows, id), k) < Inbound(rows, k)
    ensures Inbound(Without(rows, id), k) <= Inbound(rows, k)
  {
    if rows != [] {
      CountWithout(rows[1..], id, k);
      CountSum([rows[0]], Without(rows[1..], id), k);
      assert [rows[0]][1..] == [];
    }
  }

  lemma {:induction false} CountNew(id: string, refs: seq<DocRef>, k: string)
    ensures Outgoing(RowsOf(id, refs), k) == if k == id then |refs| else 0
    ensures k != "" && k !in TargetsOf(refs) ==> Inbound(RowsOf(id, refs), k) == 0
  {
    if refs != [] {
      CountNew(id, refs[1..], k);
      assert RowsOf(id, refs)[1..] == RowsOf(id, refs[1..]);
    }
  }

  /** An id's outgoing count is the number of its rows, and its backlink count the number of
      rows that point at it by a link of any kind but a source-code cross-link. */
  lemma {:induction false} CountsAreNumbersOfRows(rows: seq<Row>, id: string)
    ensures Outgoing(rows, id) == |RefsFrom(rows, id)| == |RowsFrom(rows, id)|
    ensures Inbound(rows, id) == |RowsInto(rows, id)|
  {
    if rows != [] {
      CountsAreNumbersOfRows(rows[1..], id);
      Shifted(RowsFrom(rows[1..], id), RowsFrom(rows, id), rows[0].source == id);
      Shifted(RowsInto(rows[1..], id), RowsInto(rows, id), PointsAt(rows[0].ref, id));
    }
  }

  ghost function RowsFrom(rows: seq<Row>, id: string): set<nat> {
    set i: nat | i < |rows| && rows[i].source == id
  }

  ghost function RowsInto(rows: seq<Row>, id: string): set<nat> {
    set i: nat | i < |rows| && rows[i].ref.target == id && rows[i].ref.link in {MdLink, Wikilink, FrontmatterLink}
  }

  /** Indices in a list and in the list behind its first element. */
  lemma {:induction false} Shifted(s: set<nat>, t: set<nat>, first: bool)
    requires (0 in t <==> first) && forall i: nat :: i in s <==> i + 1 in t
    ensures |t| == |s| + if first then 1 else 0
    decreases s
  {
    if i :| i in s {
      Shifted(s - {i}, t - {i + 1}, first);
      assert |t - {i + 1}| == |t| - 1;
    } else {
      forall i: nat | i in t
        ensures i == 0
      {
        assert i > 0 ==> i - 1 in s;
      }
      assert t == if first then {0} else {};
    }
  }

  // ---- The counts never drift ---------------------------------------------

  /** Rewriting a document's references keeps every count exact: self-links, repeated
      links, targets without a row, and unchanged targets included. */
  lemma SaveKeepsCounts(t: Tables, id: string, refs: seq<DocRef>)
    requires Consistent(t) && id != ""
    ensures Consistent(Saved(t, id, refs))
  {
    var t' := Saved(t, id, refs);
    forall k | k != ""
      ensures ExactAt(t', k)
    {
      assert ExactAt(t, k);
      CountSum(Without(t.rows, id), RowsOf(id, refs), k);
      CountWithout(t.rows, id, k);
      CountNew(id, refs, k);
    }
  }

  lemma ClearKeepsCounts(t: Tables, id: string)
    requires Consistent(t) && id != ""
    ensures Consistent(Cleared(t, id))
  {
    var t' := Cleared(t, id);
    forall k | k != ""
      ensures ExactAt(t', k)
    {
      assert ExactAt(t, k);
      CountWithout(t.rows, id, k);
    }
  }

  // ---- Except when a document is deleted ----------------------------------

  lemma {:induction false} NoSourceNothingRemoved(rows: seq<Row>, id: string)
    requires Outgoing(rows, id) == 0
    ensures Without(rows, id) == rows && TargetsFrom(rows, id) == {}
  {
    if rows != [] {
      NoSourceNothingRemoved(rows[1..], id);
    }
  }

  /** Deleting a document keeps the counts exact only if it had no outgoing reference. */
  lemma CascadeKeepsCountsIff(t: Tables, id: string)
    requires Consistent(t) && id != ""
    ensures Consistent(Cascaded(t, id)) <==> Outgoing(t.rows, id) == 0
  {
    CountWithout(t.rows, id, id);
    assert ExactAt(t, id);
    if Outgoing(t.rows, id) == 0 {
      NoSourceNothingRemoved(t.rows, id);
    } else {
      assert !ExactAt(Cascaded(t, id), id);
    }
  }

  lemma {:induction false} WithoutTwice(rows: seq<Row>, id: string)
    ensures Without(Without(rows, id), id) == Without(rows, id) && TargetsFrom(Without(rows, id), id) == {}
  {
    if rows != [] {
      WithoutTwice(rows[1..], id);
      if rows[0].source != id {
        assert Without(rows, id)[1..] == Without(rows[1..], id);
      }
    }
  }

  /** Clearing the references after the deletion is too late: the targets are no longer
      known, so their backlink counts stay wrong unless there were none to lower. */
  lemma ClearingAfterDeletionIsTooLate(t: Tables, id: string)
    requires Consistent(t) && id != ""
    ensures Consistent(Cleared(Cascaded(t, id), id)) <==> TargetsFrom(t.rows, id) == {}
  {
    var t' := Cleared(Cascaded(t, id), id);
    WithoutTwice(t.rows, id);
    TargetsAreNamed(t.rows, id, []);
    forall k | k != ""
      ensures ExactAt(t', k) <==> k !in TargetsFrom(t.rows, id)
    {
      assert ExactAt(t, k);
      CountWithout(t.rows, id, k);
    }
    if TargetsFrom(t.rows, id) != {} {
      var k :| k in TargetsFrom(t.rows, id);
      assert !ExactAt(t', k);
    }
  }

  /** Clearing first and deleting afterwards is safe. */
  lemma ClearingBeforeDeletionIsSafe(t: Tables, id: string)
    requires Consistent(t) && id != ""
    ensures Consistent(Cascaded(Cleared(t, id), id))
  {
    ClearKeepsCounts(t, id);
    CountWithout(t.rows, id, id);
    CascadeKeepsCountsIff(Cleared(t, id), id);
  }

  // ---- Runs ---------------------------------------------------------------

  datatype Op = Save(id: string, refs: seq<DocRef>) | Clear(id: string) | Delete(id: string)

  /** What a committed call on a non-empty document does; calls on the empty id, and failed
      transactions, change nothing.  A document that is not there has no edges to lose. */
  ghost function Do(t: Tables, op: Op): Tables {
    if op.id == "" then t
    else
      match op
      case Save(id, refs) => Saved(t, id, refs)
      case Clear(id) => Cleared(t, id)
      case Delete(id) => Cascaded(t, id)
  }

  ghost function Run(ops: seq<Op>): Tables {
    if ops == [] then Tables([], map[]) else Do(Run(ops[..|ops| - 1]), ops[|ops| - 1])
  }

  /** No count is below the edges. */
  ghost predicate Covers(t: Tables) {
    forall id :: id != "" ==>
      Outgoing(t.rows, id) <= CountsOf(t.counts, id).refs && Inbound(t.rows, id) <= CountsOf(t.counts, id).backlinks
  }

  lemma SaveCovers(t: Tables, id: string, refs: seq<DocRef>)
    requires Covers(t) && id != ""
    ensures Covers(Saved(t, id, refs))
  {
    var t' := Saved(t, id, refs);
    forall k | k != ""
      ensures Outgoing(t'.rows, k) <= CountsOf(t'.counts, k).refs && Inbound(t'.rows, k) <= CountsOf(t'.counts, k).backlinks
    {
      CountSum(Without(t.rows, id), RowsOf(id, refs), k);
      CountWithout(t.rows, id, k);
      CountNew(id, refs, k);
    }
  }

  lemma RemovalCovers(t: Tables, id: string)
    requires Covers(t) && id != ""
    ensures Covers(Cleared(t, id)) && Covers(Cascaded(t, id))
  {
    forall k | k != ""
      ensures var t' := Cleared(t, id);
        Outgoing(t'.rows, k) <= CountsOf(t'.counts, k).refs && Inbound(t'.rows, k) <= CountsOf(t'.counts, k).backlinks
      ensures var t' := Cascaded(t, id);
        Outgoing(t'.rows, k) <= CountsOf(t'.counts, k).refs && Inbound(t'.rows, k) <= CountsOf(t'.counts, k).backlinks
    {
      CountWithout(t.rows, id, k);
    }
  }

  /** Whatever is saved, cleared and deleted, counts err on one side only: none is ever
      below the edges. */
  lemma {:induction false} CountsNeverTooLow(ops: seq<Op>)
    ensures Covers(Run(ops))
  {
    if ops != [] {
      var t, op := Run(ops[..|ops| - 1]), ops[|ops| - 1];
      CountsNeverTooLow(ops[..|ops| - 1]);
      if op.id != "" {
        match op
        case Save(id, refs) => SaveCovers(t, id, refs);
        case _ => RemovalCovers(t, op.id);
      }
    }
  }

  // ---- Exactly when a count has drifted -------------------------------------

  /** Ids whose outgoing count, and ids whose backlink count, a deletion has left behind. */
  datatype Stale = Stale(refs: set<string>, backlinks: set<string>)

  /** A deletion leaves behind the document's own count, if it had edges, and those of its
      counted targets; saving and clearing settle the counts they refresh. */
  function StaleAfter(st: Stale, rows: seq<Row>, op: Op): Stale {
    if op.id == "" then st
    else
      match op
      case Save(id, refs) => Stale(st.refs - {id}, st.backlinks - TargetsFrom(rows, id) - TargetsOf(refs))
      case Clear(id) => Stale(st.refs - {id}, st.backlinks - TargetsFrom(rows, id))
      case Delete(id) =>
        Stale(st.refs + if Outgoing(rows, id) > 0 then {id} else {}, st.backlinks + TargetsFrom(rows, id))
  }

  ghost function StaleIn(ops: seq<Op>): Stale {
    if ops == [] then Stale({}, {})
    else StaleAfter(StaleIn(ops[..|ops| - 1]), Run(ops[..|ops| - 1]).rows, ops[|ops| - 1])
  }

  /** The counts of `k` equal its edges except where they are stale. */
  ghost predicate StaleExactly(t: Tables, st: Stale, k: string) {
    && (CountsOf(t.counts, k).refs == Outgoing(t.rows, k) <==> k !in st.refs)
    && (CountsOf(t.counts, k).backlinks == Inbound(t.rows, k) <==> k !in st.backlinks)
  }

  lemma SaveSettles(t: Tables, st: Stale, id: string, refs: seq<DocRef>, k: string)
    requires StaleExactly(t, st, k) && id != "" && k != ""
    ensures StaleExactly(Saved(t, id, refs), StaleAfter(st, t.rows, Save(id, refs)), k)
  {
    CountSum(Without(t.rows, id), RowsOf(id, refs), k);
    CountWithout(t.rows, id, k);
    CountNew(id, refs, k);
  }

  lemma ClearSettles(t: Tables, st: Stale, id: string, k: string)
    requires StaleExactly(t, st, k) && id != "" && k != ""
    ensures StaleExactly(Cleared(t, id), StaleAfter(st, t.rows, Clear(id)), k)
  {
    CountWithout(t.rows, id, k);
  }

  /** What was too high stays so, since deleting only takes edges away. */
  lemma DeleteLeavesBehind(t: Tables, st: Stale, id: string, k: string)
    requires Covers(t) && StaleExactly(t, st, k) && id != "" && k != ""
    ensures StaleExactly(Cascaded(t, id), StaleAfter(st, t.rows, Delete(id)), k)
  {
    CountWithout(t.rows, id, k);
  }

  /** After any sequence of saves, clears and deletions, a document's count equals its
      edges if and only if no deletion has left it behind since it was last refreshed. */
  lemma {:induction false} CountIsExactIff(ops: seq<Op>, k: string)
    requires k != ""
    ensures StaleExactly(Run(ops), StaleIn(ops), k)
  {
    if ops != [] {
      var init, op := ops[..|ops| - 1], ops[|ops| - 1];
      var t, st := Run(init), StaleIn(init);
      CountIsExactIff(init, k);
      CountsNeverTooLow(init);
      if op.id != "" {
        match op
        case Save(id, refs) => SaveSettles(t, st, id, refs, k);
        case Clear(id) => ClearSettles(t, st, id, k);
        case Delete(id) => DeleteLeavesBehind(t, st, id, k);
      }
    }
  }

  lemma {:induction false} StaleAreNamed(ops: seq<Op>)
    ensures "" !in StaleIn(ops).refs && "" !in StaleIn(ops).backlinks
  {
    if ops != [] {
      StaleAreNamed(ops[..|ops| - 1]);
      TargetsAreNamed(Run(ops[..|ops| - 1]).rows, ops[|ops| - 1].id, []);
    }
  }

  /** Deletions in the run are of documents without outgoing references. */
  ghost predicate CleanDeletions(ops: seq<Op>) {
    forall i :: 0 <= i < |ops| && ops[i].Delete? ==> CleanAt(ops, i)
  }

  ghost predicate CleanAt(ops: seq<Op>, i: nat)
    requires i < |ops|
  {
    Outgoing(Run(ops[..i]).rows, ops[i].id) == 0
  }

  lemma CleanSoFar(ops: seq<Op>)
    requires ops != [] && CleanDeletions(ops)
    ensures CleanDeletions(ops[..|ops| - 1])
    ensures ops[|ops| - 1].Delete? ==> Outgoing(Run(ops[..|ops| - 1]).rows, ops[|ops| - 1].id) == 0
  {
    var init := ops[..|ops| - 1];
    assert ops[|ops| - 1].Delete? ==> CleanAt(ops, |ops| - 1);
    forall i | 0 <= i < |init| && init[i].Delete?
      ensures CleanAt(init, i)
    {
      assert CleanAt(ops, i) && init[..i] == ops[..i];
    }
  }

  lemma {:induction false} CleanLeavesNothingStale(ops: seq<Op>)
    requires CleanDeletions(ops)
    ensures StaleIn(ops) == Stale({}, {})
  {
    if ops != [] {
      CleanSoFar(ops);
      CleanLeavesNothingStale(ops[..|ops| - 1]);
      var rows, op := Run(ops[..|ops| - 1]).rows, ops[|ops| - 1];
      if op.Delete? {
        NoSourceNothingRemoved(rows, op.id);
      }
    }
  }

  lemma ExactIffNotStale(ops: seq<Op>, k: string)
    requires k != ""
    ensures ExactAt(Run(ops), k) <==> k !in StaleIn(ops).refs && k !in StaleIn(ops).backlinks
  {
    CountIsExactIff(ops, k);
  }

  /** Over every run the counts are exact if and only if no deletion has left any behind:
      in particular when every deleted document had no outgoing reference. */
  lemma CountsNeverDrift(ops: seq<Op>)
    ensures Consistent(Run(ops)) <==> StaleIn(ops) == Stale({}, {})
    ensures CleanDeletions(ops) ==> Consistent(Run(ops))
  {
    var st := StaleIn(ops);
    forall k | k != ""
      ensures ExactAt(Run(ops), k) <==> k !in st.refs && k !in st.backlinks
    {
      ExactIffNotStale(ops, k);
    }
    StaleAreNamed(ops);
    if k :| k in st.refs + st.backlinks {
      assert !ExactAt(Run(ops), k);
    }
    if CleanDeletions(ops) {
      CleanLeavesNothingStale(ops);
    }
  }
}
