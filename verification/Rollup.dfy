/** The event roll-up (internal/analytics/aggregator.go, internal/db/globaldb.go): an
    aggregator that tails the events table behind a cursor and adds per-day counts. */
module Rollup {

  datatype Key = Key(date: string, kind: string)

  /** A row of the events table; `date` is what the timestamp is cut down to. */
  datatype Event = Event(id: nat, key: Key)

  /** The daily table: a missing row counts as zero. */
  type Daily = map<Key, int>

  function CountAt(d: Daily, k: Key): int {
    if k in d then d[k] else 0
  }

  /** Rows as the table holds them: ids strictly increasing from 1. */
  ghost predicate Ordered(events: seq<Event>) {
    && (forall i :: 0 <= i < |events| ==> events[i].id > 0)
    && (forall i, j :: 0 <= i < j < |events| ==> events[i].id < events[j].id)
  }

  /** Events of kind and date `k` with lo < id <= hi. */
  function Between(events: seq<Event>, k: Key, lo: nat, hi: nat): nat {
    if events == [] then 0
    else
      var e := events[|events| - 1];
      Between(events[..|events| - 1], k, lo, hi) + if e.key == k && lo < e.id <= hi then 1 else 0
  }

  function LastId(events: seq<Event>): nat {
    if events == [] then 0 else events[|events| - 1].id
  }

  /** IncrementDailyEvent refuses an empty date or kind. */
  predicate Acceptable(k: Key) {
    k.date != "" && k.kind != ""
  }

  /** The daily table once the tail's counts for `done` have been added. */
  ghost function Added(d: Daily, events: seq<Event>, lo: nat, done: set<Key>): Daily {
    map k | k in d.Keys + done ::
      CountAt(d, k) + if k in done then Between(events, k, lo, LastId(events)) else 0
  }

  /** Keys occurring in the tail. */
  function TailKeys(events: seq<Event>, lo: nat): set<Key> {
    set i | 0 <= i < |events| && events[i].id > lo :: events[i].key
  }

  class Aggregator {
    var lastID: nat
    var daily: Daily

    constructor (table: Daily)
      ensures lastID == 0 && daily == table
    {
      lastID, daily := 0, table;
    }

    /** UPSERT adding `delta`; the engine may fail, before or after the commit. */
    method IncrementDailyEvent(k: Key, delta: int, commits: bool, reports: bool) returns (ok: bool)
      modifies this`daily
      ensures ok <==> k.date != "" && k.kind != "" && commits && reports
      ensures daily == if k.date != "" && k.kind != "" && commits then old(daily)[k := CountAt(old(daily), k) + delta] else old(daily)
    {
      if k.date == "" || k.kind == "" {
        return false;
      }
      if commits {
        daily := daily[k := (if k in daily then daily[k] else 0) + delta];
      }
      ok := commits && reports;
    }

    /** One pass over the events after the cursor. */
    method CountTail(events: seq<Event>) returns (counts: map<Key, int>, maxID: nat)
      requires Ordered(events)
      ensures counts.Keys == TailKeys(events, lastID)
      ensures forall k :: k in counts ==> counts[k] == Between(events, k, lastID, LastId(events))
      ensures counts != map[] ==> maxID == LastId(events)
    {
      counts, maxID := map[], 0;
      for i := 0 to |events|
        invariant IsTailCount(counts, maxID, events, i, lastID)
      {
        CountOne(counts, maxID, events, i, lastID);
        var e := events[i];
        if e.id > lastID {
          counts := counts[e.key := (if e.key in counts then counts[e.key] else 0) + 1];
          if e.id > maxID {
            maxID := e.id;
          }
        }
      }
      assert events[..|events|] == events;
    }

    /** Flushes the counts one by one, in any order, until one is reported as failed. */
    method Flush(counts: map<Key, int>, engine: Key -> (bool, bool)) returns (ok: bool, ghost flushed: set<Key>)
      modifies this`daily
      ensures flushed <= counts.Keys && (ok ==> flushed == counts.Keys)
      ensures daily == Plus(old(daily), counts, flushed)
      ensures forall k :: k in flushed ==> Acceptable(k)
      ensures ok <==> forall k :: k in counts ==> Acceptable(k) && engine(k) == (true, true)
    {
      flushed := {};
      var todo := counts.Keys;
      assert daily == Plus(daily, counts, {});
      while todo != {}
        invariant todo + flushed == counts.Keys && todo !! flushed
        invariant daily == Plus(old(daily), counts, flushed)
        invariant forall k :: k in flushed ==> Acceptable(k) && engine(k) == (true, true)
        decreases todo
      {
        var k :| k in todo;
        var (commits, reports) := engine(k);
        var done := IncrementDailyEvent(k, counts[k], commits, reports);
        if Acceptable(k) && commits {
          flushed := flushed + {k};
        }
        if !done {
          return false, flushed;
        }
        todo := todo - {k};
      }
      ok := true;
    }

    /** Counts the events after the cursor, adds the counts to the daily table, and moves
        the cursor if everything went through. The query fails unless `readable`. */
    method TailAndRollup(events: seq<Event>, readable: bool, engine: Key -> (bool, bool))
      returns (ok: bool, ghost flushed: set<Key>)
      requires Ordered(events)
      modifies this
      ensures flushed <= TailKeys(events, old(lastID)) && (ok ==> flushed == TailKeys(events, old(lastID)))
      ensures daily == Added(old(daily), events, old(lastID), flushed)
      ensures lastID == if ok && flushed != {} then LastId(events) else old(lastID)
      ensures ok <==> readable && forall k :: k in TailKeys(events, old(lastID)) ==> Acceptable(k) && engine(k) == (true, true)
      ensures old(lastID) <= LastId(events) ==>
        var s, cycle := State(events, old(lastID), old(daily)), Cycle(flushed, ok);
        Can(s, cycle) && Do(s, cycle) == State(events, lastID, daily)
    {
      if !readable {
        assert daily == Added(daily, events, lastID, {});
        return false, {};
      }
      var counts, maxID := CountTail(events);
      if counts == map[] {
        assert daily == Added(daily, events, lastID, {});
        return true, {};
      }
      ok, flushed := Flush(counts, engine);
      assert daily == Added(old(daily), events, lastID, flushed);
      if ok {
        lastID := maxID;
      }
    }
  }

  /** The daily table with `counts` added for the keys in `done`. */
  ghost function Plus(d: Daily, counts: map<Key, int>, done: set<Key>): Daily
    requires done <= counts.Keys
  {
    map k | k in d.Keys + done :: CountAt(d, k) + if k in done then counts[k] else 0
  }

  /** `counts` covers the first `n` events after the cursor. */
  ghost predicate IsTailCount(counts: map<Key, int>, maxID: nat, events: seq<Event>, n: nat, lo: nat)
    requires n <= |events|
  {
    && counts.Keys == TailKeys(events[..n], lo)
    && (forall k :: k in counts ==> counts[k] == Between(events[..n], k, lo, LastId(events)))
    && maxID == if counts == map[] then 0 else LastId(events[..n])
  }

  lemma CountOne(counts: map<Key, int>, maxID: nat, events: seq<Event>, i: nat, lo: nat)
    requires Ordered(events) && i < |events| && IsTailCount(counts, maxID, events, i, lo)
    ensures var e := events[i];
      if e.id > lo then
        IsTailCount(counts[e.key := (if e.key in counts then counts[e.key] else 0) + 1],
                    if e.id > maxID then e.id else maxID, events, i + 1, lo)
      else IsTailCount(counts, maxID, events, i + 1, lo)
  {
    var e := events[i];
    assert events[..i + 1][i] == e;
    assert i > 0 ==> LastId(events[..i]) == events[i - 1].id;
    if e.id > lo {
      NewKey(events, i, lo);
    } else {
      OldKey(events, i, lo);
      assert counts == map[];
    }
  }

  lemma {:induction false} NoneBelow(events: seq<Event>, k: Key, lo: nat, hi: nat)
    requires forall i :: 0 <= i < |events| && events[i].key == k ==> !(lo < events[i].id <= hi)
    ensures Between(events, k, lo, hi) == 0
  {
    if events != [] {
      NoneBelow(events[..|events| - 1], k, lo, hi);
    }
  }

  lemma NewKey(events: seq<Event>, i: nat, lo: nat)
    requires Ordered(events) && i < |events| && events[i].id > lo
    ensures TailKeys(events[..i + 1], lo) == TailKeys(events[..i], lo) + {events[i].key}
    ensures forall k :: Between(events[..i + 1], k, lo, LastId(events))
                     == Between(events[..i], k, lo, LastId(events)) + if k == events[i].key then 1 else 0
    ensures events[i].key !in TailKeys(events[..i], lo) ==> Between(events[..i], events[i].key, lo, LastId(events)) == 0
  {
    var more := events[..i + 1];
    assert more[..i] == events[..i] && more[i] == events[i];
    assert forall p :: 0 <= p < i ==> events[..i][p] == more[p];
    if events[i].key !in TailKeys(events[..i], lo) {
      NoneBelow(events[..i], events[i].key, lo, LastId(events));
    }
  }

  lemma OldKey(events: seq<Event>, i: nat, lo: nat)
    requires Ordered(events) && i < |events| && events[i].id <= lo
    ensures TailKeys(events[..i + 1], lo) == TailKeys(events[..i], lo)
    ensures forall k :: Between(events[..i + 1], k, lo, LastId(events)) == Between(events[..i], k, lo, LastId(events))
    ensures TailKeys(events[..i], lo) == {}
  {
    var more := events[..i + 1];
    assert more[..i] == events[..i] && more[i] == events[i];
    assert forall p :: 0 <= p < i ==> events[..i][p] == more[p];
  }

  /** The number of events with this date and kind whose ids are in the range. */
  ghost function EventsBetween(events: seq<Event>, k: Key, lo: nat, hi: nat): set<nat> {
    set i: nat | i < |events| && events[i].key.date == k.date && events[i].key.kind == k.kind && lo < events[i].id <= hi
  }

  lemma {:induction false} BetweenCounts(events: seq<Event>, k: Key, lo: nat, hi: nat)
    ensures Between(events, k, lo, hi) == |EventsBetween(events, k, lo, hi)|
  {
    if events != [] {
      var n := |events| - 1;
      BetweenCounts(events[..n], k, lo, hi);
      OneMoreInSet(EventsBetween(events[..n], k, lo, hi), n, EventsBetween(events, k, lo, hi),
                   events[n].key == k && lo < events[n].id <= hi);
    }
  }

  lemma OneMoreInSet(s: set<nat>, n: nat, t: set<nat>, more: bool)
    requires n !in s && forall i :: i in t <==> i in s || (more && i == n)
    ensures |t| == |s| + if more then 1 else 0
  {
    assert t == if more then s + {n} else s;
  }

  // ---- Runs ---------------------------------------------------------------

  datatype State = State(events: seq<Event>, lastID: nat, daily: Daily)

  /** A cycle says which counts it got into the table; a restart forgets the cursor. */
  datatype Act = Record(e: Event) | Cycle(flushed: set<Key>, ok: bool) | Restart

  ghost predicate Can(s: State, a: Act) {
    match a
    case Record(e) => e.id > LastId(s.events)
    case Cycle(flushed, ok) =>
      var tail := TailKeys(s.events, s.lastID);
      && flushed <= tail && (ok ==> flushed == tail)
      && forall k :: k in (if ok then tail else flushed) ==> Acceptable(k)
    case Restart => true
  }

  ghost function Do(s: State, a: Act): State {
    match a
    case Record(e) => s.(events := s.events + [e])
    case Cycle(flushed, ok) =>
      s.(daily := Added(s.daily, s.events, s.lastID, flushed),
         lastID := if ok && flushed != {} then LastId(s.events) else s.lastID)
    case Restart => s.(lastID := 0)
  }

  ghost predicate Runs(s: State, acts: seq<Act>) {
    acts == [] || (Runs(s, acts[..|acts| - 1]) && Can(After(s, acts[..|acts| - 1]), acts[|acts| - 1]))
  }

  ghost function After(s: State, acts: seq<Act>): State {
    if acts == [] then s else Do(After(s, acts[..|acts| - 1]), acts[|acts| - 1])
  }

  /** Events of key `k` the cursor has passed. */
  function Passed(s: State, k: Key): nat {
    Between(s.events, k, 0, s.lastID)
  }

  ghost predicate Sound(s: State) {
    && Ordered(s.events) && s.lastID <= LastId(s.events)
    && forall k :: Passed(s, k) <= CountAt(s.daily, k)
  }

  ghost predicate Exact(s: State) {
    && Ordered(s.events) && s.lastID <= LastId(s.events)
    && forall k :: Passed(s, k) == CountAt(s.daily, k)
  }

  lemma {:induction false} BetweenSplits(events: seq<Event>, k: Key, lo: nat, mid: nat, hi: nat)
    requires lo <= mid <= hi
    ensures Between(events, k, lo, hi) == Between(events, k, lo, mid) + Between(events, k, mid, hi)
  {
    if events != [] {
      BetweenSplits(events[..|events| - 1], k, lo, mid, hi);
    }
  }

  lemma TailEmpty(events: seq<Event>, k: Key, lo: nat)
    requires Ordered(events) && k !in TailKeys(events, lo)
    ensures Between(events, k, lo, LastId(events)) == 0
  {
    NoneBelow(events, k, lo, LastId(events));
  }

  /** What a cycle that reports success has done: it added each key's tail, and the
      cursor has passed everything. */
  lemma CycleAdds(s: State, flushed: set<Key>, k: Key)
    requires Ordered(s.events) && s.lastID <= LastId(s.events) && Can(s, Cycle(flushed, true))
    ensures var s' := Do(s, Cycle(flushed, true));
      && CountAt(s'.daily, k) == CountAt(s.daily, k) + Between(s.events, k, s.lastID, LastId(s.events))
      && Passed(s', k) == Passed(s, k) + Between(s.events, k, s.lastID, LastId(s.events))
  {
    if k !in flushed {
      TailEmpty(s.events, k, s.lastID);
    }
    if flushed == {} {
      TailEmpty(s.events, k, s.lastID);
    } else {
      BetweenSplits(s.events, k, 0, s.lastID, LastId(s.events));
    }
  }

  lemma FailedCycleAdds(s: State, flushed: set<Key>, k: Key)
    ensures var s' := Do(s, Cycle(flushed, false));
      && s'.events == s.events && s'.lastID == s.lastID
      && CountAt(s'.daily, k)
      == CountAt(s.daily, k) + if k in flushed then Between(s.events, k, s.lastID, LastId(s.events)) else 0
  {
    var more := Added(s.daily, s.events, s.lastID, flushed);
    assert k in more <==> k in s.daily || k in flushed;
  }

  lemma RecordKeeps(s: State, e: Event, k: Key)
    requires Ordered(s.events) && s.lastID <= LastId(s.events) && e.id > LastId(s.events)
    ensures var s' := Do(s, Record(e));
      Ordered(s'.events) && s'.lastID <= LastId(s'.events) && Passed(s', k) == Passed(s, k)
  {
    var more := s.events + [e];
    assert more[..|s.events|] == s.events;
    assert forall i :: 0 <= i < |s.events| ==> s.events[i].id <= LastId(s.events);
  }

  lemma {:induction false} NothingPassed(events: seq<Event>, k: Key)
    ensures Between(events, k, 0, 0) == 0
  {
    NoneBelow(events, k, 0, 0);
  }

  lemma ActKeepsSound(s: State, a: Act)
    requires Sound(s) && Can(s, a)
    ensures Sound(Do(s, a))
  {
    forall k
      ensures Passed(Do(s, a), k) <= CountAt(Do(s, a).daily, k)
    {
      assert Passed(s, k) <= CountAt(s.daily, k);
      if a.Record? {
        RecordKeeps(s, a.e, k);
      } else if a.Restart? {
        NothingPassed(s.events, k);
      } else if a.ok {
        CycleAdds(s, a.flushed, k);
      } else {
        FailedCycleAdds(s, a.flushed, k);
      }
    }
    if a.Record? {
      RecordKeeps(s, a.e, Key("", ""));
    }
  }

  /** At least once: however cycles fail or the aggregator restarts, no day's count is
      ever below the number of events the cursor has passed. */
  lemma {:induction false} NeverUndercounts(s: State, acts: seq<Act>)
    requires Sound(s) && Runs(s, acts)
    ensures Sound(After(s, acts))
  {
    if acts != [] {
      NeverUndercounts(s, acts[..|acts| - 1]);
      ActKeepsSound(After(s, acts[..|acts| - 1]), acts[|acts| - 1]);
    }
  }

  /** What leaves exact counts exact: a failing cycle that got nothing into the table, and
      a restart while the cursor is still before the first event, besides the acts that
      are meant to. */
  ghost predicate Harmless(s: State, a: Act) {
    match a
    case Record(_) => true
    case Cycle(flushed, ok) => ok || flushed == {}
    case Restart => s.events == [] || s.lastID < s.events[0].id
  }

  /** An act keeps exact counts exact if and only if it is harmless, and nothing makes
      counts exact again. */
  lemma ExactStepIff(s: State, a: Act)
    requires Sound(s) && Can(s, a)
    ensures Exact(Do(s, a)) <==> Exact(s) && Harmless(s, a)
  {
    ActKeepsSound(s, a);
    forall k
      ensures CountAt(Do(s, a).daily, k) - Passed(Do(s, a), k) == CountAt(s.daily, k) - Passed(s, k) + Excess(s, a, k)
    {
      ActAddsExcess(s, a, k);
    }
    assert Exact(s) <==> forall k :: CountAt(s.daily, k) - Passed(s, k) == 0;
    if Harmless(s, a) {
      HarmlessAddsNothing(s, a);
    } else {
      var k := HarmfulAdds(s, a);
      assert CountAt(s.daily, k) - Passed(s, k) >= 0;
      assert CountAt(Do(s, a).daily, k) - Passed(Do(s, a), k) > 0;
    }
  }

  /** By how much an act raises a key's count over the events passed. */
  ghost function Excess(s: State, a: Act, k: Key): nat {
    match a
    case Record(_) => 0
    case Cycle(flushed, ok) => if !ok && k in flushed then Between(s.events, k, s.lastID, LastId(s.events)) else 0
    case Restart => Passed(s, k)
  }

  lemma ActAddsExcess(s: State, a: Act, k: Key)
    requires Sound(s) && Can(s, a)
    ensures CountAt(Do(s, a).daily, k) - Passed(Do(s, a), k) == CountAt(s.daily, k) - Passed(s, k) + Excess(s, a, k)
  {
    if a.Record? {
      RecordKeeps(s, a.e, k);
    } else if a.Restart? {
      NothingPassed(s.events, k);
    } else if a.ok {
      CycleAdds(s, a.flushed, k);
    } else {
      FailedCycleAdds(s, a.flushed, k);
    }
  }

  lemma HarmlessAddsNothing(s: State, a: Act)
    requires Sound(s) && Harmless(s, a)
    ensures forall k :: Excess(s, a, k) == 0
  {
    if a.Restart? {
      forall k
        ensures Passed(s, k) == 0
      {
        NoneBelow(s.events, k, 0, s.lastID);
      }
    }
  }

  lemma HarmfulAdds(s: State, a: Act) returns (k: Key)
    requires Sound(s) && Can(s, a) && !Harmless(s, a)
    ensures Excess(s, a, k) > 0
  {
    if a.Restart? {
      k := s.events[0].key;
      Witness(s.events, k, 0, 0, s.lastID);
    } else {
      k :| k in a.flushed;
      TailHas(s.events, k, s.lastID);
    }
  }

  lemma TailHas(events: seq<Event>, k: Key, lo: nat)
    requires Ordered(events) && k in TailKeys(events, lo)
    ensures Between(events, k, lo, LastId(events)) > 0
  {
    var i :| 0 <= i < |events| && events[i].id > lo && events[i].key == k;
    Witness(events, k, i, lo, LastId(events));
  }

  ghost predicate HarmlessAt(s: State, acts: seq<Act>, i: nat)
    requires i < |acts|
  {
    Harmless(After(s, acts[..i]), acts[i])
  }

  /** Every act of the run is harmless where it happens. */
  ghost predicate AllHarmless(s: State, acts: seq<Act>) {
    forall i :: 0 <= i < |acts| ==> HarmlessAt(s, acts, i)
  }

  lemma HarmlessOneMore(s: State, acts: seq<Act>)
    requires acts != []
    ensures var n := |acts| - 1;
      AllHarmless(s, acts) <==> AllHarmless(s, acts[..n]) && Harmless(After(s, acts[..n]), acts[n])
  {
    var n := |acts| - 1;
    var init := acts[..n];
    forall i | 0 <= i < n
      ensures HarmlessAt(s, init, i) == HarmlessAt(s, acts, i)
    {
      assert init[..i] == acts[..i];
    }
    assert HarmlessAt(s, acts, n) == Harmless(After(s, init), acts[n]);
  }

  /** Counts are exact at the end of a run exactly if they were at its start and every
      act was harmless. */
  lemma {:induction false} ExactIffHarmless(s: State, acts: seq<Act>)
    requires Sound(s) && Runs(s, acts)
    ensures Exact(After(s, acts)) <==> Exact(s) && AllHarmless(s, acts)
  {
    if acts != [] {
      var init, last := acts[..|acts| - 1], acts[|acts| - 1];
      var t := After(s, init);
      NeverUndercounts(s, init);
      ExactIffHarmless(s, init);
      ExactStepIff(t, last);
      HarmlessOneMore(s, acts);
    }
  }

  /** In particular, counts stay exact as long as no cycle fails and nothing restarts. */
  lemma ExactWithoutFailures(s: State, acts: seq<Act>)
    requires Exact(s) && Runs(s, acts)
    requires forall a :: a in acts ==> a.Record? || (a.Cycle? && a.ok)
    ensures Exact(After(s, acts))
  {
    ExactIffHarmless(s, acts);
    forall i | 0 <= i < |acts|
      ensures HarmlessAt(s, acts, i)
    {
      assert acts[i] in acts;
    }
  }

  /** After a restart the next successful cycle counts every event passed before once
      more, so a count stays exact exactly if the key had none. */
  lemma RestartCountsAgain(s: State, flushed: set<Key>, k: Key)
    requires Exact(s) && Can(Do(s, Restart), Cycle(flushed, true))
    ensures var s' := Do(Do(s, Restart), Cycle(flushed, true));
      && CountAt(s'.daily, k) == Passed(s, k) + Passed(s', k)
      && (CountAt(s'.daily, k) == Passed(s', k) <==> Passed(s, k) == 0)
  {
    CycleAdds(Do(s, Restart), flushed, k);
    NothingPassed(s.events, k);
  }

  lemma {:induction false} Witness(events: seq<Event>, k: Key, i: nat, lo: nat, hi: nat)
    requires i < |events| && events[i].key == k && lo < events[i].id <= hi
    ensures Between(events, k, lo, hi) > 0
  {
    if i < |events| - 1 {
      Witness(events[..|events| - 1], k, i, lo, hi);
    }
  }

  /** An event without a date or kind stops the cursor for good: every later cycle fails,
      whatever happens in between. */
  lemma {:induction false} UnacceptableEventBlocksCursor(s: State, acts: seq<Act>, i: nat)
    requires Ordered(s.events) && s.lastID <= LastId(s.events) && Runs(s, acts)
    requires i < |s.events| && s.lastID < s.events[i].id && !Acceptable(s.events[i].key)
    ensures var t := After(s, acts);
      && Ordered(t.events) && t.lastID <= LastId(t.events)
      && i < |t.events| && t.events[i] == s.events[i] && t.lastID < s.events[i].id
    ensures forall flushed :: !Can(After(s, acts), Cycle(flushed, true))
  {
    if acts != [] {
      var t, a := After(s, acts[..|acts| - 1]), acts[|acts| - 1];
      UnacceptableEventBlocksCursor(s, acts[..|acts| - 1], i);
      if a.Record? {
        RecordKeeps(t, a.e, s.events[i].key);
      }
    }
    assert s.events[i].key in TailKeys(After(s, acts).events, After(s, acts).lastID);
  }

  /** Some run from `s` on, however it goes, ends with a cycle that succeeds. */
  ghost predicate CanEverSucceed(s: State) {
    exists acts, flushed :: Runs(s, acts) && Can(After(s, acts), Cycle(flushed, true))
  }

  /** A cycle can ever succeed exactly if every event after the cursor has a date and a kind:
      the next one then can, and otherwise no later one either. */
  lemma CycleCanSucceedIff(s: State)
    requires Ordered(s.events) && s.lastID <= LastId(s.events)
    ensures CanEverSucceed(s) <==>
      forall i :: 0 <= i < |s.events| && s.lastID < s.events[i].id ==> s.events[i].key.date != "" && s.events[i].key.kind != ""
  {
    if forall i :: 0 <= i < |s.events| && s.lastID < s.events[i].id ==> Acceptable(s.events[i].key) {
      assert forall k :: k in TailKeys(s.events, s.lastID) ==> Acceptable(k);
      assert After(s, []) == s && Runs(s, []) && Can(s, Cycle(TailKeys(s.events, s.lastID), true));
    } else {
      var i :| 0 <= i < |s.events| && s.lastID < s.events[i].id && !Acceptable(s.events[i].key);
      forall acts, flushed | Runs(s, acts)
        ensures !Can(After(s, acts), Cycle(flushed, true))
      {
        UnacceptableEventBlocksCursor(s, acts, i);
      }
    }
  }

  /** Meanwhile each failing cycle adds the counts it gets through once more. */
  lemma {:induction false} FailingCyclesInflate(s: State, flushed: set<Key>, n: nat, k: Key)
    requires Can(s, Cycle(flushed, false)) && k in flushed
    ensures var t := After(s, seq(n, _ => Cycle(flushed, false)));
      && t.events == s.events && t.lastID == s.lastID
      && CountAt(t.daily, k) == CountAt(s.daily, k) + n * Between(s.events, k, s.lastID, LastId(s.events))
  {
    if n > 0 {
      FailingCyclesInflate(s, flushed, n - 1, k);
      OneMoreCycle(s, Cycle(flushed, false), n - 1);
      FailedCycleAdds(After(s, seq(n - 1, _ => Cycle(flushed, false))), flushed, k);
      OneMoreTime(n - 1, Between(s.events, k, s.lastID, LastId(s.events)));
    }
  }

  lemma OneMoreCycle(s: State, a: Act, n: nat)
    ensures After(s, seq(n + 1, _ => a)) == Do(After(s, seq(n, _ => a)), a)
  {
    assert seq(n + 1, _ => a)[..n] == seq(n, _ => a);
  }

  lemma OneMoreTime(n: nat, c: nat)
    ensures (n + 1) * c == n * c + c
  {
  }
}
