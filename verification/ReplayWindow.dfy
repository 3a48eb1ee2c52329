/** Replay protection for agent requests (internal/agentauth): a bounded, expiring nonce
    cache behind a clock-skew check.  Times are integers in nanoseconds. */
module ReplayWindow {
  import opened Outcomes

  const SECOND: int := 1_000_000_000
  const CLOCK_SKEW_TOLERANCE := 5 * 60 * SECOND
  const NONCE_TTL := 10 * 60 * SECOND
  const NONCE_MAX_ENTRIES: nat := 10_000
  const MAX_DURATION: int := 0x7FFF_FFFF_FFFF_FFFF
  const MIN_DURATION: int := -0x8000_0000_0000_0000

  // ---- The skew check -----------------------------------------------------

  /** Time.Sub: a 64-bit duration that saturates instead of overflowing. */
  function Sub(t: int, u: int): int {
    if t - u > MAX_DURATION then MAX_DURATION
    else if t - u < MIN_DURATION then MIN_DURATION
    else t - u
  }

  /** Negation of a 64-bit duration; the least one has no counterpart and stays put. */
  function Negate(d: int): int {
    if d == MIN_DURATION then MIN_DURATION else -d
  }

  /** `time` is the parsed timestamp, None for an empty or malformed one. */
  predicate ValidTimestamp(time: Option<int>, now: int) {
    time.Some? &&
    var since := Sub(now, time.value);
    var delta := if since < 0 then Negate(since) else since;
    !(delta > CLOCK_SKEW_TOLERANCE)
  }

  /** The check admits exactly the timestamps within five minutes of the clock, and
      besides those the ones so far ahead that the difference saturates. */
  lemma SkewCheckAdmits(t: int, now: int)
    ensures ValidTimestamp(Some(t), now) <==>
      (now - CLOCK_SKEW_TOLERANCE <= t <= now + CLOCK_SKEW_TOLERANCE || t - now >= 0x8000_0000_0000_0000)
  {
    var delta := if Sub(now, t) < 0 then Negate(Sub(now, t)) else Sub(now, t);
    if t - now >= 0x8000_0000_0000_0000 {
      assert Sub(now, t) == MIN_DURATION && delta == MIN_DURATION;
    } else if t > now {
      assert delta == t - now;
    } else {
      assert delta == if now - t > MAX_DURATION then MAX_DURATION else now - t;
    }
  }

  // ---- The cache ----------------------------------------------------------

  /** The raw timestamp string, not the parsed time, is part of the key. */
  datatype NonceKey = NonceKey(keyID: string, timestamp: string, bodyHash: string)

  datatype Entry = Entry(key: NonceKey, seenAt: int)

  /** Entries of the LRU cache, most recently added first.  Looking an entry up by
      Peek does not move it. */
  type Entries = seq<Entry>

  function Keys(es: Entries): set<NonceKey> {
    set p | 0 <= p < |es| :: es[p].key
  }

  function Without(es: Entries, key: NonceKey): Entries {
    if es == [] then []
    else if es[0].key == key then Without(es[1..], key)
    else [es[0]] + Without(es[1..], key)
  }

  function Peek(es: Entries, key: NonceKey): Option<int> {
    if es == [] then None
    else if es[0].key == key then Some(es[0].seenAt)
    else Peek(es[1..], key)
  }

  /** Adding puts the entry in front, replacing an older one with its key, and drops
      the oldest entry when the cache is over its capacity. */
  function Add(es: Entries, e: Entry): Entries {
    var all := [e] + Without(es, e.key);
    if |all| > NONCE_MAX_ENTRIES then all[..NONCE_MAX_ENTRIES] else all
  }

  predicate IsFresh(es: Entries, key: NonceKey, now: int) {
    var seen := Peek(es, key);
    seen.None? || now - seen.value >= NONCE_TTL
  }

  class NonceCache {
    var entries: Entries

    constructor ()
      ensures entries == []
    {
      entries := [];
    }

    method CheckAndRecord(key: NonceKey, now: int) returns (fresh': bool)
      modifies this
      ensures fresh' == IsFresh(old(entries), key, now)
      ensures entries == if fresh' then Add(old(entries), Entry(key, now)) else old(entries)
    {
      var seen := Peek(entries, key);
      if seen.Some? && now - seen.value < NONCE_TTL {
        return false;
      }
      entries := Add(entries, Entry(key, now));
      fresh' := true;
    }
  }

  // ---- Runs of the cache --------------------------------------------------

  /** A request as far as the cache is concerned: `reaches` says whether every check
      before the cache passed. */
  datatype Attempt = Attempt(key: NonceKey, now: int, reaches: bool)

  function After(run: seq<Attempt>): Entries {
    if run == [] then []
    else
      var es, a := After(run[..|run| - 1]), run[|run| - 1];
      if a.reaches && IsFresh(es, a.key, a.now) then Add(es, Entry(a.key, a.now)) else es
  }

  /** Whether attempt `i` is let through by the cache (and so recorded). */
  predicate Recorded(run: seq<Attempt>, i: nat)
    requires i < |run|
  {
    run[i].reaches && IsFresh(After(run[..i]), run[i].key, run[i].now)
  }

  /** Other keys recorded after attempt `i` and before attempt `j`. */
  function Others(run: seq<Attempt>, i: nat, j: nat): set<NonceKey>
    requires i < j <= |run|
  {
    set k | i < k < j && Recorded(run, k) && run[k].key != run[i].key :: run[k].key
  }

  ghost predicate Distinct(es: Entries) {
    forall p, q :: 0 <= p < q < |es| ==> es[p].key != es[q].key
  }

  // ---- Lists of entries ---------------------------------------------------

  lemma KeysOfMore(e: Entry, es: Entries)
    ensures Keys([e] + es) == {e.key} + Keys(es)
  {
    var all := [e] + es;
    assert all[0] == e;
    assert forall p :: 0 <= p < |es| ==> es[p] == all[p + 1];
  }

  lemma HeadTail(es: Entries)
    requires es != []
    ensures es == [es[0]] + es[1..] && Keys(es) == {es[0].key} + Keys(es[1..])
  {
    assert es == [es[0]] + es[1..];
    KeysOfMore(es[0], es[1..]);
  }

  lemma {:induction false} KeysCount(es: Entries)
    requires Distinct(es)
    ensures |Keys(es)| == |es|
  {
    if es != [] {
      HeadTail(es);
      KeysCount(es[1..]);
      assert es[0].key !in Keys(es[1..]);
    }
  }

  /** Taking a key out of a list of distinct entries. */
  lemma {:induction false} WithoutKeeps(es: Entries, key: NonceKey)
    ensures Keys(Without(es, key)) == Keys(es) - {key} && |Without(es, key)| <= |es|
    ensures Distinct(es) ==> Distinct(Without(es, key))
  {
    if es != [] {
      HeadTail(es);
      WithoutKeeps(es[1..], key);
      if es[0].key != key {
        var rest := Without(es[1..], key);
        KeysOfMore(es[0], rest);
        if Distinct(es) {
          DistinctMore(es[0], es[1..], rest);
        }
      }
    }
  }

  lemma DistinctMore(e: Entry, es: Entries, rest: Entries)
    requires Distinct([e] + es) && Distinct(rest) && Keys(rest) <= Keys(es)
    ensures Distinct([e] + rest)
  {
    forall q | 0 <= q < |rest|
      ensures rest[q].key != e.key
    {
      assert rest[q].key in Keys(rest);
      var p :| 0 <= p < |es| && es[p].key == rest[q].key;
      assert ([e] + es)[0] == e && ([e] + es)[p + 1] == es[p];
    }
  }

  lemma {:induction false} WithoutSum(es: Entries, fs: Entries, key: NonceKey)
    ensures Without(es + fs, key) == Without(es, key) + Without(fs, key)
  {
    if es == [] {
      assert es + fs == fs;
    } else {
      WithoutSum(es[1..], fs, key);
      TailOfSum(es, fs);
    }
  }

  lemma TailOfSum(es: Entries, fs: Entries)
    requires es != []
    ensures (es + fs)[1..] == es[1..] + fs && (es + fs)[0] == es[0]
  {
  }

  lemma {:induction false} PeekFinds(es: Entries, e: Entry, fs: Entries)
    requires e.key !in Keys(es)
    ensures Peek(es + [e] + fs, e.key) == Some(e.seenAt)
  {
    if es != [] {
      HeadTail(es);
      PeekFinds(es[1..], e, fs);
      assert (es + [e] + fs)[1..] == es[1..] + [e] + fs;
    }
  }

  lemma {:induction false} PeekMisses(es: Entries, key: NonceKey)
    requires key !in Keys(es)
    ensures Peek(es, key) == None
  {
    if es != [] {
      HeadTail(es);
      PeekMisses(es[1..], key);
    }
  }

  lemma AddKeeps(es: Entries, e: Entry)
    requires Distinct(es)
    ensures Distinct(Add(es, e))
  {
    WithoutKeeps(es, e.key);
    FirstIsNew(e, Without(es, e.key));
  }

  lemma FirstIsNew(e: Entry, rest: Entries)
    requires Distinct(rest) && e.key !in Keys(rest)
    ensures Distinct([e] + rest)
  {
  }

  lemma {:induction false} AlwaysDistinct(run: seq<Attempt>)
    ensures Distinct(After(run))
  {
    if run != [] {
      AlwaysDistinct(run[..|run| - 1]);
      var a := run[|run| - 1];
      AddKeeps(After(run[..|run| - 1]), Entry(a.key, a.now));
    }
  }

  // ---- How long a key is remembered ---------------------------------------

  /** The newer entries are exactly those of `others`; `e` follows them, as long as
      there is room for it. */
  ghost predicate Remembers(es: Entries, e: Entry, others: set<NonceKey>) {
    if |others| < NONCE_MAX_ENTRIES then
      exists newer: Entries, older: Entries :: es == newer + [e] + older && Keys(newer) == others
    else e.key !in Keys(es)
  }

  /** One more key recorded in front of a remembered entry. */
  lemma AddBefore(es: Entries, e: Entry, others: set<NonceKey>, f: Entry)
    requires Distinct(es) && f.key != e.key && Remembers(es, e, others)
    ensures Remembers(Add(es, f), e, others + {f.key})
  {
    if |others| < NONCE_MAX_ENTRIES {
      var newer: Entries, older: Entries :| es == newer + [e] + older && Keys(newer) == others;
      AddInFront(newer, e, older, f);
    } else {
      WithoutKeeps(es, f.key);
      KeysOfMore(f, Without(es, f.key));
      Grows(others, f.key);
      KeysOfCut([f] + Without(es, f.key), e.key);
    }
  }

  lemma WithoutAround(newer: Entries, e: Entry, older: Entries, key: NonceKey)
    requires e.key != key
    ensures Without(newer + [e] + older, key) == Without(newer, key) + [e] + Without(older, key)
  {
    WithoutSum(newer + [e], older, key);
    WithoutSum(newer, [e], key);
    assert Without([e], key) == [e];
  }

  lemma FrontKeys(newer: Entries, f: Entry)
    ensures Keys([f] + Without(newer, f.key)) == Keys(newer) + {f.key}
  {
    WithoutKeeps(newer, f.key);
    KeysOfMore(f, Without(newer, f.key));
  }

  lemma AddInFront(newer: Entries, e: Entry, older: Entries, f: Entry)
    requires Distinct(newer + [e] + older) && f.key != e.key
    ensures Remembers(Add(newer + [e] + older, f), e, Keys(newer) + {f.key})
  {
    var es := newer + [e] + older;
    var front, back := [f] + Without(newer, f.key), Without(older, f.key);
    var all := [f] + Without(es, f.key);
    assert all == front + [e] + back by {
      WithoutAround(newer, e, older, f.key);
      Prepend(f, Without(newer, f.key), e, back);
    }
    assert Distinct(all) by {
      WithoutKeeps(es, f.key);
      FirstIsNew(f, Without(es, f.key));
    }
    FrontKeys(newer, f);
    RememberedAfterCut(all, front, e, back);
  }

  lemma Prepend(f: Entry, newer: Entries, e: Entry, older: Entries)
    ensures [f] + (newer + [e] + older) == ([f] + newer) + [e] + older
  {
  }

  lemma RememberedAfterCut(all: Entries, front: Entries, e: Entry, back: Entries)
    requires all == front + [e] + back && Distinct(all)
    ensures Remembers(if |all| > NONCE_MAX_ENTRIES then all[..NONCE_MAX_ENTRIES] else all, e, Keys(front))
  {
    FrontIsDistinct(all, front);
    KeysCount(front);
    CutAfter(all, front, e, back);
  }

  lemma Grows(s: set<NonceKey>, k: NonceKey)
    ensures |s| <= |s + {k}|
  {
    if k in s {
      assert s + {k} == s;
    }
  }

  lemma FrontIsDistinct(all: Entries, front: Entries)
    requires Distinct(all) && front <= all
    ensures Distinct(front)
  {
  }

  lemma KeysOfCut(all: Entries, k: NonceKey)
    requires k !in Keys(all)
    ensures |all| > NONCE_MAX_ENTRIES ==> k !in Keys(all[..NONCE_MAX_ENTRIES])
  {
    if |all| > NONCE_MAX_ENTRIES {
      assert forall p :: 0 <= p < NONCE_MAX_ENTRIES ==> all[..NONCE_MAX_ENTRIES][p] == all[p];
    }
  }

  /** Cutting at the capacity keeps the entry exactly if fewer are in front of it. */
  lemma CutAfter(all: Entries, front: Entries, e: Entry, back: Entries)
    requires all == front + [e] + back && Distinct(all)
    ensures var es := if |all| > NONCE_MAX_ENTRIES then all[..NONCE_MAX_ENTRIES] else all;
      if |front| < NONCE_MAX_ENTRIES then exists older: Entries :: es == front + [e] + older
      else e.key !in Keys(es)
  {
    var es := if |all| > NONCE_MAX_ENTRIES then all[..NONCE_MAX_ENTRIES] else all;
    if |front| < NONCE_MAX_ENTRIES {
      assert es == front + [e] + es[|front| + 1..];
    } else {
      assert all[|front|] == e;
      assert forall p :: 0 <= p < |es| ==> es[p] == all[p];
    }
  }

  lemma AfterStep(run: seq<Attempt>, n: nat)
    requires 0 < n <= |run|
    ensures After(run[..n]) ==
      if Recorded(run, n - 1) then Add(After(run[..n - 1]), Entry(run[n - 1].key, run[n - 1].now))
      else After(run[..n - 1])
  {
    assert run[..n][..n - 1] == run[..n - 1];
  }

  lemma OthersStep(run: seq<Attempt>, i: nat, n: nat)
    requires i + 1 < n <= |run|
    requires run[n - 1].key == run[i].key ==> !Recorded(run, n - 1)
    ensures Others(run, i, n) ==
      if Recorded(run, n - 1) then Others(run, i, n - 1) + {run[n - 1].key} else Others(run, i, n - 1)
  {
  }

  /** From its recording on, and as long as it is not recorded again, an attempt's key
      is remembered behind exactly the other keys recorded since. */
  lemma {:induction false} RememberedSince(run: seq<Attempt>, i: nat, n: nat)
    requires i < n <= |run| && Recorded(run, i)
    requires forall k :: i < k < n && run[k].key == run[i].key ==> !Recorded(run, k)
    ensures Remembers(After(run[..n]), Entry(run[i].key, run[i].now), Others(run, i, n))
  {
    var a, e := run[n - 1], Entry(run[i].key, run[i].now);
    AfterStep(run, n);
    if n == i + 1 {
      assert Others(run, i, n) == {};
      RememberedAtFirst(After(run[..i]), e);
    } else {
      RememberedSince(run, i, n - 1);
      OthersStep(run, i, n);
      if Recorded(run, n - 1) {
        AlwaysDistinct(run[..n - 1]);
        AddBefore(After(run[..n - 1]), e, Others(run, i, n - 1), Entry(a.key, a.now));
      }
    }
  }

  lemma RememberedAtFirst(es: Entries, e: Entry)
    ensures Remembers(Add(es, e), e, {})
  {
    var none: Entries := [];
    assert Add(es, e) == none + [e] + Add(es, e)[1..] && Keys(none) == {};
  }

  /** The exact window.  After a recording, the next attempt with the same key that
      reaches the cache is let through if and only if ten thousand other keys have been
      recorded in between, or ten minutes have passed. */
  lemma WindowIsExact(run: seq<Attempt>, i: nat, j: nat)
    requires i < j < |run| && run[j].key == run[i].key && run[j].reaches && Recorded(run, i)
    requires forall k :: i < k < j && run[k].key == run[i].key ==> !Recorded(run, k)
    ensures Recorded(run, j) <==>
      |Others(run, i, j)| >= 10_000 || run[j].now - run[i].now >= 600 * SECOND
  {
    var e, es, others := Entry(run[i].key, run[i].now), After(run[..j]), Others(run, i, j);
    RememberedSince(run, i, j);
    if |others| < NONCE_MAX_ENTRIES {
      var newer: Entries, older: Entries :| es == newer + [e] + older && Keys(newer) == others;
      PeekFinds(newer, e, older);
    } else {
      PeekMisses(es, e.key);
    }
  }

  /** With a clock that does not run backwards and fewer than ten thousand other keys in
      between, two recordings of one key are at least ten minutes apart. */
  lemma {:induction false} RecordingsAreApart(run: seq<Attempt>, i: nat, j: nat)
    requires i < j < |run| && run[j].key == run[i].key && Recorded(run, i) && Recorded(run, j)
    requires forall p, q :: 0 <= p <= q < |run| ==> run[p].now <= run[q].now
    requires |Others(run, i, j)| < NONCE_MAX_ENTRIES
    ensures run[j].now - run[i].now >= NONCE_TTL
    decreases j - i
  {
    if k :| i < k < j && run[k].key == run[i].key && Recorded(run, k) {
      assert Others(run, k, j) <= Others(run, i, j);
      Fewer(Others(run, k, j), Others(run, i, j));
      RecordingsAreApart(run, k, j);
    } else {
      WindowIsExact(run, i, j);
    }
  }

  lemma {:induction false} Fewer(s: set<NonceKey>, t: set<NonceKey>)
    requires s <= t
    ensures |s| <= |t|
  {
    assert t == s + (t - s);
  }

  // ---- The middleware -----------------------------------------------------

  datatype Body = Readable(hash: string) | TooLarge | Unreadable

  datatype Secret = Found | KeychainDown | Missing

  /** What the checks see of a request: headers, key store answers and signature check. */
  datatype Request = Request(
    keyID: string, known: bool, revoked: bool, timestamp: string, time: Option<int>,
    body: Body, secret: Secret, signed: bool, inScope: bool)

  datatype Outcome = Unauthorized | PayloadTooLarge | KeychainError | RateLimited | Replayed | ScopeViolation | Served

  function KeyOf(r: Request): NonceKey {
    NonceKey(r.keyID, r.timestamp, if r.body.Readable? then r.body.hash else "")
  }

  /** The checks before the body is read: the key and the timestamp. */
  predicate Admissible(r: Request, clock: int) {
    r.keyID != "" && r.known && !r.revoked && ValidTimestamp(r.time, clock)
  }

  /** Every check before the rate limiter. */
  predicate Authentic(r: Request, clock: int) {
    Admissible(r, clock) && r.body.Readable? && r.secret.Found? && r.signed
  }

  /** How a request that is not authentic is refused: a body that is too large, and a key
      store that is down, are reported as such, each after the checks before it. */
  function Refusal(r: Request, clock: int): (o: Outcome)
    ensures o in {Unauthorized, PayloadTooLarge, KeychainError}
  {
    if Admissible(r, clock) && r.body.TooLarge? then PayloadTooLarge
    else if Admissible(r, clock) && r.body.Readable? && r.secret.KeychainDown? then KeychainError
    else Unauthorized
  }

  /** Within five minutes of the clock, or so far ahead that the difference saturates. */
  predicate OnTime(time: Option<int>, clock: int) {
    && time.Some?
    && (clock - 300 * SECOND <= time.value <= clock + 300 * SECOND || time.value - clock >= 0x8000_0000_0000_0000)
  }

  class Gate {
    const cache: NonceCache
    ghost var limiterAsked: seq<string>

    constructor ()
      ensures cache.entries == [] && limiterAsked == [] && fresh(cache)
    {
      cache := new NonceCache();
      limiterAsked := [];
    }

    /** The checks in order.  `clock` is the skew check's reading, `now` the cache's;
        `allow` is the limiter's answer if it is asked. */
    method Handle(r: Request, clock: int, now: int, allow: bool) returns (outcome: Outcome)
      modifies this, cache
      ensures var passed := r.keyID != "" && r.known && !r.revoked && OnTime(r.time, clock);
        var seen := if r.body.Readable? then Peek(old(cache.entries), NonceKey(r.keyID, r.timestamp, r.body.hash)) else None;
        && (outcome == PayloadTooLarge <==> passed && r.body.TooLarge?)
        && (outcome == KeychainError <==> passed && r.body.Readable? && r.secret.KeychainDown?)
        && (outcome == Unauthorized <==>
              !passed || r.body.Unreadable? || (r.body.Readable? && (r.secret.Missing? || (r.secret.Found? && !r.signed))))
        && (outcome == Served <==>
              passed && r.body.Readable? && r.secret.Found? && r.signed && allow && r.inScope
              && (seen.None? || now - seen.value >= 600 * SECOND))
      ensures outcome in {RateLimited, Replayed, ScopeViolation, Served} <==> Authentic(r, clock)
      ensures !Authentic(r, clock) ==> outcome == Refusal(r, clock)
      ensures limiterAsked == old(limiterAsked) + if Authentic(r, clock) then [r.keyID] else []
      ensures outcome == RateLimited <==> Authentic(r, clock) && !allow
      ensures outcome in {ScopeViolation, Served} <==>
        Authentic(r, clock) && allow && IsFresh(old(cache.entries), KeyOf(r), now)
      ensures outcome == Served ==> r.inScope
      ensures outcome == ScopeViolation ==> !r.inScope
      ensures cache.entries ==
        if outcome in {ScopeViolation, Served} then Add(old(cache.entries), Entry(KeyOf(r), now))
        else old(cache.entries)
    {
      if r.time.Some? {
        SkewCheckAdmits(r.time.value, clock);
      }
      if r.keyID == "" || !r.known || r.revoked {
        return Unauthorized;
      }
      if !ValidTimestamp(r.time, clock) {
        return Unauthorized;
      }
      match r.body {
        case Unreadable => return Unauthorized;
        case TooLarge => return PayloadTooLarge;
        case Readable(_) =>
      }
      match r.secret {
        case KeychainDown => return KeychainError;
        case Missing => return Unauthorized;
        case Found =>
      }
      if !r.signed {
        return Unauthorized;
      }
      limiterAsked := limiterAsked + [r.keyID];
      if !allow {
        return RateLimited;
      }
      var isFresh := cache.CheckAndRecord(KeyOf(r), now);
      if !isFresh {
        return Replayed;
      }
      outcome := if r.inScope then Served else ScopeViolation;
    }
  }

  /** One request of a run of the gate. */
  datatype Arrival = Arrival(r: Request, clock: int, now: int, allow: bool)

  function Attempts(arrivals: seq<Arrival>): (run: seq<Attempt>)
    ensures |run| == |arrivals|
    ensures forall i :: 0 <= i < |arrivals| ==>
      run[i] == Attempt(KeyOf(arrivals[i].r), arrivals[i].now, Authentic(arrivals[i].r, arrivals[i].clock) && arrivals[i].allow)
  {
    seq(|arrivals|, i requires 0 <= i < |arrivals| =>
      Attempt(KeyOf(arrivals[i].r), arrivals[i].now, Authentic(arrivals[i].r, arrivals[i].clock) && arrivals[i].allow))
  }

  /** Skew check and cache together.  If the same signed request gets past the cache
      twice, the second time falls on the very edge: its skew check reads the clock no
      later, and its cache lookup no earlier, than five minutes after the timestamp.
      Exempt are timestamps far enough ahead to saturate the skew check. */
  lemma SecondPassIsOnTheEdge(arrivals: seq<Arrival>, i: nat, j: nat, t: int)
    requires i < j < |arrivals| && arrivals[i].r.time == Some(t) == arrivals[j].r.time
    requires KeyOf(arrivals[i].r) == KeyOf(arrivals[j].r)
    requires Recorded(Attempts(arrivals), i) && Recorded(Attempts(arrivals), j)
    requires forall p, q :: 0 <= p <= q < |arrivals| ==> arrivals[p].now <= arrivals[q].now
    requires forall p :: 0 <= p < |arrivals| ==> arrivals[p].clock <= arrivals[p].now
    requires |Others(Attempts(arrivals), i, j)| < NONCE_MAX_ENTRIES
    requires t - arrivals[i].clock < 0x8000_0000_0000_0000 && t - arrivals[j].clock < 0x8000_0000_0000_0000
    ensures arrivals[j].clock <= t + CLOCK_SKEW_TOLERANCE <= arrivals[j].now
    ensures arrivals[i].clock == arrivals[i].now && arrivals[j].clock == arrivals[j].now ==>
      arrivals[j].now - arrivals[i].now == NONCE_TTL
  {
    RecordingsAreApart(Attempts(arrivals), i, j);
    SkewCheckAdmits(t, arrivals[i].clock);
    SkewCheckAdmits(t, arrivals[j].clock);
  }

  /** Without that exemption the claim fails: a timestamp 300 years ahead passes the
      skew check now and an hour later. */
  lemma FarFutureStaysValid()
    ensures exists t: int, now: int, later: int ::
      && later - now >= 6 * NONCE_TTL
      && ValidTimestamp(Some(t), now) && ValidTimestamp(Some(t), later)
  {
    var t := 300 * 365 * 24 * 3600 * SECOND;
    SkewCheckAdmits(t, 0);
    SkewCheckAdmits(t, 3600 * SECOND);
  }
}
