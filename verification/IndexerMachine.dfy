/** The debounced indexer (internal/indexer/indexer.go) as a state machine over the steps
    of its event loop, its timers, the timers' callbacks, and Stop.

    Everything under the indexer's mutex is one step, except that draining the timers
    holds the mutex over several.  Real time is left out: an armed timer may fire at any
    moment.  A callback is an object of its own, since resetting a timer that has
    already fired starts a second one. */
module IndexerMachine {
  import opened Outcomes

  type Path = string
  type Timer = nat
  type CallbackId = nat

  /** The bits of a file-system event that matter. */
  datatype Op = Op(create: bool, write: bool, remove: bool, rename: bool)

  predicate Destructive(op: Op) {
    op.remove || op.rename
  }

  datatype Progress = Begun | Checked | Working(op: Op) | Writing

  datatype Callback = Callback(path: Path, at: Progress)

  datatype Loop = Looping | Draining | Waiting | Finished

  /** A firing that found an operation to carry out, with the events it stands for. */
  datatype Firing = Firing(path: Path, op: Op, events: seq<Op>)

  datatype IndexWrite = Upsert(path: Path) | DeleteDoc(path: Path)

  datatype State = State(
    loop: Loop,
    stopClosed: bool,
    timers: map<Path, Timer>,
    pending: map<Path, Op>,
    armed: set<Timer>,
    pathOf: map<Timer, Path>,            // the path a timer's callback was made for
    callbacks: map<CallbackId, Callback>, // started and not finished
    nextId: nat,
    wg: int,                             // the WaitGroup's counter
    events: map<Path, seq<Op>>,          // history: events since the path's last firing
    lateResets: nat,                     // history: resets of timers that had fired
    firings: seq<Firing>,                // history
    writes: seq<IndexWrite>              // history: index writes started
  )

  predicate Init(s: State) {
    && s.loop.Looping? && !s.stopClosed && s.timers == map[] && s.pending == map[]
    && s.armed == {} && s.pathOf == map[] && s.callbacks == map[] && s.nextId == 0 && s.wg == 0
    && s.events == map[] && s.lateResets == 0 && s.firings == [] && s.writes == []
  }

  datatype Step =
    | Event(path: Path, op: Op)
    | Fire(timer: Timer)
    | CheckStop(cb: CallbackId) | TakeOp(cb: CallbackId) | StartWrite(cb: CallbackId) | EndWrite(cb: CallbackId)
    | CloseStop | LeaveLoop | DrainOne(path: Path) | DrainEnd | CloseDone

  function EventsOf(s: State, p: Path): seq<Op> {
    if p in s.events then s.events[p] else []
  }

  /** Merging a new event into a pending operation: a destructive one is kept. */
  function Merged(s: State, p: Path, op: Op): Op {
    if p in s.pending && Destructive(s.pending[p]) then s.pending[p] else op
  }

  function FinishCallback(s: State, cb: CallbackId): State {
    s.(callbacks := s.callbacks - {cb}, wg := s.wg - 1)
  }

  function Advance(s: State, cb: CallbackId, at: Progress): State
    requires cb in s.callbacks
  {
    s.(callbacks := s.callbacks[cb := s.callbacks[cb].(at := at)])
  }

  function Do(s: State, step: Step): Option<State> {
    match step
    case Event(p, op) =>
      if !s.loop.Looping? then None
      else
        var noted := s.(pending := s.pending[p := Merged(s, p, op)], events := s.events[p := EventsOf(s, p) + [op]]);
        if p in s.timers then
          var t := s.timers[p];
          Some(noted.(armed := s.armed + {t}, lateResets := s.lateResets + if t in s.armed then 0 else 1))
        else
          Some(noted.(timers := s.timers[p := s.nextId], armed := s.armed + {s.nextId},
                      pathOf := s.pathOf[s.nextId := p], nextId := s.nextId + 1, wg := s.wg + 1))
    case Fire(t) =>
      if t in s.armed && t in s.pathOf then
        Some(s.(armed := s.armed - {t}, callbacks := s.callbacks[s.nextId := Callback(s.pathOf[t], Begun)],
                nextId := s.nextId + 1))
      else None
    case CheckStop(cb) =>
      if cb in s.callbacks && s.callbacks[cb].at.Begun? then
        Some(if s.stopClosed then FinishCallback(s, cb) else Advance(s, cb, Checked))
      else None
    case TakeOp(cb) =>
      if cb in s.callbacks && s.callbacks[cb].at.Checked? && !s.loop.Draining? then
        var p := s.callbacks[cb].path;
        var cleared := s.(timers := s.timers - {p}, pending := s.pending - {p}, events := s.events - {p});
        if p in s.pending then
          Some(Advance(cleared, cb, Working(s.pending[p]))
                 .(firings := s.firings + [Firing(p, s.pending[p], EventsOf(s, p))]))
        else Some(FinishCallback(cleared, cb))
      else None
    case StartWrite(cb) =>
      if cb in s.callbacks && s.callbacks[cb].at.Working? then
        var p := s.callbacks[cb].path;
        var w := if Destructive(s.callbacks[cb].at.op) then DeleteDoc(p) else Upsert(p);
        Some(Advance(s, cb, Writing).(writes := s.writes + [w]))
      else None
    case EndWrite(cb) =>
      if cb in s.callbacks && s.callbacks[cb].at.Writing? then Some(FinishCallback(s, cb)) else None
    case CloseStop => Some(s.(stopClosed := true))
    case LeaveLoop => if s.loop.Looping? then Some(s.(stopClosed := true, loop := Draining)) else None
    case DrainOne(p) =>
      if s.loop.Draining? && p in s.timers then
        var t := s.timers[p];
        Some(s.(timers := s.timers - {p}, armed := s.armed - {t}, wg := s.wg - if t in s.armed then 1 else 0))
      else None
    case DrainEnd =>
      if s.loop.Draining? && s.timers == map[] then Some(s.(pending := map[], events := map[], loop := Waiting))
      else None
    case CloseDone => if s.loop.Waiting? && s.wg == 0 then Some(s.(loop := Finished)) else None
  }

  /** The states passed through, and the step between each two of them. */
  ghost predicate Linked(states: seq<State>, steps: seq<Step>) {
    && |states| == |steps| + 1
    && forall i :: 0 <= i < |steps| ==> StepAt(states, steps, i)
  }

  ghost predicate IsRun(states: seq<State>, steps: seq<Step>) {
    Linked(states, steps) && Init(states[0])
  }

  ghost predicate StepAt(states: seq<State>, steps: seq<Step>, i: nat)
    requires i < |steps| && i + 1 < |states|
  {
    Do(states[i], steps[i]) == Some(states[i + 1])
  }

  // ---- What a burst of events amounts to ----------------------------------

  /** Index of the first remove or rename; |ops| if there is none. */
  function FirstDestructive(ops: seq<Op>): (i: nat)
    ensures i <= |ops| && (i < |ops| ==> Destructive(ops[i]))
    ensures forall k :: 0 <= k < i ==> !Destructive(ops[k])
  {
    if ops == [] || Destructive(ops[0]) then 0 else 1 + FirstDestructive(ops[1..])
  }

  /** The first remove or rename of a burst, or else its last event. */
  function Gist(ops: seq<Op>): Op
    requires ops != []
  {
    var i := FirstDestructive(ops);
    if i < |ops| then ops[i] else ops[|ops| - 1]
  }

  lemma GistOfOneMore(ops: seq<Op>, op: Op)
    ensures Gist(ops + [op]) == if ops != [] && Destructive(Gist(ops)) then Gist(ops) else op
  {
    var more := ops + [op];
    var i, j := FirstDestructive(ops), FirstDestructive(more);
    assert forall k :: 0 <= k < |ops| ==> more[k] == ops[k];
    if i < |ops| {
      assert j == i;
    } else {
      assert j >= |ops|;
      assert ops != [] ==> !Destructive(ops[|ops| - 1]);
    }
  }

  // ---- The invariant ------------------------------------------------------

  /** Live work: timers that will fire and callbacks that have not finished. */
  function Live(s: State): nat {
    |s.armed| + |s.callbacks|
  }

  ghost predicate CountInv(s: State) {
    && s.wg == Live(s) - s.lateResets
    && (forall t :: t in s.armed ==> t < s.nextId)
    && (forall c :: c in s.callbacks ==> c < s.nextId)
    && (forall p :: p in s.timers ==> s.timers[p] < s.nextId)
    && (forall t :: t in s.pathOf ==> t < s.nextId)
  }

  ghost predicate KeysInv(s: State) {
    && (!s.loop.Draining? ==> s.timers.Keys == s.pending.Keys)
    && (s.loop.Waiting? || s.loop.Finished? ==> s.timers == map[])
    && (!s.loop.Looping? ==> s.stopClosed)
  }

  ghost predicate BurstInv(s: State) {
    && (forall p :: p in s.pending ==> p in s.events && s.events[p] != [] && s.pending[p] == Gist(s.events[p]))
    && (forall p :: p in s.events ==> p in s.pending)
    && (forall f :: f in s.firings ==> f.events != [] && f.op == Gist(f.events))
  }

  /** The callback has yet to take its path's pending operation. */
  predicate Untaken(s: State, c: CallbackId) {
    c in s.callbacks && (s.callbacks[c].at.Begun? || s.callbacks[c].at.Checked?)
  }

  /** With no late reset, every armed timer can be found by the drain, and a path with
      an untaken callback has no armed timer. */
  ghost predicate ArmedInv(s: State) {
    && (forall t :: t in s.armed ==> t in s.pathOf && s.pathOf[t] in s.timers && s.timers[s.pathOf[t]] == t)
    && (forall p :: p in s.timers ==> s.timers[p] in s.pathOf && s.pathOf[s.timers[p]] == p)
    && (forall c :: Untaken(s, c) && s.callbacks[c].path in s.timers ==> s.timers[s.callbacks[c].path] !in s.armed)
    && (forall c :: Untaken(s, c) && s.loop.Looping? ==> s.callbacks[c].path in s.timers)
    && (forall c, d :: Untaken(s, c) && Untaken(s, d) && c != d ==> s.callbacks[c].path != s.callbacks[d].path)
    && (s.loop.Finished? ==> s.armed == {} && s.callbacks == map[])
  }

  /** Some firing of `p` carries an operation that does, or does not, delete. */
  ghost predicate Fired(firings: seq<Firing>, p: Path, deletes: bool) {
    exists f :: f in firings && f.path == p && (Destructive(f.op) <==> deletes)
  }

  /** What callbacks work on, and what they write, comes from firings. */
  ghost predicate WriteInv(s: State) {
    && (forall c :: c in s.callbacks && s.callbacks[c].at.Working? ==>
         Fired(s.firings, s.callbacks[c].path, Destructive(s.callbacks[c].at.op)))
    && (forall w :: w in s.writes ==> Fired(s.firings, w.path, w.DeleteDoc?))
  }

  ghost predicate Inv(s: State) {
    CountInv(s) && KeysInv(s) && BurstInv(s) && WriteInv(s) && (s.lateResets == 0 ==> ArmedInv(s))
  }

  lemma EventCounts(s: State, p: Path, op: Op, s': State)
    requires CountInv(s) && Do(s, Event(p, op)) == Some(s')
    ensures CountInv(s')
  {
    ArmedCounts(s, s', if p in s.timers then s.timers[p] else s.nextId);
  }

  lemma ArmedCounts(s: State, s': State, t: Timer)
    requires CountInv(s) && s'.armed == s.armed + {t} && s'.callbacks == s.callbacks
    requires t < s'.nextId && s.nextId <= s'.nextId
    requires forall p :: p in s'.timers ==> s'.timers[p] < s'.nextId
    requires forall u :: u in s'.pathOf ==> u < s'.nextId
    requires s'.wg + s'.lateResets == s.wg + s.lateResets + if t in s.armed then 0 else 1
    ensures CountInv(s')
  {
    OneMoreTimer(s.armed, t);
  }

  lemma OneMoreTimer(armed: set<Timer>, t: Timer)
    ensures |armed + {t}| == |armed| + if t in armed then 0 else 1
  {
    if t in armed {
      assert armed + {t} == armed;
    }
  }

  lemma FireCounts(s: State, t: Timer, s': State)
    requires CountInv(s) && Do(s, Fire(t)) == Some(s')
    ensures CountInv(s')
  {
    assert s.nextId !in s.callbacks;
    assert |s'.callbacks| == |s.callbacks| + 1;
    assert |s'.armed| == |s.armed| - 1;
  }

  lemma DrainCounts(s: State, p: Path, s': State)
    requires CountInv(s) && Do(s, DrainOne(p)) == Some(s')
    ensures CountInv(s')
  {
    OneTimerLess(s.armed, s.timers[p]);
    assert s'.callbacks == s.callbacks && s'.pathOf == s.pathOf && s'.nextId == s.nextId;
  }

  lemma OneTimerLess(armed: set<Timer>, t: Timer)
    ensures |armed - {t}| == |armed| - if t in armed then 1 else 0
  {
    if t !in armed {
      assert armed - {t} == armed;
    }
  }

  predicate OfCallback(step: Step) {
    step.CheckStop? || step.TakeOp? || step.StartWrite? || step.EndWrite?
  }

  /** Steps of a callback either keep it or finish it. */
  lemma CallbackStays(s: State, cb: CallbackId, step: Step, s': State)
    requires cb in s.callbacks && Do(s, step) == Some(s')
    requires OfCallback(step) && step.cb == cb
    ensures s'.armed == s.armed && s'.nextId == s.nextId && s'.pathOf == s.pathOf && s'.lateResets == s.lateResets
    ensures forall p :: p in s'.timers ==> p in s.timers && s'.timers[p] == s.timers[p]
    ensures (s'.wg == s.wg && s'.callbacks.Keys == s.callbacks.Keys)
         || (s'.wg == s.wg - 1 && s'.callbacks == s.callbacks - {cb})
  {
    if s'.wg == s.wg {
      assert s'.callbacks.Keys == s.callbacks.Keys + {cb};
    }
  }

  lemma CallbackCounts(s: State, cb: CallbackId, step: Step, s': State)
    requires CountInv(s) && cb in s.callbacks && Do(s, step) == Some(s')
    requires OfCallback(step) && step.cb == cb
    ensures CountInv(s')
  {
    CallbackStays(s, cb, step, s');
    if s'.wg == s.wg {
      SameSize(s.callbacks, s'.callbacks);
    } else {
      OneLess(s.callbacks, cb);
    }
  }

  lemma SameSize(m: map<CallbackId, Callback>, n: map<CallbackId, Callback>)
    requires m.Keys == n.Keys
    ensures |m| == |n|
  {
    assert |m| == |m.Keys| && |n| == |n.Keys|;
  }

  lemma OneLess(m: map<CallbackId, Callback>, k: CallbackId)
    requires k in m
    ensures |m - {k}| == |m| - 1
  {
    assert (m - {k}).Keys == m.Keys - {k};
    assert |(m - {k}).Keys| == |m - {k}| && |m.Keys| == |m|;
  }

  lemma LoopCounts(s: State, step: Step, s': State)
    requires CountInv(s) && Do(s, step) == Some(s')
    requires step.CloseStop? || step.LeaveLoop? || step.DrainEnd? || step.CloseDone?
    ensures CountInv(s')
  {
    assert s'.armed == s.armed && s'.callbacks == s.callbacks && s'.timers == s.timers;
  }

  lemma CountKept(s: State, step: Step, s': State)
    requires CountInv(s) && Do(s, step) == Some(s')
    ensures CountInv(s')
  {
    if step.Event? {
      EventCounts(s, step.path, step.op, s');
    } else if step.Fire? {
      FireCounts(s, step.timer, s');
    } else if OfCallback(step) {
      CallbackCounts(s, step.cb, step, s');
    } else if step.DrainOne? {
      DrainCounts(s, step.path, s');
    } else {
      LoopCounts(s, step, s');
    }
  }

  lemma KeysKept(s: State, step: Step, s': State)
    requires KeysInv(s) && Do(s, step) == Some(s')
    ensures KeysInv(s')
  {
  }

  lemma BurstKept(s: State, step: Step, s': State)
    requires BurstInv(s) && Do(s, step) == Some(s')
    ensures BurstInv(s')
  {
    if step.Event? {
      EventBurst(s, step.path, step.op, s');
    } else if step.TakeOp? {
      TakeOpBurst(s, step.cb, s');
    } else {
      assert s'.firings == s.firings;
    }
  }

  lemma TakeOpBurst(s: State, cb: CallbackId, s': State)
    requires BurstInv(s) && Do(s, TakeOp(cb)) == Some(s')
    ensures BurstInv(s')
  {
    BurstTaken(s, s.callbacks[cb].path, s');
  }

  lemma BurstTaken(s: State, p: Path, s': State)
    requires BurstInv(s) && s'.pending == s.pending - {p} && s'.events == s.events - {p}
    requires s'.firings ==
      if p in s.pending then s.firings + [Firing(p, s.pending[p], EventsOf(s, p))] else s.firings
    ensures BurstInv(s')
  {
  }

  lemma EventBurst(s: State, p: Path, op: Op, s': State)
    requires BurstInv(s) && Do(s, Event(p, op)) == Some(s')
    ensures BurstInv(s')
  {
    var before := EventsOf(s, p);
    GistOfOneMore(before, op);
    assert p in s.pending ==> before != [] && s.pending[p] == Gist(before);
    assert s'.events == s.events[p := before + [op]] && s'.pending == s.pending[p := Merged(s, p, op)];
  }

  lemma EventArms(s: State, p: Path, op: Op, s': State)
    requires CountInv(s) && ArmedInv(s) && Do(s, Event(p, op)) == Some(s') && s'.lateResets == s.lateResets
    ensures ArmedInv(s')
  {
    if p in s.timers {
      assert s'.armed == s.armed;
      SameArms(s, s');
    } else {
      NewTimerArms(s, p, s');
    }
  }

  lemma SameArms(s: State, s': State)
    requires ArmedInv(s) && s'.callbacks == s.callbacks && s'.loop == s.loop
    requires s'.armed == s.armed && s'.timers == s.timers && s'.pathOf == s.pathOf
    ensures ArmedInv(s')
  {
    assert forall c :: Untaken(s', c) <==> Untaken(s, c);
  }

  lemma NewTimerArms(s: State, p: Path, s': State)
    requires CountInv(s) && ArmedInv(s) && p !in s.timers && s.loop.Looping?
    requires s'.callbacks == s.callbacks && s'.loop == s.loop
    requires s'.armed == s.armed + {s.nextId} && s'.timers == s.timers[p := s.nextId] && s'.pathOf == s.pathOf[s.nextId := p]
    ensures ArmedInv(s')
  {
    assert forall c :: Untaken(s', c) <==> Untaken(s, c);
    assert s.nextId !in s.armed && s.nextId !in s.pathOf;
  }

  lemma FireArms(s: State, t: Timer, s': State)
    requires CountInv(s) && ArmedInv(s) && KeysInv(s) && Do(s, Fire(t)) == Some(s')
    ensures ArmedInv(s')
  {
    assert forall c :: Untaken(s', c) <==> Untaken(s, c) || c == s.nextId;
  }

  lemma CallbackArms(s: State, cb: CallbackId, step: Step, s': State)
    requires ArmedInv(s) && KeysInv(s) && Do(s, step) == Some(s')
    requires OfCallback(step) && step.cb == cb
    ensures ArmedInv(s')
  {
    assert forall c :: Untaken(s', c) ==> Untaken(s, c) && s'.callbacks[c].path == s.callbacks[c].path;
    if step.TakeOp? {
      TakeOpArms(s, cb, s');
    }
  }

  lemma TakeOpArms(s: State, cb: CallbackId, s': State)
    requires ArmedInv(s) && KeysInv(s) && Do(s, TakeOp(cb)) == Some(s')
    ensures ArmedInv(s')
  {
    assert forall c :: Untaken(s', c) ==> Untaken(s, c) && s'.callbacks[c].path == s.callbacks[c].path;
    assert Untaken(s, cb);
    assert forall c :: Untaken(s', c) ==> c != cb;
  }

  lemma LoopArms(s: State, step: Step, s': State)
    requires CountInv(s) && ArmedInv(s) && KeysInv(s) && Do(s, step) == Some(s') && s.lateResets == 0
    requires step.CloseStop? || step.LeaveLoop? || step.DrainOne? || step.DrainEnd? || step.CloseDone?
    ensures ArmedInv(s')
  {
    assert forall c :: Untaken(s', c) <==> Untaken(s, c);
    if step.CloseDone? {
      assert s.armed == {} && s.callbacks.Keys == {};
    }
  }

  lemma StepKeeps(s: State, step: Step, s': State)
    requires Inv(s) && Do(s, step) == Some(s')
    ensures Inv(s')
  {
    CountKept(s, step, s');
    KeysKept(s, step, s');
    BurstKept(s, step, s');
    WriteKept(s, step, s');
    LateOnlyGrows(s, step, s');
    if s'.lateResets == 0 {
      if step.Event? {
        EventArms(s, step.path, step.op, s');
      } else if step.Fire? {
        FireArms(s, step.timer, s');
      } else if OfCallback(step) {
        CallbackArms(s, step.cb, step, s');
      } else {
        LoopArms(s, step, s');
      }
    }
  }

  lemma MoreFired(firings: seq<Firing>, f: Firing)
    ensures forall p, d :: Fired(firings, p, d) ==> Fired(firings + [f], p, d)
    ensures Fired(firings + [f], f.path, Destructive(f.op))
  {
    assert f in firings + [f];
    forall p, d | Fired(firings, p, d)
      ensures Fired(firings + [f], p, d)
    {
      var g :| g in firings && g.path == p && (Destructive(g.op) <==> d);
      assert g in firings + [f];
    }
  }

  lemma WriteKept(s: State, step: Step, s': State)
    requires WriteInv(s) && Do(s, step) == Some(s')
    ensures WriteInv(s')
  {
    if step.TakeOp? {
      var p := s.callbacks[step.cb].path;
      if p in s.pending {
        MoreFired(s.firings, Firing(p, s.pending[p], EventsOf(s, p)));
      }
    }
  }

  lemma LateOnlyGrows(s: State, step: Step, s': State)
    requires Do(s, step) == Some(s')
    ensures s.lateResets <= s'.lateResets
  {
  }

  lemma InitHolds(s: State)
    requires Init(s)
    ensures Inv(s)
  {
    assert forall c :: !Untaken(s, c);
  }

  lemma StartHolds(states: seq<State>, steps: seq<Step>)
    requires IsRun(states, steps)
    ensures Linked(states, steps) && Inv(states[0])
  {
    InitHolds(states[0]);
  }

  lemma StepAtKeeps(states: seq<State>, steps: seq<Step>, i: nat, s: State, s': State)
    requires Linked(states, steps) && i < |steps| && s == states[i] && s' == states[i + 1] && Inv(s)
    ensures Inv(s')
  {
    assert StepAt(states, steps, i);
    StepKeeps(s, steps[i], s');
  }

  lemma {:induction false} InvStays(states: seq<State>, steps: seq<Step>, i: nat)
    requires Linked(states, steps) && Inv(states[0]) && i <= |steps|
    ensures Inv(states[i])
  {
    if i > 0 {
      InvStays(states, steps, i - 1);
      StepAtKeeps(states, steps, i - 1, states[i - 1], states[i]);
    }
  }

  lemma InvAlways(states: seq<State>, steps: seq<Step>, i: nat)
    requires IsRun(states, steps) && i <= |steps|
    ensures Inv(states[i])
  {
    StartHolds(states, steps);
    InvStays(states, steps, i);
  }

  // ---- Results ------------------------------------------------------------

  /** In every reachable state the counter is the number of armed timers and unfinished
      callbacks, less the resets that hit a timer after it had fired.  So the counter is
      exact if and only if there was no such reset. */
  lemma WaitGroupCountsLiveWork(states: seq<State>, steps: seq<Step>, i: nat)
    requires IsRun(states, steps) && i <= |steps|
    ensures states[i].wg == Live(states[i]) - states[i].lateResets
    ensures states[i].wg == Live(states[i]) <==> states[i].lateResets == 0
  {
    InvAlways(states, steps, i);
  }

  /** Whenever the mutex is free, `timers` and `pending` have the same paths. */
  lemma TimersMatchPending(states: seq<State>, steps: seq<Step>, i: nat)
    requires IsRun(states, steps) && i <= |steps|
    ensures !states[i].loop.Draining? ==> states[i].timers.Keys == states[i].pending.Keys
  {
    InvAlways(states, steps, i);
  }

  /** Each firing carries out the first remove or rename since the path's last firing,
      or else the latest event; it deletes exactly if one of them was a remove or rename. */
  lemma FiringsCarryTheGist(states: seq<State>, steps: seq<Step>, i: nat, f: Firing)
    requires IsRun(states, steps) && i <= |steps| && f in states[i].firings
    ensures f.events != [] && f.op == Gist(f.events)
    ensures Destructive(f.op) <==> exists op :: op in f.events && Destructive(op)
  {
    InvAlways(states, steps, i);
    var k := FirstDestructive(f.events);
    if k < |f.events| {
      assert f.events[k] in f.events;
    }
  }

  /** The index is written only for a burst of events on the path, and a document is
      deleted exactly if the burst held a remove or rename. */
  lemma WritesFollowEvents(states: seq<State>, steps: seq<Step>, i: nat, w: IndexWrite)
    requires IsRun(states, steps) && i <= |steps| && w in states[i].writes
    ensures exists f ::
      && f in states[i].firings && f.path == w.path && f.events != []
      && (w.DeleteDoc? <==> exists op :: op in f.events && Destructive(op))
  {
    InvAlways(states, steps, i);
    var f :| f in states[i].firings && f.path == w.path && (Destructive(f.op) <==> w.DeleteDoc?);
    FiringsCarryTheGist(states, steps, i, f);
  }

  // ---- Nothing is lost, and nothing starts after the stop signal ------------

  /** A timer of the path is armed, or a callback of the path has yet to take its operation. */
  ghost predicate Served(s: State, p: Path) {
    || (p in s.timers && s.timers[p] in s.armed)
    || exists c :: Untaken(s, c) && s.callbacks[c].path == p
  }

  ghost predicate ServedInv(s: State) {
    && (forall p :: p in s.timers ==> s.timers[p] in s.pathOf && s.pathOf[s.timers[p]] == p)
    && (!s.stopClosed ==> forall p :: p in s.timers ==> Served(s, p))
  }

  lemma ServedStays(s: State, s': State, q: Path)
    requires Served(s, q) && s'.callbacks == s.callbacks && s.armed <= s'.armed
    requires q in s.timers && q in s'.timers && s'.timers[q] == s.timers[q]
    ensures Served(s', q)
  {
    if s.timers[q] !in s.armed {
      var c :| Untaken(s, c) && s.callbacks[c].path == q;
      assert Untaken(s', c);
    }
  }

  lemma EventServes(s: State, p: Path, op: Op, s': State)
    requires CountInv(s) && ServedInv(s) && Do(s, Event(p, op)) == Some(s')
    ensures ServedInv(s')
  {
    forall q | q in s'.timers && !s'.stopClosed
      ensures Served(s', q)
    {
      if q != p {
        ServedStays(s, s', q);
      }
    }
  }

  lemma FireServes(s: State, t: Timer, s': State)
    requires CountInv(s) && ServedInv(s) && Do(s, Fire(t)) == Some(s')
    ensures ServedInv(s')
  {
    forall q | q in s'.timers && !s'.stopClosed
      ensures Served(s', q)
    {
      assert Served(s, q);
      if s.timers[q] == t {
        assert Untaken(s', s.nextId) && s'.callbacks[s.nextId].path == q;
      } else {
        FiringKeeps(s, t, s', q);
      }
    }
  }

  lemma FiringKeeps(s: State, t: Timer, s': State, q: Path)
    requires CountInv(s) && Served(s, q) && q in s.timers && s.timers[q] != t && Do(s, Fire(t)) == Some(s')
    ensures Served(s', q)
  {
    if s.timers[q] !in s.armed {
      var c :| Untaken(s, c) && s.callbacks[c].path == q;
      assert Untaken(s', c);
    }
  }

  lemma CallbackServes(s: State, step: Step, s': State)
    requires ServedInv(s) && OfCallback(step) && Do(s, step) == Some(s')
    ensures ServedInv(s')
  {
    forall q | q in s'.timers && !s'.stopClosed
      ensures Served(s', q)
    {
      assert Served(s, q);
      if s.timers[q] !in s.armed {
        var c :| Untaken(s, c) && s.callbacks[c].path == q;
        assert Untaken(s', c);
      }
    }
  }

  lemma LoopServes(s: State, step: Step, s': State)
    requires KeysInv(s) && ServedInv(s) && Do(s, step) == Some(s')
    requires step.CloseStop? || step.LeaveLoop? || step.DrainOne? || step.DrainEnd? || step.CloseDone?
    ensures ServedInv(s')
  {
  }

  lemma StepServes(s: State, step: Step, s': State)
    requires CountInv(s) && KeysInv(s) && ServedInv(s) && Do(s, step) == Some(s')
    ensures ServedInv(s')
  {
    if step.Event? {
      EventServes(s, step.path, step.op, s');
    } else if step.Fire? {
      FireServes(s, step.timer, s');
    } else if OfCallback(step) {
      CallbackServes(s, step, s');
    } else {
      LoopServes(s, step, s');
    }
  }

  lemma StepAtServes(states: seq<State>, steps: seq<Step>, i: nat)
    requires IsRun(states, steps) && i < |steps| && ServedInv(states[i])
    ensures ServedInv(states[i + 1])
  {
    InvAlways(states, steps, i);
    assert StepAt(states, steps, i);
    StepServes(states[i], steps[i], states[i + 1]);
  }

  lemma {:induction false} AlwaysServed(states: seq<State>, steps: seq<Step>, i: nat)
    requires IsRun(states, steps) && i <= |steps|
    ensures ServedInv(states[i])
  {
    if i > 0 {
      AlwaysServed(states, steps, i - 1);
      StepAtServes(states, steps, i - 1);
    }
  }

  /** No event is lost while the indexer runs: until the stop signal, a path with a pending
      operation has an armed timer, or a callback that has yet to take the operation. */
  lemma NoEventIsLost(states: seq<State>, steps: seq<Step>, i: nat, p: Path)
    requires IsRun(states, steps) && i <= |steps| && !states[i].stopClosed && p in states[i].pending
    ensures (exists t :: t in states[i].armed && t in states[i].pathOf && states[i].pathOf[t] == p)
         || (exists c :: Untaken(states[i], c) && states[i].callbacks[c].path == p)
  {
    InvAlways(states, steps, i);
    AlwaysServed(states, steps, i);
    assert p in states[i].timers;
    assert Served(states[i], p);
  }

  /** The callback has looked at the stop signal and gone on. */
  predicate PastCheck(s: State, c: CallbackId) {
    c in s.callbacks && !s.callbacks[c].at.Begun?
  }

  lemma StoppedStep(s: State, step: Step, s': State, c: CallbackId)
    requires CountInv(s) && s.stopClosed && !PastCheck(s, c) && Do(s, step) == Some(s')
    ensures s'.stopClosed && !PastCheck(s', c)
    ensures step != TakeOp(c) && step != StartWrite(c) && step != EndWrite(c)
  {
  }

  lemma StoppedAt(states: seq<State>, steps: seq<Step>, k: nat, c: CallbackId)
    requires IsRun(states, steps) && k < |steps| && states[k].stopClosed && !PastCheck(states[k], c)
    ensures states[k + 1].stopClosed && !PastCheck(states[k + 1], c)
    ensures steps[k] != TakeOp(c) && steps[k] != StartWrite(c) && steps[k] != EndWrite(c)
  {
    InvAlways(states, steps, k);
    assert StepAt(states, steps, k);
    StoppedStep(states[k], steps[k], states[k + 1], c);
  }

  lemma {:induction false} StaysUnchecked(states: seq<State>, steps: seq<Step>, i: nat, k: nat, c: CallbackId)
    requires IsRun(states, steps) && i <= k <= |steps| && states[i].stopClosed && !PastCheck(states[i], c)
    ensures states[k].stopClosed && !PastCheck(states[k], c)
  {
    if i < k {
      StaysUnchecked(states, steps, i, k - 1, c);
      StoppedAt(states, steps, k - 1, c);
    }
  }

  /** After the stop signal no callback gets past its check any more, so one that had not
      done so by then takes no operation and writes nothing. */
  lemma NoneStartsAfterStop(states: seq<State>, steps: seq<Step>, i: nat, k: nat, c: CallbackId)
    requires IsRun(states, steps) && i <= k < |steps| && states[i].stopClosed && !PastCheck(states[i], c)
    ensures steps[k] != TakeOp(c) && steps[k] != StartWrite(c) && steps[k] != EndWrite(c)
  {
    StaysUnchecked(states, steps, i, k, c);
    StoppedAt(states, steps, k, c);
  }

  lemma DrainingStep(s: State, step: Step, s': State)
    requires s.loop.Draining? && Do(s, step) == Some(s')
    ensures s'.firings == s.firings
  {
  }

  /** While the loop drains its timers, which it does under the mutex, the stop signal is
      set and no operation is taken. */
  lemma NoneTakesWhileDraining(states: seq<State>, steps: seq<Step>, i: nat)
    requires IsRun(states, steps) && i < |steps| && states[i].loop.Draining?
    ensures states[i].stopClosed && states[i + 1].firings == states[i].firings
  {
    InvAlways(states, steps, i);
    assert StepAt(states, steps, i);
    DrainingStep(states[i], steps[i], states[i + 1]);
  }

  predicate CanStep(s: State, step: Step) {
    Do(s, step).Some?
  }

  ghost predicate HavePaths(s: State) {
    forall t :: t in s.armed ==> t in s.pathOf
  }

  lemma EventHasPath(s: State, p: Path, op: Op, s': State)
    requires ServedInv(s) && HavePaths(s) && Do(s, Event(p, op)) == Some(s')
    ensures HavePaths(s')
  {
    assert forall t :: t in s.pathOf ==> t in s'.pathOf;
  }

  lemma StepHasPaths(s: State, step: Step, s': State)
    requires ServedInv(s) && HavePaths(s) && Do(s, step) == Some(s')
    ensures HavePaths(s')
  {
    if step.Event? {
      EventHasPath(s, step.path, step.op, s');
    } else {
      assert s'.armed <= s.armed && s'.pathOf == s.pathOf;
    }
  }

  lemma {:induction false} AlwaysHavePaths(states: seq<State>, steps: seq<Step>, i: nat)
    requires IsRun(states, steps) && i <= |steps|
    ensures HavePaths(states[i])
  {
    if i > 0 {
      AlwaysHavePaths(states, steps, i - 1);
      AlwaysServed(states, steps, i - 1);
      assert StepAt(states, steps, i - 1);
      StepHasPaths(states[i - 1], steps[i - 1], states[i]);
    }
  }

  /** The step a callback takes next. */
  function NextOf(s: State, c: CallbackId): Step
    requires c in s.callbacks
  {
    match s.callbacks[c].at
    case Begun => CheckStop(c)
    case Checked => TakeOp(c)
    case Working(_) => StartWrite(c)
    case Writing => EndWrite(c)
  }

  /** Nothing blocks but the mutex and the WaitGroup: armed timers can fire, callbacks can go
      on unless one needs the mutex while the loop drains, the loop takes every event until
      it leaves, it can leave and drain, and then is done as soon as the counter is zero. */
  lemma NothingIsStuck(states: seq<State>, steps: seq<Step>, i: nat)
    requires IsRun(states, steps) && i <= |steps|
    ensures var s := states[i];
      && (forall t :: t in s.armed ==> CanStep(s, Fire(t)))
      && (forall c :: c in s.callbacks ==> (CanStep(s, NextOf(s, c)) <==> !(s.callbacks[c].at.Checked? && s.loop.Draining?)))
      && (s.loop.Looping? ==> CanStep(s, LeaveLoop) && forall p, op :: CanStep(s, Event(p, op)))
      && (s.loop.Draining? ==> CanStep(s, DrainEnd) || exists p :: CanStep(s, DrainOne(p)))
      && (s.loop.Waiting? ==> (CanStep(s, CloseDone) <==> s.wg == 0))
  {
    AlwaysHavePaths(states, steps, i);
    var s := states[i];
    if s.loop.Draining? && s.timers != map[] {
      var p :| p in s.timers;
      assert CanStep(s, DrainOne(p));
    }
  }

  // ---- After the loop is done ---------------------------------------------

  /** The callback has taken an operation that it has yet to carry out. */
  predicate AtWork(s: State, c: CallbackId) {
    c in s.callbacks && s.callbacks[c].at.Working?
  }

  /** When the loop is done, which is when Stop returns, no timer and no callback is left
      if and only if no timer was reset after firing. */
  lemma NothingLeftIff(states: seq<State>, steps: seq<Step>, i: nat)
    requires IsRun(states, steps) && i < |steps| && steps[i].CloseDone?
    ensures states[i + 1].loop.Finished?
    ensures states[i + 1].armed == {} && states[i + 1].callbacks == map[] <==> states[i + 1].lateResets == 0
  {
    WaitGroupCountsLiveWork(states, steps, i + 1);
    assert StepAt(states, steps, i);
    NothingLive(states[i + 1]);
  }

  lemma NothingLive(s: State)
    ensures Live(s) == 0 <==> s.armed == {} && s.callbacks == map[]
  {
    assert |s.callbacks| == |s.callbacks.Keys|;
  }

  lemma QuietStep(s: State, step: Step, s': State)
    requires KeysInv(s) && s.loop.Finished? && (forall c :: !AtWork(s, c)) && Do(s, step) == Some(s')
    ensures s'.loop.Finished? && s'.writes == s.writes && (forall c :: !AtWork(s', c))
  {
    assert s.pending.Keys == {};
    if OfCallback(step) {
      assert !AtWork(s, step.cb);
    }
    assert forall c :: AtWork(s', c) ==> AtWork(s, c);
  }

  lemma {:induction false} QuietRun(states: seq<State>, steps: seq<Step>, k: nat)
    requires Linked(states, steps) && k <= |steps|
    requires KeysInv(states[0]) && states[0].loop.Finished? && forall c :: !AtWork(states[0], c)
    ensures KeysInv(states[k]) && states[k].loop.Finished? && forall c :: !AtWork(states[k], c)
    ensures states[k].writes == states[0].writes
  {
    if k > 0 {
      QuietRun(states, steps, k - 1);
      assert StepAt(states, steps, k - 1);
      QuietStep(states[k - 1], steps[k - 1], states[k]);
      KeysKept(states[k - 1], steps[k - 1], states[k]);
    }
  }

  /** Some continuation from `s` starts an index write. */
  ghost predicate CanStillWrite(s: State) {
    exists states: seq<State>, steps: seq<Step> :: Linked(states, steps) && states[0] == s && states[|steps|].writes != s.writes
  }

  /** Once the loop is done, a write can still start if and only if some callback has taken
      an operation by then. */
  lemma WritesAfterDoneIff(states: seq<State>, steps: seq<Step>, i: nat)
    requires IsRun(states, steps) && i <= |steps| && states[i].loop.Finished?
    ensures CanStillWrite(states[i]) <==> exists c :: AtWork(states[i], c)
  {
    InvAlways(states, steps, i);
    var s := states[i];
    if c :| AtWork(s, c) {
      var s' := Do(s, StartWrite(c)).value;
      assert StepAt([s, s'], [StartWrite(c)], 0);
      assert Linked([s, s'], [StartWrite(c)]) && |s'.writes| == |s.writes| + 1;
    } else {
      forall more: seq<State>, later: seq<Step> | Linked(more, later) && more[0] == s
        ensures more[|later|].writes == s.writes
      {
        QuietRun(more, later, |later|);
      }
    }
  }

  /** So without a late reset no write is under way once the loop is done, and none starts
      after that. */
  lemma NoWriteAfterDone(states: seq<State>, steps: seq<Step>, i: nat, k: nat)
    requires IsRun(states, steps) && i <= k <= |steps| && states[i].loop.Finished?
    ensures states[k].loop.Finished?
    ensures (forall c :: !AtWork(states[i], c)) ==> states[k].writes == states[i].writes
    ensures states[i].lateResets == 0 ==>
      states[i].callbacks == map[] == states[k].callbacks && states[k].writes == states[i].writes
  {
    FinishedStays(states, steps, i, k);
    NoneLeft(states, steps, i);
    NoneLeft(states, steps, k);
    if forall c :: !AtWork(states[i], c) {
      NoneAtWork(states, steps, i, k);
    }
  }

  lemma NoneLeft(states: seq<State>, steps: seq<Step>, i: nat)
    requires IsRun(states, steps) && i <= |steps| && states[i].loop.Finished?
    ensures states[i].lateResets == 0 ==> states[i].callbacks == map[]
  {
    InvAlways(states, steps, i);
  }

  lemma NoneAtWork(states: seq<State>, steps: seq<Step>, i: nat, k: nat)
    requires IsRun(states, steps) && i <= k <= |steps| && states[i].loop.Finished?
    requires forall c :: !AtWork(states[i], c)
    ensures states[k].writes == states[i].writes
  {
    InvAlways(states, steps, i);
    Later(states, steps, i);
    QuietRun(states[i..], steps[i..], k - i);
  }

  lemma Later(states: seq<State>, steps: seq<Step>, i: nat)
    requires Linked(states, steps) && i <= |steps|
    ensures Linked(states[i..], steps[i..])
  {
    forall k | 0 <= k < |steps[i..]|
      ensures StepAt(states[i..], steps[i..], k)
    {
      assert StepAt(states, steps, i + k);
    }
  }

  lemma FinishedIsFinal(s: State, step: Step, s': State)
    requires s.loop.Finished? && Do(s, step) == Some(s')
    ensures s'.loop.Finished? && s'.lateResets == s.lateResets
  {
  }

  lemma {:induction false} FinishedStays(states: seq<State>, steps: seq<Step>, i: nat, k: nat)
    requires IsRun(states, steps) && i <= k <= |steps| && states[i].loop.Finished?
    ensures states[k].loop.Finished? && states[k].lateResets == states[i].lateResets
  {
    if i < k {
      FinishedStays(states, steps, i, k - 1);
      assert StepAt(states, steps, k - 1);
      FinishedIsFinal(states[k - 1], steps[k - 1], states[k]);
    }
  }

  /** The run so far, taken one step further. */
  lemma Longer(states: seq<State>, steps: seq<Step>, step: Step) returns (t: seq<State>, u: seq<Step>, s': State)
    requires IsRun(states, steps) && Do(states[|steps|], step).Some?
    ensures Some(s') == Do(states[|steps|], step)
    ensures IsRun(t, u) && t == states + [s'] && u == steps + [step] && t[|u|] == s'
    ensures Counted(states) && s'.wg >= 0 ==> Counted(t)
  {
    s' := Do(states[|steps|], step).value;
    t, u := states + [s'], steps + [step];
    forall i | 0 <= i < |u|
      ensures StepAt(t, u, i)
    {
      assert i < |steps| ==> StepAt(states, steps, i);
    }
  }

  /** The counter has not been below zero, so the process is still alive. */
  ghost predicate Counted(states: seq<State>) {
    forall i :: 0 <= i < |states| ==> states[i].wg >= 0
  }

  /** An event that arrives while the path's callback is already running resets a fired
      timer; the callback then runs twice for one Add, and the counter goes negative. */
  lemma LateResetUnderflows(s0: State, p: Path, op: Op)
    requires Init(s0)
    ensures exists states: seq<State>, steps: seq<Step> :: IsRun(states, steps) && states[|steps|].wg == -1
  {
    var t, u, s := ResetWhileRunning(s0, p, op);
    t, u, s := Longer(t, u, CloseStop);
    assert s.callbacks == map[1 := Callback(p, Begun)];
    t, u, s := Longer(t, u, CheckStop(1));
    t, u, s := Longer(t, u, Fire(0));
    t, u, s := Longer(t, u, CheckStop(2));
    assert t[|u|].wg == -1;
  }

  lemma ResetWhileRunning(s0: State, p: Path, op: Op) returns (t: seq<State>, u: seq<Step>, s: State)
    requires Init(s0)
    ensures IsRun(t, u) && t[|u|] == s && Counted(t)
    ensures s.loop.Looping? && !s.stopClosed && s.pending == map[p := op] && s.timers == map[p := 0]
    ensures s.armed == {0} && s.pathOf == map[0 := p] && s.callbacks == map[1 := Callback(p, Begun)]
    ensures s.nextId == 2 && s.wg == 1
  {
    t, u, s := Longer([s0], [], Event(p, op));
    t, u, s := Longer(t, u, Fire(0));
    t, u, s := Longer(t, u, Event(p, op));
  }

  lemma FiresTwice(s0: State, p: Path, op: Op) returns (t: seq<State>, u: seq<Step>, s: State)
    requires Init(s0)
    ensures IsRun(t, u) && t[|u|] == s && Counted(t)
    ensures s.loop.Looping? && !s.stopClosed && s.pending == map[] && s.timers == map[] && s.armed == {}
    ensures s.callbacks == map[1 := Callback(p, Working(op)), 2 := Callback(p, Begun)]
    ensures s.nextId == 3 && s.wg == 1
  {
    t, u, s := ResetWhileRunning(s0, p, op);
    t, u, s := Longer(t, u, CheckStop(1));
    t, u, s := Longer(t, u, TakeOp(1));
    assert s.pending == map[] && s.timers == map[];
    t, u, s := Longer(t, u, Fire(0));
  }

  /** Its second callback finds an operation of its own when a new event comes first. */
  lemma TwoAtWork(s0: State, p: Path, op: Op) returns (t: seq<State>, u: seq<Step>, s: State)
    requires Init(s0)
    ensures IsRun(t, u) && t[|u|] == s && Counted(t)
    ensures s.loop.Looping? && !s.stopClosed && s.pending == map[] && s.timers == map[]
    ensures s.armed == {3} && 3 in s.pathOf && s.pathOf[3] == p
    ensures s.callbacks == map[1 := Callback(p, Working(op)), 2 := Callback(p, Working(op))]
    ensures s.nextId == 4 && s.wg == 2
  {
    t, u, s := FiresTwice(s0, p, op);
    t, u, s := Longer(t, u, CheckStop(2));
    t, u, s := Longer(t, u, Event(p, op));
    t, u, s := Longer(t, u, TakeOp(2));
  }

  lemma OneLeftAtWork(s0: State, p: Path, op: Op) returns (t: seq<State>, u: seq<Step>, s: State)
    requires Init(s0)
    ensures IsRun(t, u) && t[|u|] == s && Counted(t)
    ensures s.loop.Looping? && s.timers == map[] && s.wg == 0 && s.callbacks == map[2 := Callback(p, Working(op))]
  {
    t, u, s := TwoAtWork(s0, p, op);
    t, u, s := Longer(t, u, StartWrite(1));
    t, u, s := Longer(t, u, EndWrite(1));
    assert s.callbacks == map[2 := Callback(p, Working(op))];
    t, u, s := Longer(t, u, Fire(3));
    t, u, s := Longer(t, u, CheckStop(4));
    t, u, s := Longer(t, u, TakeOp(4));
    assert s.callbacks == map[2 := Callback(p, Working(op))];
  }

  /** The counter can also come out at zero too early, without ever going below: then Stop
      returns, and the index is written after that. */
  lemma LateResetWritesAfterDone(s0: State, p: Path, op: Op)
    requires Init(s0)
    ensures exists states: seq<State>, steps: seq<Step>, i ::
      && IsRun(states, steps) && Counted(states) && 0 <= i < |steps|
      && states[i].loop.Finished? && |states[|steps|].writes| > |states[i].writes|
  {
    var t, u, s := OneLeftAtWork(s0, p, op);
    t, u, s := Longer(t, u, LeaveLoop);
    t, u, s := Longer(t, u, DrainEnd);
    t, u, s := Longer(t, u, CloseDone);
    var i := |u|;
    t, u, s := Longer(t, u, StartWrite(2));
    assert t[i].loop.Finished? && |t[|u|].writes| > |t[i].writes|;
  }
}
