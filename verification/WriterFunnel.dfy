/** The single-writer funnel (internal/db/writer.go) as a state machine over the steps
    of the writer goroutine, any number of submitters, their contexts, and close.

    A job is one call of submit.  Every select may take any ready case, so a job can be
    enqueued after quit is closed, and a cancelled submitter can still be answered. */
module WriterFunnel {
  import opened Outcomes

  type Job = nat

  type Database = map<string, string>

  /** A job's function run in a transaction: the new contents, or None for an error. */
  type Program = (Job, Database) -> Option<Database>

  const QUEUE_CAPACITY: nat := 128

  /** What the writer sends on a job's response channel. */
  datatype Answer = Done | Failed | ShuttingDown

  /** What submit returns. */
  datatype Reply = Answered(answer: Answer) | Closed | Cancelled

  datatype Submitter = Idle | Waiting | Returned(reply: Reply)

  /** A job's context is tested three times: by exec, when its transaction begins, and when
      its commit begins.  The writer has passed the tests up to the one its state names.
      `contents` are those the job's function left in the transaction. */
  datatype Writer =
    | Selecting | Taken(job: Job) | Checked(job: Job) | Begun(job: Job)
    | Written(job: Job, contents: Database) | Committing(job: Job, contents: Database)
    | Sending(job: Job, answer: Answer) | Draining | Exited

  datatype Closer = NotClosing | Closing | CloseReturned

  /** The channel `jobs`, the writer goroutine and the database. */
  datatype Pipe = Pipe(
    queue: seq<Job>,          // the buffered channel
    writer: Writer,
    db: Database,
    answers: map<Job, Answer>, // what was sent on the response channels
    enqueued: seq<Job>,       // history: jobs in the order they entered the queue
    sent: seq<Job>,           // history: one entry per send on a response channel
    ran: seq<Job>,            // history: one entry per call of a job's function
    committed: seq<Job>       // history: one entry per commit
  )

  datatype State = State(
    pipe: Pipe,
    quit: bool,                      // the channel `quit` is closed
    closer: Closer,
    submitters: map<Job, Submitter>, // a missing job has not been submitted
    cancelled: set<Job>
  )

  function Phase(s: State, j: Job): Submitter {
    if j in s.submitters then s.submitters[j] else Idle
  }

  predicate Init(s: State, db: Database) {
    && s.pipe == Pipe([], Selecting, db, map[], [], [], [], [])
    && !s.quit && s.closer == NotClosing && s.submitters == map[] && s.cancelled == {}
  }

  datatype WriterStep =
    | Take | RefuseCancelled | PassCheck
    | Begin | BeginFails | FunctionFails | FunctionEnds
    | BeginCommit | CommitFails | Commit | Send
    | SeeQuit | DrainOne | DrainEnd

  datatype Step =
    | Enqueue(job: Job) | RejectClosed(job: Job) | RejectCancelled(job: Job)
    | Receive(job: Job) | GiveUp(job: Job) | Cancel(job: Job)
    | Write(step: WriterStep)
    | CloseBegin | CloseEnd

  function Push(p: Pipe, j: Job): Pipe {
    p.(queue := p.queue + [j], enqueued := p.enqueued + [j])
  }

  predicate Executing(w: Writer) {
    w.Taken? || w.Checked? || w.Begun? || w.Written? || w.Committing?
  }

  /** The function has run and its transaction is still open. */
  predicate Uncommitted(w: Writer) {
    w.Written? || w.Committing?
  }

  function Answering(p: Pipe, a: Answer): Pipe
    requires Executing(p.writer)
  {
    p.(writer := Sending(p.writer.job, a))
  }

  /** The writer goroutine's steps, as far as channel, goroutine and database go.  The
      function fails when it says so, or because the engine fails it. */
  function Proceed(fn: Program, p: Pipe, step: WriterStep): Option<Pipe> {
    match step
    // loop
    case Take =>
      if p.writer.Selecting? && p.queue != [] then Some(p.(writer := Taken(p.queue[0]), queue := p.queue[1..])) else None
    case Send =>
      if p.writer.Sending? then
        Some(p.(writer := Selecting, sent := p.sent + [p.writer.job], answers := p.answers[p.writer.job := p.writer.answer]))
      else None
    case SeeQuit => if p.writer.Selecting? then Some(p.(writer := Draining)) else None
    case DrainOne =>
      if p.writer.Draining? && p.queue != [] then
        Some(p.(queue := p.queue[1..], sent := p.sent + [p.queue[0]], answers := p.answers[p.queue[0] := ShuttingDown]))
      else None
    case DrainEnd => if p.writer.Draining? && p.queue == [] then Some(p.(writer := Exited)) else None
    // exec
    case RefuseCancelled => if p.writer.Taken? then Some(Answering(p, Failed)) else None
    case PassCheck => if p.writer.Taken? then Some(p.(writer := Checked(p.writer.job))) else None
    case Begin => if p.writer.Checked? then Some(p.(writer := Begun(p.writer.job))) else None
    case BeginFails => if p.writer.Checked? then Some(Answering(p, Failed)) else None
    case FunctionFails =>
      if p.writer.Begun? then Some(Answering(p, Failed).(ran := p.ran + [p.writer.job])) else None
    case FunctionEnds =>
      if p.writer.Begun? && fn(p.writer.job, p.db).Some? then
        Some(p.(writer := Written(p.writer.job, fn(p.writer.job, p.db).value), ran := p.ran + [p.writer.job]))
      else None
    case BeginCommit =>
      if p.writer.Written? then Some(p.(writer := Committing(p.writer.job, p.writer.contents))) else None
    case CommitFails => if Uncommitted(p.writer) then Some(Answering(p, Failed)) else None
    case Commit =>
      if p.writer.Committing? then
        Some(Answering(p, Done).(db := p.writer.contents, committed := p.committed + [p.writer.job]))
      else None
  }

  /** Steps that a cancelled context forbids. */
  predicate TestsContext(step: WriterStep) {
    step.PassCheck? || step.Begin? || step.BeginCommit?
  }

  /** Whether the contexts and the channel `quit` let the writer take a step. */
  predicate MayWrite(s: State, step: WriterStep) {
    && (step.RefuseCancelled? && Executing(s.pipe.writer) ==> s.pipe.writer.job in s.cancelled)
    && (TestsContext(step) && Executing(s.pipe.writer) ==> s.pipe.writer.job !in s.cancelled)
    && (step.SeeQuit? ==> s.quit)
  }

  function Return(s: State, j: Job, r: Reply): State {
    s.(submitters := s.submitters[j := Returned(r)])
  }

  /** Whether a step can be taken, and the state it leads to. */
  function Do(fn: Program, s: State, step: Step): Option<State> {
    match step
    // submit: first select
    case Enqueue(j) =>
      if Phase(s, j).Idle? && |s.pipe.queue| < QUEUE_CAPACITY then
        Some(s.(pipe := Push(s.pipe, j), submitters := s.submitters[j := Waiting]))
      else None
    case RejectClosed(j) => if Phase(s, j).Idle? && s.quit then Some(Return(s, j, Closed)) else None
    case RejectCancelled(j) =>
      if Phase(s, j).Idle? && j in s.cancelled then Some(Return(s, j, Cancelled)) else None
    // submit: second select
    case Receive(j) =>
      if Phase(s, j).Waiting? && j in s.pipe.answers then Some(Return(s, j, Answered(s.pipe.answers[j]))) else None
    case GiveUp(j) =>
      if Phase(s, j).Waiting? && j in s.cancelled then Some(Return(s, j, Cancelled)) else None
    case Cancel(j) => Some(s.(cancelled := s.cancelled + {j}))
    // the writer
    case Write(w) =>
      var p := Proceed(fn, s.pipe, w);
      if MayWrite(s, w) && p.Some? then Some(s.(pipe := p.value)) else None
    // close
    case CloseBegin => if s.closer.NotClosing? then Some(s.(closer := Closing, quit := true)) else None
    case CloseEnd =>
      if s.closer.Closing? && s.pipe.writer.Exited? then Some(s.(closer := CloseReturned)) else None
  }

  /** Steps taken one after the other, the last one outermost. */
  datatype Steps = Start | Then(before: Steps, last: Step)

  /** The state after some steps, if every one of them can be taken. */
  ghost function Run(fn: Program, s: State, steps: Steps): Option<State> {
    match steps
    case Start => Some(s)
    case Then(before, last) =>
      var t := Run(fn, s, before);
      if t.Some? then Do(fn, t.value, last) else None
  }

  // ---- The invariant ------------------------------------------------------

  /** Jobs answered with nil, in the order of the answers. */
  function Successes(sent: seq<Job>, answers: map<Job, Answer>): seq<Job> {
    if sent == [] then []
    else
      var last := sent[|sent| - 1];
      var before := Successes(sent[..|sent| - 1], answers);
      if last in answers && answers[last].Done? then before + [last] else before
  }

  /** Contents after running the jobs' functions one at a time, each on the last one's result. */
  function Serial(fn: Program, db: Database, jobs: seq<Job>): Option<Database> {
    if jobs == [] then Some(db)
    else
      match Serial(fn, db, jobs[..|jobs| - 1])
      case None => None
      case Some(d) => fn(jobs[|jobs| - 1], d)
  }

  ghost predicate NoRepeats(jobs: seq<Job>) {
    forall p, q :: 0 <= p < q < |jobs| ==> jobs[p] != jobs[q]
  }

  predicate Holding(w: Writer) {
    Executing(w) || w.Sending?
  }

  /** The job the writer is working on. */
  function InHand(w: Writer): seq<Job> {
    if Holding(w) then [w.job] else []
  }

  ghost predicate QueueInv(p: Pipe) {
    && p.enqueued == p.sent + InHand(p.writer) + p.queue
    && NoRepeats(p.enqueued)
    && (forall j :: j in p.answers <==> j in p.sent)
  }

  ghost predicate CommitInv(p: Pipe) {
    var answered := Successes(p.sent, p.answers);
    p.committed == if p.writer.Sending? && p.writer.answer.Done? then answered + [p.writer.job] else answered
  }

  ghost predicate RanInv(p: Pipe) {
    && NoRepeats(p.ran)
    && (forall j :: j in p.ran ==> j in p.sent || ((Uncommitted(p.writer) || p.writer.Sending?) && p.writer.job == j))
    && (forall j :: j in p.answers && p.answers[j].ShuttingDown? ==> j !in p.ran)
    && (p.writer.Sending? ==> !p.writer.answer.ShuttingDown?)
    && (Uncommitted(p.writer) ==> p.writer.job in p.ran)
    && (forall j :: j in p.committed ==> j in p.ran)
  }

  ghost predicate SerialInv(fn: Program, p: Pipe, db: Database) {
    Serial(fn, db, p.committed) == Some(p.db)
  }

  ghost predicate ContentsInv(fn: Program, p: Pipe) {
    Uncommitted(p.writer) ==> fn(p.writer.job, p.db) == Some(p.writer.contents)
  }

  ghost predicate PipeInv(fn: Program, p: Pipe, db: Database) {
    QueueInv(p) && CommitInv(p) && RanInv(p) && SerialInv(fn, p, db) && ContentsInv(fn, p)
  }

  ghost predicate ShutdownInv(s: State) {
    && (s.pipe.writer.Draining? || s.pipe.writer.Exited? ==> s.quit)
    && (s.closer.NotClosing? <==> !s.quit)
    && (s.closer.CloseReturned? ==> s.pipe.writer.Exited?)
  }

  ghost predicate SubmitInv(s: State) {
    && (forall j :: j in s.pipe.enqueued ==> !Phase(s, j).Idle?)
    && (forall j :: j in s.submitters ==>
          match s.submitters[j]
          case Idle => false
          case Waiting => j in s.pipe.enqueued
          case Returned(Answered(a)) => j in s.pipe.answers && s.pipe.answers[j] == a
          case Returned(Closed) => j !in s.pipe.enqueued
          case Returned(Cancelled) => j in s.cancelled)
  }

  ghost predicate Inv(fn: Program, s: State, db: Database) {
    PipeInv(fn, s.pipe, db) && ShutdownInv(s) && SubmitInv(s)
  }

  // ---- Preservation -------------------------------------------------------

  lemma SuccessesExtend(sent: seq<Job>, answers: map<Job, Answer>, j: Job, a: Answer)
    requires j !in sent
    ensures Successes(sent + [j], answers[j := a]) ==
      if a.Done? then Successes(sent, answers) + [j] else Successes(sent, answers)
  {
    assert (sent + [j])[..|sent|] == sent;
    SuccessesIgnore(sent, answers, j, a);
  }

  lemma {:induction false} SuccessesIgnore(sent: seq<Job>, answers: map<Job, Answer>, j: Job, a: Answer)
    requires j !in sent
    ensures Successes(sent, answers[j := a]) == Successes(sent, answers)
  {
    if sent != [] {
      SuccessesIgnore(sent[..|sent| - 1], answers, j, a);
    }
  }

  lemma SerialExtend(fn: Program, db: Database, jobs: seq<Job>, j: Job)
    requires Serial(fn, db, jobs).Some?
    ensures Serial(fn, db, jobs + [j]) == fn(j, Serial(fn, db, jobs).value)
  {
    assert (jobs + [j])[..|jobs|] == jobs;
  }

  /** Jobs in hand or queued are enqueued but not answered, and none is both. */
  ghost predicate Unanswered(p: Pipe) {
    && (Holding(p.writer) ==> p.writer.job !in p.sent && p.writer.job in p.enqueued && p.writer.job !in p.queue)
    && (forall j :: j in p.queue ==> j !in p.sent && j in p.enqueued)
    && (forall j :: j in p.sent ==> j in p.enqueued)
    && (forall j :: j in p.answers <==> j in p.sent)
  }

  lemma InHandIsNew(p: Pipe)
    requires QueueInv(p)
    ensures Unanswered(p)
  {
    var e := p.enqueued;
    assert forall i :: 0 <= i < |p.sent| ==> e[i] == p.sent[i];
    assert forall i :: 0 <= i < |InHand(p.writer)| ==> e[|p.sent| + i] == InHand(p.writer)[i];
    assert forall i :: 0 <= i < |p.queue| ==> e[|p.sent| + |InHand(p.writer)| + i] == p.queue[i];
    assert Holding(p.writer) ==> InHand(p.writer)[0] == p.writer.job;
  }

  lemma PushKeepsQueue(p: Pipe, j: Job)
    requires QueueInv(p) && j !in p.enqueued
    ensures QueueInv(Push(p, j))
  {
    assert Push(p, j).enqueued == p.sent + InHand(p.writer) + (p.queue + [j]);
  }

  lemma TakeKeepsQueue(fn: Program, p: Pipe, p': Pipe)
    requires QueueInv(p) && Proceed(fn, p, Take) == Some(p')
    ensures QueueInv(p')
  {
    assert p.queue == [p.queue[0]] + p.queue[1..];
    assert p.enqueued == p.sent + [p.queue[0]] + p.queue[1..];
  }

  lemma SendKeepsQueue(fn: Program, p: Pipe, p': Pipe)
    requires QueueInv(p) && Proceed(fn, p, Send) == Some(p')
    ensures QueueInv(p')
  {
    assert p'.enqueued == p'.sent + [] + p.queue;
  }

  lemma DrainKeepsQueue(fn: Program, p: Pipe, p': Pipe)
    requires QueueInv(p) && Proceed(fn, p, DrainOne) == Some(p')
    ensures QueueInv(p')
  {
    assert p.queue == [p.queue[0]] + p.queue[1..];
    assert p.sent + [] + p.queue == p.sent + [p.queue[0]] + [] + p.queue[1..];
  }

  lemma QueueKept(fn: Program, p: Pipe, step: WriterStep, p': Pipe)
    requires QueueInv(p) && Proceed(fn, p, step) == Some(p')
    ensures QueueInv(p')
  {
    match step
    case Take => TakeKeepsQueue(fn, p, p');
    case Send => SendKeepsQueue(fn, p, p');
    case DrainOne => DrainKeepsQueue(fn, p, p');
    case _ =>
      assert InHand(p'.writer) == InHand(p.writer);
  }

  lemma CommitKept(fn: Program, p: Pipe, step: WriterStep, p': Pipe)
    requires Unanswered(p) && CommitInv(p) && RanInv(p) && Proceed(fn, p, step) == Some(p')
    ensures CommitInv(p')
  {
    match step
    case Send => SendKeepsCommits(p, p.writer.job, p.writer.answer, p');
    case DrainOne => DrainKeepsCommits(p, p.queue[0], p');
    case _ => OthersKeepCommits(fn, p, step, p');
  }

  lemma SendKeepsCommits(p: Pipe, j: Job, a: Answer, p': Pipe)
    requires CommitInv(p) && p.writer == Sending(j, a) && j !in p.sent
    requires p'.sent == p.sent + [j] && p'.answers == p.answers[j := a]
    requires p'.committed == p.committed && !p'.writer.Sending?
    ensures CommitInv(p')
  {
    SuccessesExtend(p.sent, p.answers, j, a);
  }

  lemma DrainKeepsCommits(p: Pipe, j: Job, p': Pipe)
    requires CommitInv(p) && !p.writer.Sending? && j !in p.sent
    requires p'.sent == p.sent + [j] && p'.answers == p.answers[j := ShuttingDown]
    requires p'.committed == p.committed && p'.writer == p.writer
    ensures CommitInv(p')
  {
    SuccessesExtend(p.sent, p.answers, j, ShuttingDown);
  }

  lemma OthersKeepCommits(fn: Program, p: Pipe, step: WriterStep, p': Pipe)
    requires CommitInv(p) && Proceed(fn, p, step) == Some(p') && !step.Send? && !step.DrainOne?
    ensures CommitInv(p')
  {
    assert p'.sent == p.sent && p'.answers == p.answers;
  }

  lemma RunningKeepsRan(fn: Program, p: Pipe, step: WriterStep, p': Pipe)
    requires Unanswered(p) && RanInv(p) && Proceed(fn, p, step) == Some(p') && (step.FunctionFails? || step.FunctionEnds?)
    ensures RanInv(p')
  {
    assert p.writer.job !in p.ran;
    assert p'.ran == p.ran + [p.writer.job];
  }

  lemma RanKept(fn: Program, p: Pipe, step: WriterStep, p': Pipe)
    requires QueueInv(p) && Unanswered(p) && RanInv(p) && Proceed(fn, p, step) == Some(p')
    ensures RanInv(p')
  {
    if step.FunctionFails? || step.FunctionEnds? {
      RunningKeepsRan(fn, p, step, p');
    }
  }

  lemma ContentsKept(fn: Program, p: Pipe, step: WriterStep, p': Pipe)
    requires ContentsInv(fn, p) && Proceed(fn, p, step) == Some(p')
    ensures ContentsInv(fn, p')
    ensures step.Commit? ==> p'.committed == p.committed + [p.writer.job] && fn(p.writer.job, p.db) == Some(p'.db)
    ensures !step.Commit? ==> p'.committed == p.committed && p'.db == p.db
  {
  }

  lemma SerialKept(fn: Program, p: Pipe, step: WriterStep, p': Pipe, db: Database)
    requires SerialInv(fn, p, db) && ContentsInv(fn, p) && Proceed(fn, p, step) == Some(p')
    ensures SerialInv(fn, p', db) && ContentsInv(fn, p')
  {
    ContentsKept(fn, p, step, p');
    if step.Commit? {
      SerialExtend(fn, db, p.committed, p.writer.job);
    }
  }

  lemma PipeKept(fn: Program, p: Pipe, step: WriterStep, p': Pipe, db: Database)
    requires PipeInv(fn, p, db) && Proceed(fn, p, step) == Some(p')
    ensures PipeInv(fn, p', db)
  {
    assert QueueInv(p') by { QueueKept(fn, p, step, p'); }
    assert Unanswered(p) by { InHandIsNew(p); }
    assert CommitInv(p') by { CommitKept(fn, p, step, p'); }
    assert RanInv(p') by { RanKept(fn, p, step, p'); }
    assert SerialInv(fn, p', db) && ContentsInv(fn, p') by { SerialKept(fn, p, step, p', db); }
  }

  /** What the writer's steps mean to submitters: no job enters the queue, and answers
      once sent stay. */
  lemma AnswersStay(fn: Program, p: Pipe, step: WriterStep, p': Pipe)
    requires QueueInv(p) && Proceed(fn, p, step) == Some(p')
    ensures p'.enqueued == p.enqueued
    ensures forall j :: j in p.answers ==> j in p'.answers && p'.answers[j] == p.answers[j]
  {
    InHandIsNew(p);
  }

  /** What submitters know stays true while jobs stay enqueued and answers stay. */
  lemma SubmitStays(s: State, s': State)
    requires SubmitInv(s) && s'.submitters == s.submitters && s'.cancelled == s.cancelled
    requires s'.pipe.enqueued == s.pipe.enqueued
    requires forall j :: j in s.pipe.answers ==> j in s'.pipe.answers && s'.pipe.answers[j] == s.pipe.answers[j]
    ensures SubmitInv(s')
  {
  }

  lemma WriteKeepsSubmit(fn: Program, s: State, w: WriterStep, s': State)
    requires QueueInv(s.pipe) && SubmitInv(s) && Do(fn, s, Write(w)) == Some(s')
    ensures SubmitInv(s')
  {
    AnswersStay(fn, s.pipe, w, s'.pipe);
    SubmitStays(s, s');
  }

  lemma SubmitKept(fn: Program, s: State, step: Step, s': State)
    requires QueueInv(s.pipe) && SubmitInv(s) && Do(fn, s, step) == Some(s')
    ensures SubmitInv(s')
  {
    if step.Write? {
      WriteKeepsSubmit(fn, s, step.step, s');
    } else {
      assert s'.pipe.answers == s.pipe.answers;
    }
  }

  lemma ShutdownKept(fn: Program, s: State, step: Step, s': State)
    requires ShutdownInv(s) && Do(fn, s, step) == Some(s')
    ensures ShutdownInv(s')
  {
  }

  lemma PushKeepsPipe(fn: Program, p: Pipe, j: Job, db: Database)
    requires PipeInv(fn, p, db) && j !in p.enqueued
    ensures PipeInv(fn, Push(p, j), db)
  {
    assert QueueInv(Push(p, j)) by { PushKeepsQueue(p, j); }
  }

  /** What a step does to the pipe: nothing, or a push of a new job, or a writer's step. */
  lemma PipeOfStep(fn: Program, s: State, step: Step, s': State)
    requires SubmitInv(s) && Do(fn, s, step) == Some(s')
    ensures match step
      case Write(w) => Proceed(fn, s.pipe, w) == Some(s'.pipe)
      case Enqueue(j) => s'.pipe == Push(s.pipe, j) && j !in s.pipe.enqueued
      case _ => s'.pipe == s.pipe
  {
  }

  lemma PipeStepKept(fn: Program, p: Pipe, step: Step, p': Pipe, db: Database)
    requires PipeInv(fn, p, db)
    requires match step
      case Write(w) => Proceed(fn, p, w) == Some(p')
      case Enqueue(j) => p' == Push(p, j) && j !in p.enqueued
      case _ => p' == p
    ensures PipeInv(fn, p', db)
  {
    match step
    case Write(w) => PipeKept(fn, p, w, p', db);
    case Enqueue(j) => PushKeepsPipe(fn, p, j, db);
    case _ =>
  }

  lemma StepKeeps(fn: Program, s: State, step: Step, s': State, db: Database)
    requires Inv(fn, s, db) && Do(fn, s, step) == Some(s')
    ensures Inv(fn, s', db)
  {
    assert PipeInv(fn, s'.pipe, db) by {
      PipeOfStep(fn, s, step, s');
      PipeStepKept(fn, s.pipe, step, s'.pipe, db);
    }
    assert ShutdownInv(s') by { ShutdownKept(fn, s, step, s'); }
    assert SubmitInv(s') by { SubmitKept(fn, s, step, s'); }
  }

  lemma {:induction false} RunKeeps(fn: Program, s: State, steps: Steps, s': State, db: Database)
    requires Inv(fn, s, db) && Run(fn, s, steps) == Some(s')
    ensures Inv(fn, s', db)
  {
    if steps.Then? {
      var t := Run(fn, s, steps.before).value;
      RunKeeps(fn, s, steps.before, t, db);
      StepKeeps(fn, t, steps.last, s', db);
    }
  }

  lemma Reachable(fn: Program, s0: State, db: Database, steps: Steps, s: State)
    requires Init(s0, db) && Run(fn, s0, steps) == Some(s)
    ensures Inv(fn, s, db) && Unanswered(s.pipe)
  {
    RunKeeps(fn, s0, steps, s, db);
    InHandIsNew(s.pipe);
  }

  // ---- Safety over whole runs ---------------------------------------------

  /** `c` is what is left of `e` when some entries are struck out. */
  ghost predicate InOrderOf(c: seq<Job>, e: seq<Job>) {
    || c == []
    || (e != [] && c[|c| - 1] == e[|e| - 1] && InOrderOf(c[..|c| - 1], e[..|e| - 1]))
    || (e != [] && InOrderOf(c, e[..|e| - 1]))
  }

  lemma {:induction false} SuccessesInOrder(sent: seq<Job>, answers: map<Job, Answer>, rest: seq<Job>)
    ensures InOrderOf(Successes(sent, answers), sent + rest)
    decreases |sent|, |rest|
  {
    if rest != [] {
      SuccessesInOrder(sent, answers, rest[..|rest| - 1]);
      assert (sent + rest)[..|sent + rest| - 1] == sent + rest[..|rest| - 1];
    } else if sent != [] {
      SuccessesInOrder(sent[..|sent| - 1], answers, []);
      assert sent[..|sent| - 1] + [] == sent[..|sent| - 1] && sent + [] == sent;
      var c := Successes(sent, answers);
      if c != Successes(sent[..|sent| - 1], answers) {
        assert c[..|c| - 1] == Successes(sent[..|sent| - 1], answers);
      }
    }
  }

  lemma CommittedInOrder(p: Pipe)
    requires CommitInv(p) && p.enqueued == p.sent + InHand(p.writer) + p.queue && Unanswered(p)
    ensures InOrderOf(p.committed, p.enqueued)
  {
    var hand := InHand(p.writer);
    if p.writer.Sending? && p.writer.answer.Done? {
      LastInOrder(p.sent, p.answers, p.writer.job, p.queue);
    } else {
      SuccessesInOrder(p.sent, p.answers, hand + p.queue);
      assert p.sent + (hand + p.queue) == p.enqueued;
    }
  }

  lemma LastInOrder(sent: seq<Job>, answers: map<Job, Answer>, j: Job, queue: seq<Job>)
    requires j !in sent
    ensures InOrderOf(Successes(sent, answers) + [j], sent + [j] + queue)
  {
    SuccessesExtend(sent, answers, j, Done);
    SuccessesInOrder(sent + [j], answers[j := Done], queue);
  }

  /** In every reachable state the database is the committed jobs' functions applied one
      at a time, in the order in which the jobs entered the queue. */
  lemma Serializable(fn: Program, s0: State, db: Database, steps: Steps, s: State)
    requires Init(s0, db) && Run(fn, s0, steps) == Some(s)
    ensures Serial(fn, db, s.pipe.committed) == Some(s.pipe.db)
    ensures InOrderOf(s.pipe.committed, s.pipe.enqueued)
  {
    Reachable(fn, s0, db, steps, s);
    CommittedInOrder(s.pipe);
  }

  /** No job is run twice, answered twice, or answered without having been enqueued. */
  lemma AtMostOnce(fn: Program, s0: State, db: Database, steps: Steps, s: State)
    requires Init(s0, db) && Run(fn, s0, steps) == Some(s)
    ensures NoRepeats(s.pipe.ran) && NoRepeats(s.pipe.sent) && s.pipe.sent <= s.pipe.enqueued
  {
    Reachable(fn, s0, db, steps, s);
    PrefixOf(s.pipe.sent, InHand(s.pipe.writer), s.pipe.queue, s.pipe.enqueued);
  }

  lemma PrefixOf(x: seq<Job>, y: seq<Job>, z: seq<Job>, all: seq<Job>)
    requires all == x + y + z && NoRepeats(all)
    ensures x <= all && NoRepeats(x)
  {
    assert forall p :: 0 <= p < |x| ==> x[p] == all[p];
  }

  /** What the result of submit tells its caller. */
  lemma ResultsAreTrue(fn: Program, s0: State, db: Database, steps: Steps, s: State, j: Job)
    requires Init(s0, db) && Run(fn, s0, steps) == Some(s)
    ensures Phase(s, j) == Returned(Answered(Done)) ==> j in s.pipe.committed
    ensures Phase(s, j) == Returned(Answered(Failed)) ==> j !in s.pipe.committed
    ensures Phase(s, j) == Returned(Answered(ShuttingDown)) ==> j !in s.pipe.ran && j !in s.pipe.committed
    ensures Phase(s, j) == Returned(Closed) ==> j !in s.pipe.ran && j !in s.pipe.committed
    ensures Phase(s, j) == Returned(Cancelled) && j !in s.pipe.enqueued ==> j !in s.pipe.ran && j !in s.pipe.committed
  {
    Reachable(fn, s0, db, steps, s);
    CommittedAre(s.pipe, j);
    assert j in s.pipe.ran ==> j in s.pipe.enqueued;
  }

  lemma CommittedAre(p: Pipe, j: Job)
    requires CommitInv(p) && Unanswered(p)
    ensures j in p.committed <==>
      (j in p.sent && j in p.answers && p.answers[j].Done?) || (p.writer.Sending? && p.writer == Sending(j, Done))
  {
    SuccessesAre(p.sent, p.answers, j);
  }

  lemma {:induction false} SuccessesAre(sent: seq<Job>, answers: map<Job, Answer>, j: Job)
    ensures j in Successes(sent, answers) <==> j in sent && j in answers && answers[j].Done?
  {
    if sent != [] {
      SuccessesAre(sent[..|sent| - 1], answers, j);
      assert sent == sent[..|sent| - 1] + [sent[|sent| - 1]];
    }
  }

  // ---- Refusals -----------------------------------------------------------

  /** Nobody is told that the writer shuts down, or is closed, unless close has begun. */
  ghost predicate RefusalInv(s: State) {
    && (forall j :: j in s.pipe.answers && s.pipe.answers[j].ShuttingDown? ==> s.quit)
    && (forall j :: Phase(s, j) == Returned(Closed) || Phase(s, j) == Returned(Answered(ShuttingDown)) ==> s.quit)
    && |s.pipe.queue| <= QUEUE_CAPACITY
  }

  /** What the writer's steps can add to the answers, and that they only take from the queue. */
  lemma AnswersOfStep(fn: Program, p: Pipe, w: WriterStep, p': Pipe)
    requires Proceed(fn, p, w) == Some(p') && (p.writer.Sending? ==> !p.writer.answer.ShuttingDown?)
    ensures forall j :: j in p'.answers && p'.answers[j].ShuttingDown? ==>
      p.writer.Draining? || (j in p.answers && p.answers[j].ShuttingDown?)
    ensures |p'.queue| <= |p.queue|
  {
  }

  lemma RefusalKept(fn: Program, s: State, step: Step, s': State)
    requires RefusalInv(s) && ShutdownInv(s) && RanInv(s.pipe) && Do(fn, s, step) == Some(s')
    ensures RefusalInv(s')
  {
    if step.Write? {
      AnswersOfStep(fn, s.pipe, step.step, s'.pipe);
      assert forall j :: Phase(s', j) == Phase(s, j);
    } else {
      OthersKeepRefusals(fn, s, step, s');
    }
  }

  lemma OthersKeepRefusals(fn: Program, s: State, step: Step, s': State)
    requires RefusalInv(s) && !step.Write? && Do(fn, s, step) == Some(s')
    ensures RefusalInv(s')
  {
    assert s'.pipe.answers == s.pipe.answers && (s.quit ==> s'.quit);
    forall j | Phase(s', j) != Phase(s, j)
      ensures Phase(s', j) == Returned(Closed) || Phase(s', j) == Returned(Answered(ShuttingDown)) ==> s'.quit
    {
    }
  }

  lemma {:induction false} RefusalsReachable(fn: Program, s0: State, db: Database, steps: Steps, s: State)
    requires Init(s0, db) && Run(fn, s0, steps) == Some(s)
    ensures RefusalInv(s)
  {
    if steps.Then? {
      var t := Run(fn, s0, steps.before).value;
      RefusalsReachable(fn, s0, db, steps.before, t);
      Reachable(fn, s0, db, steps.before, t);
      RefusalKept(fn, t, steps.last, s);
    }
  }

  /** A submitter is told "closed" or "shutting down" only once close has begun. */
  lemma RefusalsAreTrue(fn: Program, s0: State, db: Database, steps: Steps, s: State, j: Job)
    requires Init(s0, db) && Run(fn, s0, steps) == Some(s)
    ensures Phase(s, j) == Returned(Closed) ==> !s.closer.NotClosing?
    ensures Phase(s, j) == Returned(Answered(ShuttingDown)) ==> !s.closer.NotClosing?
    ensures |s.pipe.queue| <= 128
  {
    Reachable(fn, s0, db, steps, s);
    RefusalsReachable(fn, s0, db, steps, s);
  }

  /** The next step can bring the job's submitter there. */
  ghost predicate CanBecome(fn: Program, s: State, j: Job, phase: Submitter) {
    exists step, s' :: Do(fn, s, step) == Some(s') && Phase(s', j) == phase
  }

  lemma IdleStep(fn: Program, s: State, step: Step, s': State, j: Job)
    requires Phase(s, j).Idle? && Do(fn, s, step) == Some(s')
    ensures match Phase(s', j)
      case Idle => true
      case Waiting => |s.pipe.queue| < 128
      case Returned(Closed) => s.quit
      case Returned(Cancelled) => j in s.cancelled
      case Returned(Answered(_)) => false
  {
  }

  lemma IdleCannot(fn: Program, s: State, j: Job)
    requires Phase(s, j).Idle?
    ensures CanBecome(fn, s, j, Waiting) ==> |s.pipe.queue| < 128
    ensures CanBecome(fn, s, j, Returned(Closed)) ==> s.quit
    ensures CanBecome(fn, s, j, Returned(Cancelled)) ==> j in s.cancelled
    ensures forall a :: !CanBecome(fn, s, j, Returned(Answered(a)))
  {
    forall step, s' | Do(fn, s, step) == Some(s')
      ensures match Phase(s', j)
        case Idle => true
        case Waiting => |s.pipe.queue| < 128
        case Returned(Closed) => s.quit
        case Returned(Cancelled) => j in s.cancelled
        case Returned(Answered(_)) => false
    {
      IdleStep(fn, s, step, s', j);
    }
  }

  lemma IdleCan(fn: Program, s: State, j: Job)
    requires Phase(s, j).Idle?
    ensures |s.pipe.queue| < 128 ==> CanBecome(fn, s, j, Waiting)
    ensures s.quit ==> CanBecome(fn, s, j, Returned(Closed))
    ensures j in s.cancelled ==> CanBecome(fn, s, j, Returned(Cancelled))
  {
    if |s.pipe.queue| < 128 {
      assert Phase(Do(fn, s, Enqueue(j)).value, j) == Waiting;
    }
    if s.quit {
      assert Phase(Do(fn, s, RejectClosed(j)).value, j) == Returned(Closed);
    }
    if j in s.cancelled {
      assert Phase(Do(fn, s, RejectCancelled(j)).value, j) == Returned(Cancelled);
    }
  }

  /** What a call of submit can come to: it is taken while the queue has room, refused as
      closed once close has begun, and as cancelled once its context is. */
  lemma SubmitIff(fn: Program, s0: State, db: Database, steps: Steps, s: State, j: Job)
    requires Init(s0, db) && Run(fn, s0, steps) == Some(s) && Phase(s, j).Idle?
    ensures CanBecome(fn, s, j, Waiting) <==> |s.pipe.queue| < 128
    ensures CanBecome(fn, s, j, Returned(Closed)) <==> !s.closer.NotClosing?
    ensures CanBecome(fn, s, j, Returned(Cancelled)) <==> j in s.cancelled
    ensures forall a :: !CanBecome(fn, s, j, Returned(Answered(a)))
  {
    Reachable(fn, s0, db, steps, s);
    IdleCan(fn, s, j);
    IdleCannot(fn, s, j);
  }

  /** And what a call that waits can come to: the answer that was sent, or its cancellation. */
  lemma WaitIff(fn: Program, s: State, j: Job, a: Answer)
    requires Phase(s, j).Waiting?
    ensures CanBecome(fn, s, j, Returned(Answered(a))) <==> j in s.pipe.answers && s.pipe.answers[j] == a
    ensures CanBecome(fn, s, j, Returned(Cancelled)) <==> j in s.cancelled
    ensures !CanBecome(fn, s, j, Returned(Closed))
  {
    if j in s.pipe.answers {
      assert Phase(Do(fn, s, Receive(j)).value, j) == Returned(Answered(s.pipe.answers[j]));
    }
    if j in s.cancelled {
      assert Phase(Do(fn, s, GiveUp(j)).value, j) == Returned(Cancelled);
    }
  }

  /** The writer is stuck only while it has nothing to do, and after it has exited. */
  lemma WriterMovesIff(fn: Program, s: State)
    ensures (exists w, s' :: Do(fn, s, Write(w)) == Some(s')) <==>
      !s.pipe.writer.Exited? && (s.pipe.writer.Selecting? ==> s.pipe.queue != [] || s.quit)
  {
    match s.pipe.writer
    case Exited =>
    case Selecting =>
      if s.pipe.queue != [] {
        assert Do(fn, s, Write(Take)).Some?;
      } else if s.quit {
        assert Do(fn, s, Write(SeeQuit)).Some?;
      }
    case _ =>
      var w := NextStep(s);
      assert Do(fn, s, Write(w)).Some?;
  }

  /** A step the writer can take when it is busy. */
  function NextStep(s: State): WriterStep
    requires !s.pipe.writer.Exited? && !s.pipe.writer.Selecting?
  {
    match s.pipe.writer
    case Taken(j) => if j in s.cancelled then RefuseCancelled else PassCheck
    case Checked(_) => BeginFails
    case Begun(_) => FunctionFails
    case Written(_, _) => CommitFails
    case Committing(_, _) => Commit
    case Sending(_, _) => Send
    case Draining => if s.pipe.queue != [] then DrainOne else DrainEnd
  }

  // ---- Cancellation -------------------------------------------------------

  /** The job's context is cancelled and its transaction has not begun. */
  predicate CancelledInTime(s: State, j: Job) {
    j in s.cancelled && j !in s.pipe.ran && s.pipe.writer != Begun(j)
  }

  lemma CancelledInTimeStays(fn: Program, s: State, step: Step, s': State, j: Job)
    requires CancelledInTime(s, j) && Do(fn, s, step) == Some(s')
    ensures CancelledInTime(s', j)
  {
  }

  /** A job that is cancelled before its transaction begins never runs. */
  lemma {:induction false} CancelledInTimeNeverRuns(fn: Program, s: State, steps: Steps, s': State, j: Job)
    requires CancelledInTime(s, j) && Run(fn, s, steps) == Some(s')
    ensures CancelledInTime(s', j)
  {
    if steps.Then? {
      var t := Run(fn, s, steps.before).value;
      CancelledInTimeNeverRuns(fn, s, steps.before, t, j);
      CancelledInTimeStays(fn, t, steps.last, s', j);
    }
  }

  /** The job is committed, or its context has passed the last test. */
  predicate PastLastTest(p: Pipe, j: Job) {
    j in p.committed || (p.writer.Committing? && p.writer.job == j)
  }

  lemma OnlyBeginCommitPasses(fn: Program, p: Pipe, step: WriterStep, p': Pipe, j: Job)
    requires !PastLastTest(p, j) && Proceed(fn, p, step) == Some(p')
    requires step.BeginCommit? && Executing(p.writer) ==> p.writer.job != j
    ensures !PastLastTest(p', j)
  {
  }

  lemma LastTestStaysAhead(fn: Program, s: State, step: Step, s': State, j: Job)
    requires j in s.cancelled && !PastLastTest(s.pipe, j) && Do(fn, s, step) == Some(s')
    ensures j in s'.cancelled && !PastLastTest(s'.pipe, j)
  {
    if step.Write? {
      OnlyBeginCommitPasses(fn, s.pipe, step.step, s'.pipe, j);
    }
  }

  /** A job that is cancelled before its commit begins is never committed. */
  lemma {:induction false} CancelledInTimeNeverCommits(fn: Program, s: State, steps: Steps, s': State, j: Job)
    requires j in s.cancelled && !PastLastTest(s.pipe, j) && Run(fn, s, steps) == Some(s')
    ensures j in s'.cancelled && !PastLastTest(s'.pipe, j) && j !in s'.pipe.committed
  {
    if steps.Then? {
      var t := Run(fn, s, steps.before).value;
      CancelledInTimeNeverCommits(fn, s, steps.before, t, j);
      LastTestStaysAhead(fn, t, steps.last, s', j);
    }
  }

  /** From `s`, cancelling the job now can end with its submitter told so and its function
      committed all the same. */
  ghost predicate CancelledYetCommitted(fn: Program, s: State, j: Job) {
    exists steps, s' ::
      Run(fn, s.(cancelled := s.cancelled + {j}), steps) == Some(s')
      && Phase(s', j) == Returned(Cancelled) && j in s'.pipe.committed
  }

  /** That can happen exactly if the cancellation comes after the test with which the
      commit begins: at whichever of those moments it comes. */
  lemma CancelledYetCommittedIff(fn: Program, s: State, j: Job)
    requires Phase(s, j).Waiting?
    ensures CancelledYetCommitted(fn, s, j) <==> PastLastTest(s.pipe, j)
  {
    var t := s.(cancelled := s.cancelled + {j});
    if PastLastTest(s.pipe, j) {
      var steps, u := CommitAnyway(fn, t, j);
      assert Run(fn, t, Then(steps, GiveUp(j))) == Some(Return(u, j, Cancelled));
    } else {
      forall steps, s' | Run(fn, t, steps) == Some(s')
        ensures j !in s'.pipe.committed
      {
        CancelledInTimeNeverCommits(fn, t, steps, s', j);
      }
    }
  }

  /** The writer carries on with a job whose context was cancelled after the last test. */
  lemma CommitAnyway(fn: Program, s: State, j: Job) returns (steps: Steps, s': State)
    requires PastLastTest(s.pipe, j)
    ensures Run(fn, s, steps) == Some(s') && j in s'.pipe.committed
    ensures s'.submitters == s.submitters && s'.cancelled == s.cancelled
  {
    steps, s' := Start, s;
    if j !in s.pipe.committed {
      steps, s' := Then(steps, Write(Commit)), Do(fn, s', Write(Commit)).value;
      assert s'.pipe.committed == s.pipe.committed + [j];
    }
  }

  /** One more step at the end of a run. */
  lemma Onward(fn: Program, s0: State, steps: Steps, s: State, step: Step) returns (more: Steps, s': State)
    requires Run(fn, s0, steps) == Some(s) && Do(fn, s, step).Some?
    ensures more == Then(steps, step) && Some(s') == Do(fn, s, step) && Run(fn, s0, more) == Some(s')
  {
    more, s' := Then(steps, step), Do(fn, s, step).value;
  }

  lemma BeginsFirst(fn: Program, s0: State, db: Database) returns (r: Steps, s: State)
    requires Init(s0, db)
    ensures Run(fn, s0, r) == Some(s) && s.pipe.writer == Begun(0) && s.pipe.db == db
    ensures Phase(s, 0) == Waiting && s.cancelled == {}
  {
    r, s := Onward(fn, s0, Start, s0, Enqueue(0));
    r, s := Onward(fn, s0, r, s, Write(Take));
    r, s := Onward(fn, s0, r, s, Write(PassCheck));
    r, s := Onward(fn, s0, r, s, Write(Begin));
  }

  /** From the start: cancelled while the commit is under way, committed, and told so. */
  lemma CancelledCanBeCommitted(fn: Program, s0: State, db: Database)
    requires Init(s0, db) && fn(0, db).Some?
    ensures exists steps, s ::
      Run(fn, s0, steps) == Some(s) && s.pipe.writer == Committing(0, fn(0, db).value) && Phase(s, 0) == Waiting
      && CancelledYetCommitted(fn, s, 0)
  {
    var r, s := BeginsFirst(fn, s0, db);
    r, s := Onward(fn, s0, r, s, Write(FunctionEnds));
    r, s := Onward(fn, s0, r, s, Write(BeginCommit));
    CancelledYetCommittedIff(fn, s, 0);
  }

  // ---- After the drain ----------------------------------------------------

  /** Nothing but the queue changes once the writer has exited. */
  ghost predicate SameButQueue(p: Pipe, p': Pipe) {
    && p'.writer == p.writer && p'.db == p.db && p'.ran == p.ran && p'.committed == p.committed
    && p'.sent == p.sent && p'.answers == p.answers && p.queue <= p'.queue
  }

  lemma ExitedStep(fn: Program, s: State, step: Step, s': State)
    requires s.pipe.writer.Exited? && Do(fn, s, step) == Some(s')
    ensures SameButQueue(s.pipe, s'.pipe)
  {
  }

  lemma {:induction false} ExitIsFinal(fn: Program, s: State, steps: Steps, s': State)
    requires s.pipe.writer.Exited? && Run(fn, s, steps) == Some(s')
    ensures SameButQueue(s.pipe, s'.pipe)
  {
    if steps.Then? {
      var t := Run(fn, s, steps.before).value;
      ExitIsFinal(fn, s, steps.before, t);
      ExitedStep(fn, t, steps.last, s');
    }
  }

  /** Once close has returned, no job runs, commits or is answered any more. */
  lemma NothingRunsAfterClose(fn: Program, s0: State, db: Database, before: Steps, s: State, after: Steps, s': State)
    requires Init(s0, db) && Run(fn, s0, before) == Some(s) && s.closer.CloseReturned?
    requires Run(fn, s, after) == Some(s')
    ensures s'.pipe.db == s.pipe.db && s'.pipe.ran == s.pipe.ran && s'.pipe.committed == s.pipe.committed
    ensures s'.pipe.sent == s.pipe.sent
  {
    Reachable(fn, s0, db, before, s);
    ExitIsFinal(fn, s, after, s');
  }

  /** The writer exits with the drain's last step, taken in `s` and leading to `t`.  From
      then on an enqueued job is answered, and a submitter still waiting can receive, if
      and only if the job was enqueued before that step.  The submitter of any other can
      leave only by its own cancellation. */
  lemma AnsweredIffBeforeExit(fn: Program, s0: State, db: Database, before: Steps, s: State, t: State,
                              after: Steps, s': State, j: Job)
    requires Init(s0, db) && Run(fn, s0, before) == Some(s)
    requires Do(fn, s, Write(DrainEnd)) == Some(t) && Run(fn, t, after) == Some(s') && j in s'.pipe.enqueued
    ensures j in s'.pipe.answers <==> j in s.pipe.enqueued
    ensures Phase(s', j).Waiting? ==> (Do(fn, s', Receive(j)).Some? <==> j in s.pipe.enqueued)
    ensures j !in s.pipe.enqueued && j !in s'.cancelled ==> Phase(s', j) == Waiting
  {
    Reachable(fn, s0, db, before, s);
    AnswersFixedAtExit(fn, s, t, after, s');
    SubmittersAfterExit(fn, s, t, after, s', db);
    if j !in s.pipe.enqueued && j !in s'.cancelled {
      NotYetAnswered(s', j);
    }
  }

  lemma AnswersFixedAtExit(fn: Program, s: State, t: State, after: Steps, s': State)
    requires QueueInv(s.pipe) && Do(fn, s, Write(DrainEnd)) == Some(t) && Run(fn, t, after) == Some(s')
    ensures forall j :: j in s'.pipe.answers <==> j in s.pipe.enqueued
  {
    AllAnswered(s.pipe);
    ExitIsFinal(fn, t, after, s');
  }

  lemma SubmittersAfterExit(fn: Program, s: State, t: State, after: Steps, s': State, db: Database)
    requires Inv(fn, s, db) && Do(fn, s, Write(DrainEnd)) == Some(t) && Run(fn, t, after) == Some(s')
    ensures SubmitInv(s')
  {
    StepKeeps(fn, s, Write(DrainEnd), t, db);
    RunKeeps(fn, t, after, s', db);
  }

  lemma AllAnswered(p: Pipe)
    requires QueueInv(p) && p.writer.Draining? && p.queue == []
    ensures forall j :: j in p.answers <==> j in p.enqueued
  {
    assert p.enqueued == p.sent;
  }

  lemma NotYetAnswered(s: State, j: Job)
    requires SubmitInv(s) && j in s.pipe.enqueued && j !in s.pipe.answers && j !in s.cancelled
    ensures Phase(s, j) == Waiting
  {
  }

  /** A job that is still queued when the writer has exited is never answered: its
      submitter can only leave by its own cancellation. */
  lemma StrandedJobIsNeverAnswered(fn: Program, s0: State, db: Database, before: Steps, s: State,
                                   after: Steps, s': State, j: Job)
    requires Init(s0, db) && Run(fn, s0, before) == Some(s) && s.pipe.writer.Exited? && j in s.pipe.queue
    requires Run(fn, s, after) == Some(s')
    ensures j !in s'.pipe.answers && (j !in s'.cancelled ==> Phase(s', j) == Waiting)
  {
    Reachable(fn, s0, db, before, s);
    RunKeeps(fn, s, after, s', db);
    ExitIsFinal(fn, s, after, s');
    assert j in s'.pipe.queue;
    InHandIsNew(s'.pipe);
    if j !in s'.cancelled {
      NotYetAnswered(s', j);
    }
  }

  /** Such a run exists: the job is enqueued after close has returned. */
  lemma JobCanBeStranded(fn: Program, s0: State, db: Database)
    requires Init(s0, db)
    ensures exists steps, s :: Run(fn, s0, steps) == Some(s) && s.closer.CloseReturned? && 0 in s.pipe.queue
  {
    var r, s := Onward(fn, s0, Start, s0, CloseBegin);
    r, s := Onward(fn, s0, r, s, Write(SeeQuit));
    r, s := Onward(fn, s0, r, s, Write(DrainEnd));
    r, s := Onward(fn, s0, r, s, CloseEnd);
    r, s := Onward(fn, s0, r, s, Enqueue(0));
    assert s.pipe.queue[0] == 0;
  }
}
