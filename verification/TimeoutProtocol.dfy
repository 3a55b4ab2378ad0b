/**
 executeWithTimeout of pkg/server/middleware/timeout.go as a state machine.  The worker
 goroutine runs the handler on a buffer; the calling goroutine selects over the panic
 channel, the done channel and the context.  Every step below is one a goroutine takes
 between two points at which the other may run; any interleaving of them is a run.
 */
module TimeoutProtocol {
  import opened Prelude
  import opened BufferedWriters

  type Panic = string

  /** Where the worker is: in the handler, unwinding after a panic whose value has been
      sent but with done still open, or gone. */
  datatype Worker = Running | Unwinding | Ended

  /** Where the calling goroutine is. */
  datatype Caller =
    | Selecting
    | DoneSeen                                  // done received; the panic channel not yet polled
    | BeforeCommit                              // polled empty; the buffer not yet locked
    | Snapshot(b: Buffer)                       // buffer copied and unlocked
    | HeadersDone(b: Buffer)
    | StatusDone(b: Buffer)
    | DeadlineSeen                              // context done; the buffer not yet marked
    | Answering(next: nat)                      // timeout response, actions up to next written
    | Returned
    | Repanicked(p: Panic)

  datatype State = State(
    original: Wire,
    buffer: Buffer,
    worker: Worker,
    panicChan: Option<Panic>,                   // capacity one
    done: bool,
    expired: bool,
    caller: Caller,
    log: seq<Action>,                           // history: what the worker has done to its writer
    panicked: Option<Panic>)                    // history: what the worker panicked with

  /** `below` is the writer as executeWithTimeout finds it. */
  function Initial(below: Wire): State {
    State(below, NEW_BUFFER, Running, None, false, false, Selecting, [], None)
  }

  datatype Step =
    | WorkerActs(a: Action)
    | WorkerPanics(p: Panic)
    | WorkerCloses                              // handler returned, or unwinding goes on: close(done)
    | ContextEnds
    | TakePanic
    | TakeDone
    | TakeDeadline
    | PollPanic
    | LockBuffer
    | CopyHeaders
    | CopyStatus
    | CopyBody
    | MarkTimedOut
    | AnswerTimeout

  /** Whether the step can be taken.  A send on the panic channel needs room. */
  predicate Enabled(s: State, step: Step, timeoutActions: seq<Action>) {
    match step
    case WorkerActs(_) => s.worker.Running?
    case WorkerPanics(_) => s.worker.Running? && s.panicChan.None?
    case WorkerCloses => !s.worker.Ended?
    case ContextEnds => true
    case TakePanic => s.caller.Selecting? && s.panicChan.Some?
    case TakeDone => s.caller.Selecting? && s.done
    case TakeDeadline => s.caller.Selecting? && s.expired
    case PollPanic => s.caller.DoneSeen?
    case LockBuffer => s.caller.BeforeCommit?
    case CopyHeaders => s.caller.Snapshot?
    case CopyStatus => s.caller.HeadersDone?
    case CopyBody => s.caller.StatusDone?
    case MarkTimedOut => s.caller.DeadlineSeen?
    case AnswerTimeout => s.caller.Answering? && s.caller.next <= |timeoutActions|
  }

  function Next(s: State, step: Step, timeoutActions: seq<Action>): State
    requires Enabled(s, step, timeoutActions)
  {
    match step
    case WorkerActs(a) => s.(buffer := BufferStep(s.buffer, a), log := s.log + [a])
    case WorkerPanics(p) => s.(worker := Unwinding, panicChan := Some(p), panicked := Some(p))
    case WorkerCloses => s.(worker := Ended, done := true)
    case ContextEnds => s.(expired := true)
    case TakePanic => s.(caller := Repanicked(s.panicChan.value), panicChan := None)
    case TakeDone => s.(caller := DoneSeen)
    case TakeDeadline => s.(caller := DeadlineSeen)
    case PollPanic =>
      if s.panicChan.Some? then s.(caller := Repanicked(s.panicChan.value), panicChan := None)
      else s.(caller := BeforeCommit)
    case LockBuffer => s.(caller := if s.buffer.timedOut then Returned else Snapshot(s.buffer))
    case CopyHeaders =>
      s.(original := CopiedHeaders(s.original, s.caller.b.header), caller := HeadersDone(s.caller.b))
    case CopyStatus =>
      s.(original := CopiedStatus(s.original, s.caller.b), caller := StatusDone(s.caller.b))
    case CopyBody =>
      s.(original := CopiedBody(s.original, s.caller.b), caller := Returned)
    case MarkTimedOut => s.(buffer := s.buffer.(timedOut := true), caller := Answering(0))
    case AnswerTimeout =>
      var i := s.caller.next;
      if i == |timeoutActions| then s.(caller := Returned)
      else s.(original := WireStep(s.original, timeoutActions[i]), caller := Answering(i + 1))
  }

  ghost predicate IsRun(s: State, steps: seq<Step>, timeoutActions: seq<Action>)
    decreases |steps|
  {
    steps != [] ==> Enabled(s, steps[0], timeoutActions) &&
                    IsRun(Next(s, steps[0], timeoutActions), steps[1..], timeoutActions)
  }

  function After(s: State, steps: seq<Step>, timeoutActions: seq<Action>): State
    requires IsRun(s, steps, timeoutActions)
    decreases |steps|
  {
    if steps == [] then s else After(Next(s, steps[0], timeoutActions), steps[1..], timeoutActions)
  }

  // ------------------------------------------------- the outcomes

  /** The whole of what the worker wrote, committed; and the worker did not panic. */
  ghost predicate WorkerResponse(s: State, below: Wire) {
    s.original == Committed(below, BufferRun(NEW_BUFFER, s.log)) &&
    s.worker.Ended? && s.panicked.None?
  }

  /** The whole of the timeout response and nothing else. */
  ghost predicate TimeoutResponse(s: State, below: Wire, timeoutActions: seq<Action>) {
    s.original == WireRun(below, timeoutActions) && s.expired
  }

  /** The writer as it was, and the worker's own panic raised again. */
  ghost predicate PanicRaised(s: State, below: Wire) {
    s.caller.Repanicked? && s.original == below && s.panicked == Some(s.caller.p)
  }

  // ------------------------------------------------- the invariant

  ghost predicate Writing(s: State, below: Wire, timeoutActions: seq<Action>) {
    match s.caller
    case HeadersDone(b) => s.original == CopiedHeaders(below, b.header)
    case StatusDone(b) => s.original == CopiedStatus(CopiedHeaders(below, b.header), b)
    case Answering(i) => i <= |timeoutActions| && s.original == WireRun(below, timeoutActions[..i])
    case Returned => WorkerResponse(s, below) || TimeoutResponse(s, below, timeoutActions)
    case _ => s.original == below
  }

  /** done is closed last, after a panic value is in the channel; nobody but the caller
      takes it out. */
  ghost predicate Channels(s: State) {
    (s.done <==> s.worker.Ended?) &&
    (s.worker.Running? ==> s.panicked.None?) &&
    (s.worker.Unwinding? ==> s.panicked.Some?) &&
    (s.panicChan.Some? ==> s.panicChan == s.panicked) &&
    (s.panicked.Some? && s.panicChan.None? ==> s.caller == Repanicked(s.panicked.value)) &&
    (s.caller.Repanicked? ==> s.panicked == Some(s.caller.p))
  }

  ghost predicate Committing(c: Caller) {
    c.BeforeCommit? || c.Snapshot? || c.HeadersDone? || c.StatusDone?
  }

  /** Past the poll the worker is gone without a panic, and the buffer stands still. */
  ghost predicate Progress(s: State) {
    (s.caller.DoneSeen? || Committing(s.caller) ==> s.worker.Ended?) &&
    (Committing(s.caller) ==> s.panicked.None?) &&
    (s.caller.Snapshot? || s.caller.HeadersDone? || s.caller.StatusDone? ==> s.caller.b == s.buffer) &&
    (s.caller.DeadlineSeen? || s.caller.Answering? ==> s.expired) &&
    (s.buffer.timedOut ==> s.caller.Answering? || s.caller.Returned?) &&
    (s.caller.Answering? ==> s.buffer.timedOut) &&
    (!s.buffer.timedOut ==> s.buffer == BufferRun(NEW_BUFFER, s.log))
  }

  ghost predicate Inv(s: State, below: Wire, timeoutActions: seq<Action>) {
    Writing(s, below, timeoutActions) && Channels(s) && Progress(s)
  }

  lemma RunOneMore(b: Buffer, log: seq<Action>, a: Action)
    ensures BufferRun(b, log + [a]) == BufferStep(BufferRun(b, log), a)
  {
    BufferRunSplit(b, log, [a]);
    assert [a][1..] == [];
  }

  lemma AnswerOneMore(w: Wire, actions: seq<Action>, i: nat)
    requires i < |actions|
    ensures WireRun(w, actions[..i + 1]) == WireStep(WireRun(w, actions[..i]), actions[i])
  {
    WireRunSplit(w, actions[..i], [actions[i]]);
    assert actions[..i + 1] == actions[..i] + [actions[i]] && [actions[i]][1..] == [];
  }

  lemma AnswerNothing(w: Wire, actions: seq<Action>)
    ensures WireRun(w, actions[..0]) == w && actions[..|actions|] == actions
  {
  }

  lemma TimedOutStays(b: Buffer, a: Action)
    ensures BufferStep(b, a).timedOut == b.timedOut
  {
  }

  lemma ChannelsKept(s: State, step: Step, timeoutActions: seq<Action>)
    requires Channels(s) && Progress(s) && Enabled(s, step, timeoutActions)
    ensures Channels(Next(s, step, timeoutActions))
  {
    hide BufferStep, WireStep, CopiedHeaders, CopiedStatus, CopiedBody;
  }

  lemma ProgressKept(s: State, step: Step, timeoutActions: seq<Action>)
    requires Channels(s) && Progress(s) && Enabled(s, step, timeoutActions)
    ensures Progress(Next(s, step, timeoutActions))
  {
    if step.WorkerActs? {
      RunOneMore(NEW_BUFFER, s.log, step.a);
      TimedOutStays(s.buffer, step.a);
    }
    hide BufferStep, BufferRun, WireStep, CopiedHeaders, CopiedStatus, CopiedBody;
  }

  lemma WritingKept(s: State, step: Step, below: Wire, timeoutActions: seq<Action>)
    requires Inv(s, below, timeoutActions) && Enabled(s, step, timeoutActions)
    ensures Writing(Next(s, step, timeoutActions), below, timeoutActions)
  {
    hide BufferStep, BufferRun, WireStep, WireRun, CopiedHeaders, CopiedStatus, CopiedBody;
    if step.AnswerTimeout? && s.caller.next < |timeoutActions| {
      AnswerOneMore(below, timeoutActions, s.caller.next);
    }
    AnswerNothing(below, timeoutActions);
  }

  lemma {:induction false} InvThroughout(s: State, steps: seq<Step>, below: Wire, timeoutActions: seq<Action>)
    requires Inv(s, below, timeoutActions) && IsRun(s, steps, timeoutActions)
    ensures Inv(After(s, steps, timeoutActions), below, timeoutActions)
    decreases |steps|
  {
    if steps != [] {
      ChannelsKept(s, steps[0], timeoutActions);
      ProgressKept(s, steps[0], timeoutActions);
      WritingKept(s, steps[0], below, timeoutActions);
      hide Enabled, Next, Writing, Channels, Progress;
      InvThroughout(Next(s, steps[0], timeoutActions), steps[1..], below, timeoutActions);
    }
  }

  lemma InitialInv(below: Wire, timeoutActions: seq<Action>)
    ensures Inv(Initial(below), below, timeoutActions)
  {
    assert WireRun(below, timeoutActions[..0]) == below;
  }

  // ------------------------------------------------- what every interleaving keeps

  /** Under every interleaving, when executeWithTimeout returns the writer holds exactly the
      worker's whole response or exactly the timeout response; when it panics the writer is
      untouched and the panic is the worker's. */
  lemma SingleResponse(below: Wire, steps: seq<Step>, timeoutActions: seq<Action>)
    requires IsRun(Initial(below), steps, timeoutActions)
    ensures var s := After(Initial(below), steps, timeoutActions);
            (s.caller.Returned? ==> WorkerResponse(s, below) || TimeoutResponse(s, below, timeoutActions)) &&
            (s.caller.Repanicked? ==> PanicRaised(s, below))
  {
    InitialInv(below, timeoutActions);
    InvThroughout(Initial(below), steps, below, timeoutActions);
  }

  /** From the moment the timeout response is begun the worker's writes fail: its buffer is
      marked, and no step of any run from there adds to its body. */
  lemma {:induction false} LateWritesFail(below: Wire, before: seq<Step>, s: State, steps: seq<Step>,
                                          timeoutActions: seq<Action>)
    requires IsRun(Initial(below), before, timeoutActions) && s == After(Initial(below), before, timeoutActions)
    requires s.caller.Answering? && IsRun(s, steps, timeoutActions)
    ensures s.buffer.timedOut
    ensures After(s, steps, timeoutActions).buffer.timedOut
    ensures After(s, steps, timeoutActions).buffer.body == s.buffer.body
  {
    InitialInv(below, timeoutActions);
    InvThroughout(Initial(below), before, below, timeoutActions);
    MarkStays(s, steps, timeoutActions);
  }

  lemma {:induction false} MarkStays(s: State, steps: seq<Step>, timeoutActions: seq<Action>)
    requires s.buffer.timedOut && IsRun(s, steps, timeoutActions)
    ensures After(s, steps, timeoutActions).buffer.timedOut
    ensures After(s, steps, timeoutActions).buffer.body == s.buffer.body
    decreases |steps|
  {
    if steps != [] {
      if steps[0].WorkerActs? {
        NoTextAfterTimeout(s.buffer, [steps[0].a]);
        assert [steps[0].a][1..] == [];
      }
      MarkStays(Next(s, steps[0], timeoutActions), steps[1..], timeoutActions);
    }
  }

  /** Once it has returned or panicked, nothing the worker goes on to do reaches the writer. */
  lemma {:induction false} NothingReachesTheWriterLater(s: State, steps: seq<Step>, timeoutActions: seq<Action>)
    requires IsRun(s, steps, timeoutActions) && (s.caller.Returned? || s.caller.Repanicked?)
    ensures After(s, steps, timeoutActions).original == s.original
    ensures After(s, steps, timeoutActions).caller == s.caller
    decreases |steps|
  {
    if steps != [] {
      NothingReachesTheWriterLater(Next(s, steps[0], timeoutActions), steps[1..], timeoutActions);
    }
  }

  /** A panicking worker is never taken for one that finished, and its send never blocks. */
  lemma PanicsAreNeverCommitted(below: Wire, steps: seq<Step>, timeoutActions: seq<Action>)
    requires IsRun(Initial(below), steps, timeoutActions)
    ensures var s := After(Initial(below), steps, timeoutActions);
            (s.worker.Running? ==> s.panicChan.None?) &&
            (s.panicked.Some? && s.caller.Returned? ==> TimeoutResponse(s, below, timeoutActions)) &&
            (Committing(s.caller) ==> s.panicked.None? && !s.buffer.timedOut)
  {
    InitialInv(below, timeoutActions);
    InvThroughout(Initial(below), steps, below, timeoutActions);
  }

  // ------------------------------------------------- all outcomes occur

  function Acting(actions: seq<Action>): seq<Step>
    decreases |actions|
  {
    if actions == [] then [] else [WorkerActs(actions[0])] + Acting(actions[1..])
  }

  function Answers(n: nat): seq<Step>
    decreases n
  {
    if n == 0 then [] else [AnswerTimeout] + Answers(n - 1)
  }

  lemma {:induction false} RunsJoin(s: State, xs: seq<Step>, ys: seq<Step>, timeoutActions: seq<Action>)
    requires IsRun(s, xs, timeoutActions) && IsRun(After(s, xs, timeoutActions), ys, timeoutActions)
    ensures IsRun(s, xs + ys, timeoutActions)
    ensures After(s, xs + ys, timeoutActions) == After(After(s, xs, timeoutActions), ys, timeoutActions)
    decreases |xs|
  {
    hide Next, Enabled;
    if xs == [] {
      assert xs + ys == ys;
    } else {
      assert (xs + ys)[1..] == xs[1..] + ys && (xs + ys)[0] == xs[0];
      RunsJoin(Next(s, xs[0], timeoutActions), xs[1..], ys, timeoutActions);
    }
  }

  function Acted(s: State, actions: seq<Action>): State {
    s.(buffer := BufferRun(s.buffer, actions), log := s.log + actions)
  }

  lemma ActStep(s: State, a: Action, rest: seq<Action>, timeoutActions: seq<Action>)
    requires s.worker.Running?
    ensures Enabled(s, WorkerActs(a), timeoutActions)
    ensures var next := Next(s, WorkerActs(a), timeoutActions);
            next.worker.Running? && Acted(next, rest) == Acted(s, [a] + rest)
    ensures Acted(s, []) == s
  {
    hide BufferStep;
    assert ([a] + rest)[1..] == rest;
    assert s.log + [a] + rest == s.log + ([a] + rest);
    assert s.log + [] == s.log;
  }

  lemma {:induction false} WorkerMayAct(s: State, actions: seq<Action>, timeoutActions: seq<Action>)
    requires s.worker.Running?
    ensures IsRun(s, Acting(actions), timeoutActions)
    ensures After(s, Acting(actions), timeoutActions) == Acted(s, actions)
    decreases |actions|
  {
    hide Next, Enabled, Acted;
    if actions == [] {
      ActStep(s, Flush, [], timeoutActions);
    } else {
      var a, rest := actions[0], actions[1..];
      ActStep(s, a, rest, timeoutActions);
      assert actions == [a] + rest && Acting(actions)[1..] == Acting(rest);
      WorkerMayAct(Next(s, WorkerActs(a), timeoutActions), rest, timeoutActions);
    }
  }

  lemma OneStep(s: State, step: Step, timeoutActions: seq<Action>)
    requires Enabled(s, step, timeoutActions)
    ensures IsRun(s, [step], timeoutActions) && After(s, [step], timeoutActions) == Next(s, step, timeoutActions)
  {
    assert [step][1..] == [];
    assert IsRun(Next(s, step, timeoutActions), [], timeoutActions);
  }

  lemma {:induction false} CallerMayAnswer(s: State, timeoutActions: seq<Action>)
    requires s.caller.Answering? && s.caller.next <= |timeoutActions|
    ensures var steps := Answers(|timeoutActions| - s.caller.next + 1);
            IsRun(s, steps, timeoutActions) && After(s, steps, timeoutActions).caller.Returned?
    decreases |timeoutActions| - s.caller.next
  {
    hide WireStep;
    var n := |timeoutActions| - s.caller.next;
    assert Answers(n + 1)[1..] == Answers(n);
    var next := Next(s, AnswerTimeout, timeoutActions);
    if n > 0 {
      CallerMayAnswer(next, timeoutActions);
    } else {
      assert IsRun(next, [], timeoutActions);
    }
  }

  /** Whatever the handler does, it may be done in time, and its response is committed ... */
  lemma InTimeOccurs(below: Wire, actions: seq<Action>, timeoutActions: seq<Action>) returns (steps: seq<Step>)
    ensures IsRun(Initial(below), steps, timeoutActions)
    ensures var s := After(Initial(below), steps, timeoutActions);
            s.caller.Returned? && s.log == actions && s.original == Committed(below, BufferRun(NEW_BUFFER, actions))
  {
    hide BufferStep, BufferRun, WireStep, WireRun, CopiedHeaders, CopiedStatus, CopiedBody, IsRun, After;
    var s0 := Initial(below);
    WorkerMayAct(s0, actions, timeoutActions);
    assert s0.log + actions == actions;
    NotMarked(NEW_BUFFER, actions);
    steps := FollowedBy(s0, Acting(actions), WorkerCloses, timeoutActions);
    steps := FollowedBy(s0, steps, TakeDone, timeoutActions);
    steps := FollowedBy(s0, steps, PollPanic, timeoutActions);
    steps := FollowedBy(s0, steps, LockBuffer, timeoutActions);
    steps := FollowedBy(s0, steps, CopyHeaders, timeoutActions);
    steps := FollowedBy(s0, steps, CopyStatus, timeoutActions);
    steps := FollowedBy(s0, steps, CopyBody, timeoutActions);
  }

  /** ... time may be up at any point before, and the timeout response is given ... */
  lemma LateOccurs(below: Wire, actions: seq<Action>, timeoutActions: seq<Action>) returns (steps: seq<Step>)
    ensures IsRun(Initial(below), steps, timeoutActions)
    ensures var s := After(Initial(below), steps, timeoutActions);
            s.caller.Returned? && s.log == actions && s.original == WireRun(below, timeoutActions)
  {
    hide BufferStep, BufferRun, WireStep, WireRun, IsRun, After;
    var s0 := Initial(below);
    WorkerMayAct(s0, actions, timeoutActions);
    assert s0.log + actions == actions;
    steps := FollowedBy(s0, Acting(actions), ContextEnds, timeoutActions);
    steps := FollowedBy(s0, steps, TakeDeadline, timeoutActions);
    steps := FollowedBy(s0, steps, MarkTimedOut, timeoutActions);
    var s := After(s0, steps, timeoutActions);
    CallerMayAnswer(s, timeoutActions);
    AnswersAre(s, timeoutActions);
    assert timeoutActions[0..] == timeoutActions;
    RunsJoin(s0, steps, Answers(|timeoutActions| + 1), timeoutActions);
    steps := steps + Answers(|timeoutActions| + 1);
  }

  /** ... and it may panic, with any value, and the panic is raised again. */
  lemma PanicOccurs(below: Wire, actions: seq<Action>, p: Panic, timeoutActions: seq<Action>)
    returns (steps: seq<Step>)
    ensures IsRun(Initial(below), steps, timeoutActions)
    ensures var s := After(Initial(below), steps, timeoutActions);
            s.caller == Repanicked(p) && s.log == actions && s.original == below
  {
    hide BufferStep, BufferRun, WireStep, WireRun, IsRun, After;
    var s0 := Initial(below);
    WorkerMayAct(s0, actions, timeoutActions);
    assert s0.log + actions == actions;
    steps := FollowedBy(s0, Acting(actions), WorkerPanics(p), timeoutActions);
    steps := FollowedBy(s0, steps, TakePanic, timeoutActions);
  }

  lemma FollowedBy(s: State, xs: seq<Step>, step: Step, timeoutActions: seq<Action>) returns (steps: seq<Step>)
    requires IsRun(s, xs, timeoutActions) && Enabled(After(s, xs, timeoutActions), step, timeoutActions)
    ensures IsRun(s, steps, timeoutActions)
    ensures After(s, steps, timeoutActions) == Next(After(s, xs, timeoutActions), step, timeoutActions)
  {
    OneStep(After(s, xs, timeoutActions), step, timeoutActions);
    RunsJoin(s, xs, [step], timeoutActions);
    steps := xs + [step];
  }

  lemma {:induction false} NotMarked(b: Buffer, actions: seq<Action>)
    requires !b.timedOut
    ensures !BufferRun(b, actions).timedOut
    decreases |actions|
  {
    if actions != [] {
      TimedOutStays(b, actions[0]);
      NotMarked(BufferStep(b, actions[0]), actions[1..]);
    }
  }

  /** Answering from the start writes the whole timeout response. */
  lemma {:induction false} AnswersAre(s: State, timeoutActions: seq<Action>)
    requires s.caller.Answering? && s.caller.next <= |timeoutActions|
    requires IsRun(s, Answers(|timeoutActions| - s.caller.next + 1), timeoutActions)
    ensures var t := After(s, Answers(|timeoutActions| - s.caller.next + 1), timeoutActions);
            t.original == WireRun(s.original, timeoutActions[s.caller.next..]) && t.log == s.log
    decreases |timeoutActions| - s.caller.next
  {
    hide WireStep;
    var n := |timeoutActions| - s.caller.next;
    assert Answers(n + 1)[1..] == Answers(n);
    var next := Next(s, AnswerTimeout, timeoutActions);
    if n > 0 {
      assert timeoutActions[s.caller.next..][1..] == timeoutActions[s.caller.next + 1..];
      AnswersAre(next, timeoutActions);
    } else {
      assert timeoutActions[s.caller.next..] == [];
      assert After(next, Answers(0), timeoutActions) == next;
    }
  }

  // ------------------------------------------------- the caller gets there

  predicate CallerStep(step: Step) {
    !step.WorkerActs? && !step.WorkerPanics? && !step.WorkerCloses? && !step.ContextEnds?
  }

  predicate Finished(s: State) {
    s.caller.Returned? || s.caller.Repanicked?
  }

  /** The caller always has a step to take once the worker is gone or time is up. */
  lemma NeverStuck(below: Wire, steps: seq<Step>, timeoutActions: seq<Action>) returns (step: Step)
    requires IsRun(Initial(below), steps, timeoutActions)
    requires var s := After(Initial(below), steps, timeoutActions);
             !Finished(s) && (s.worker.Ended? || s.expired)
    ensures CallerStep(step) && Enabled(After(Initial(below), steps, timeoutActions), step, timeoutActions)
  {
    InitialInv(below, timeoutActions);
    InvThroughout(Initial(below), steps, below, timeoutActions);
    var s := After(Initial(below), steps, timeoutActions);
    step := match s.caller
      case Selecting => if s.done then TakeDone else TakeDeadline
      case DoneSeen => PollPanic
      case BeforeCommit => LockBuffer
      case Snapshot(_) => CopyHeaders
      case HeadersDone(_) => CopyStatus
      case StatusDone(_) => CopyBody
      case DeadlineSeen => MarkTimedOut
      case Answering(_) => AnswerTimeout
      case Returned => AnswerTimeout
      case Repanicked(_) => AnswerTimeout;
  }

  /** How many steps the caller can still take. */
  function StepsLeft(c: Caller, n: nat): nat {
    match c
    case Selecting => n + 6
    case DoneSeen => 5
    case BeforeCommit => 4
    case Snapshot(_) => 3
    case HeadersDone(_) => 2
    case StatusDone(_) => 1
    case DeadlineSeen => n + 2
    case Answering(i) => if i <= n then n + 1 - i else 0
    case Returned => 0
    case Repanicked(_) => 0
  }

  function CallerSteps(steps: seq<Step>): nat
    decreases |steps|
  {
    if steps == [] then 0 else (if CallerStep(steps[0]) then 1 else 0) + CallerSteps(steps[1..])
  }

  /** Whatever the worker and the clock do in between, each step of the caller uses up at
      least one of those it has left, and nobody gives it more. */
  lemma {:induction false} CallerUsesUpSteps(s: State, steps: seq<Step>, timeoutActions: seq<Action>)
    requires IsRun(s, steps, timeoutActions)
    ensures CallerSteps(steps) + StepsLeft(After(s, steps, timeoutActions).caller, |timeoutActions|)
         <= StepsLeft(s.caller, |timeoutActions|)
    decreases |steps|
  {
    if steps != [] {
      OneStepLess(s, steps[0], timeoutActions);
      hide Next, Enabled, StepsLeft, CallerStep;
      CallerUsesUpSteps(Next(s, steps[0], timeoutActions), steps[1..], timeoutActions);
    }
  }

  lemma OneStepLess(s: State, step: Step, timeoutActions: seq<Action>)
    requires Enabled(s, step, timeoutActions)
    ensures StepsLeft(Next(s, step, timeoutActions).caller, |timeoutActions|) + (if CallerStep(step) then 1 else 0)
         <= StepsLeft(s.caller, |timeoutActions|)
  {
    hide BufferStep, WireStep, CopiedHeaders, CopiedStatus, CopiedBody;
  }

  /** In every run the caller takes at most six steps more than the timeout response has
      actions, and it has none left exactly when it has returned or panicked. */
  lemma CallerFinishes(below: Wire, steps: seq<Step>, timeoutActions: seq<Action>)
    requires IsRun(Initial(below), steps, timeoutActions)
    ensures CallerSteps(steps) <= |timeoutActions| + 6
    ensures CallerSteps(steps) == |timeoutActions| + 6 ==> Finished(After(Initial(below), steps, timeoutActions))
    ensures StepsLeft(After(Initial(below), steps, timeoutActions).caller, |timeoutActions|) == 0 <==>
            Finished(After(Initial(below), steps, timeoutActions))
  {
    CallerUsesUpSteps(Initial(below), steps, timeoutActions);
    InitialInv(below, timeoutActions);
    InvThroughout(Initial(below), steps, below, timeoutActions);
  }

  // ------------------------------------------------- end to end

  /** What the client gets is what the timeout handler alone would have sent, or comes from
      the whole of what the handler did; and then it is what the handler alone would have
      sent if and only if its actions are transparent. */
  lemma ClientSeesOneOfTwo(below: Wire, steps: seq<Step>, timeoutActions: seq<Action>)
    requires IsRun(Initial(below), steps, timeoutActions) && WireSane(below)
    requires After(Initial(below), steps, timeoutActions).caller.Returned?
    ensures var s := After(Initial(below), steps, timeoutActions);
            (TimeoutResponse(s, below, timeoutActions) && Delivered(s.original) == Direct(below, timeoutActions)) ||
            (WorkerResponse(s, below) && Delivered(s.original) == Buffered(below, s.log) &&
             (Delivered(s.original) == Direct(below, s.log) <==> Transparent(below, s.log)))
  {
    SingleResponse(below, steps, timeoutActions);
    var s := After(Initial(below), steps, timeoutActions);
    hide WireRun, BufferRun, Committed, Delivered, Transparent, Initial, After, IsRun;
    BufferingIsTransparentIff(below, s.log);
  }
}
