/** The job runner of jobs/jobs.go: workers that check, pull, wait, handle and fail while a caller
    may cancel at any time. Every interleaving is a trace of atomic steps. */
module Runner {
  import opened Wrappers

  /** Jobs and errors are opaque to the runner; a value stands for each. */
  type Job = int
  type Cause = int

  datatype ContextError = Canceled | DeadlineExceeded

  /** What a worker reports: the wrapped error of a Pull or of a Handle. */
  datatype Failure = PullJob(cause: Cause) | HandleJob(cause: Cause)

  datatype RunError = Failed(failure: Failure) | Stopped(reason: ContextError)

  /** What Pull returns. An error that wraps ErrNoJob is NoJob. */
  datatype PullResult = Got(job: Job) | NoJob | PullError(cause: Cause)

  // ---- configuration ----

  const DEFAULT_WORKERS := 1
  const MAX_WORKERS := 1024
  const MILLISECOND := 1_000_000
  const SECOND := 1000 * MILLISECOND
  const DEFAULT_IDLE_DELAY := SECOND
  const DEFAULT_JOB_TIMEOUT := 300 * SECOND
  const MAX_JOB_TIMEOUT := 86400 * SECOND

  datatype Config = Config(workers: int, idleDelay: int, jobTimeout: int)

  /** The check with which Run refuses an uninitialized runner. */
  predicate Runnable(config: Config) {
    && 1 <= config.workers <= MAX_WORKERS
    && 0 <= config.idleDelay
    && MILLISECOND <= config.jobTimeout <= MAX_JOB_TIMEOUT
  }

  /** New on a non-nil puller and handler: a runner is built exactly when its settings, zeros replaced by
      the defaults, pass the check with which Run begins. */
  function New(config: Config): (r: Option<Config>)
    ensures var c := Config(OrDefault(config.workers, DEFAULT_WORKERS),
                            OrDefault(config.idleDelay, DEFAULT_IDLE_DELAY),
                            OrDefault(config.jobTimeout, DEFAULT_JOB_TIMEOUT));
            && (r.Some? <==> Runnable(c))
            && (r.Some? ==> r.value == c)
  {
    var workers := OrDefault(config.workers, DEFAULT_WORKERS);
    var idleDelay := OrDefault(config.idleDelay, DEFAULT_IDLE_DELAY);
    var jobTimeout := OrDefault(config.jobTimeout, DEFAULT_JOB_TIMEOUT);
    if workers < 1 || workers > MAX_WORKERS then None
    else if idleDelay < 0 then None
    else if jobTimeout < MILLISECOND || jobTimeout > MAX_JOB_TIMEOUT then None
    else Some(Config(workers, idleDelay, jobTimeout))
  }

  // ---- states ----

  /** Where a worker's goroutine stands. */
  datatype Worker =
    | Checking                     // about to read runCtx.Err() at the top of the loop
    | ToPull                       // saw a live context
    | Pulling                      // inside Pull
    | Waiting                      // inside wait
    | ToHandle(job: Job)           // holds a pulled job
    | Handling(job: Job)           // inside Handle
    | Returned(failure: Failure)   // about to read runCtx.Err() after an error
    | Reporting(failure: Failure)  // saw a live context, about to enter failed.Do
    | Cancelling                   // inside failed.Do, the error recorded
    | Closing                      // inside failed.Do, the run context cancelled
    | Exited

  /** sync.Once: not entered, entered, or complete. */
  datatype Once = Fresh | Entered | Complete

  datatype State = State(
    workers: seq<Worker>,
    caller: Option<ContextError>,      // ctx.Err()
    runDone: bool,                     // runCtx.Err() != nil
    once: Once,
    runErr: Option<Failure>,
    result: Option<Option<RunError>>)  // what Run returned; the inner None is a nil error

  function Start(n: nat): State {
    State(seq(n, _ => Checking), None, false, Fresh, None, None)
  }

  // ---- steps ----

  datatype Move =
    | SeeLive
    | SeeDone
    | CallPull
    | PullReturns(pulled: PullResult)
    | TimerFires
    | CallHandle(job: Job)
    | HandleReturns(error: Option<Cause>)
    | Record(failure: Failure)
    | CancelRun
    | LeaveOnce
    | SkipOnce

  datatype Action = CallerCancels(reason: ContextError) | Propagate | Move(worker: nat, move: Move) | Return

  /** The worker after a move, or None when the move is not the one its code makes next. */
  function Moved(s: State, w: Worker, m: Move): Option<Worker> {
    match w
    case Checking =>
      if m == SeeLive && !s.runDone then Some(ToPull)
      else if m == SeeDone && s.runDone then Some(Exited) else None
    case ToPull => if m == CallPull then Some(Pulling) else None
    case Pulling =>
      if !m.PullReturns? then None
      else if m.pulled.Got? then Some(ToHandle(m.pulled.job))
      else if m.pulled.NoJob? then Some(Waiting)
      else Some(Returned(PullJob(m.pulled.cause)))
    case Waiting =>
      if m == TimerFires then Some(Checking)
      else if m == SeeDone && s.runDone then Some(Exited) else None
    case ToHandle(job) => if m == CallHandle(job) then Some(Handling(job)) else None
    case Handling(_) =>
      if !m.HandleReturns? then None
      else if m.error.None? then Some(Checking)
      else Some(Returned(HandleJob(m.error.value)))
    case Returned(failure) =>
      if m == SeeLive && !s.runDone then Some(Reporting(failure))
      else if m == SeeDone && s.runDone then Some(Exited) else None
    case Reporting(failure) =>
      if m == Record(failure) && s.once == Fresh then Some(Cancelling)
      else if m == SkipOnce && s.once == Complete then Some(Exited) else None
    case Cancelling => if m == CancelRun then Some(Closing) else None
    case Closing => if m == LeaveOnce then Some(Exited) else None
    case Exited => None
  }

  predicate AllExited(s: State) {
    forall i :: 0 <= i < |s.workers| ==> s.workers[i] == Exited
  }

  predicate Enabled(s: State, a: Action) {
    match a
    case CallerCancels(_) => s.caller.None?
    case Propagate => s.caller.Some? && !s.runDone
    case Move(w, m) => w < |s.workers| && Moved(s, s.workers[w], m).Some?
    case Return => AllExited(s) && s.result.None?
  }

  /** What Run returns once all workers are done. */
  function Outcome(s: State): Option<RunError> {
    if s.runErr.Some? then Some(Failed(s.runErr.value))
    else if s.caller.Some? then Some(Stopped(s.caller.value))
    else None
  }

  function Next(s: State, a: Action): State
    requires Enabled(s, a)
  {
    match a
    case CallerCancels(reason) => s.(caller := Some(reason))
    case Propagate => s.(runDone := true)
    case Return => s.(result := Some(Outcome(s)))
    case Move(w, m) =>
      var s1 := s.(workers := s.workers[w := Moved(s, s.workers[w], m).value]);
      match m
      case Record(failure) => s1.(once := Entered, runErr := Some(failure))
      case CancelRun => s1.(runDone := true)
      case LeaveOnce => s1.(once := Complete)
      case _ => s1
  }

  /** The state after a trace of n workers; None when a step of it is not enabled. */
  function Replay(n: nat, trace: seq<Action>): Option<State> {
    if trace == [] then Some(Start(n))
    else
      var last := |trace| - 1;
      match Replay(n, trace[..last])
      case None => None
      case Some(s) => if Enabled(s, trace[last]) then Some(Next(s, trace[last])) else None
  }

  // ---- what every run keeps ----

  predicate InOnce(w: Worker) {
    w.Cancelling? || w.Closing?
  }

  /** The Once cell: entered by one worker at a time, and an error is recorded from then on. */
  ghost predicate OnceInv(s: State) {
    && (s.once == Fresh <==> s.runErr.None?)
    && (s.once == Entered <==> exists i :: 0 <= i < |s.workers| && InOnce(s.workers[i]))
    && (forall i, j :: 0 <= i < |s.workers| && 0 <= j < |s.workers| && InOnce(s.workers[i]) && InOnce(s.workers[j]) ==>
          i == j)
  }

  /** Whoever has exited saw the run context done, and it is done for a reason. */
  ghost predicate DoneInv(s: State) {
    && (forall i :: 0 <= i < |s.workers| && s.workers[i].Exited? ==> s.runDone)
    && (forall i :: 0 <= i < |s.workers| && s.workers[i].Closing? ==> s.runDone)
    && (s.once == Complete ==> s.runDone)
    && (s.runDone ==> s.caller.Some? || s.runErr.Some?)
  }

  ghost predicate Inv(n: nat, s: State) {
    && |s.workers| == n
    && OnceInv(s)
    && DoneInv(s)
    && (s.result.Some? ==> AllExited(s) && s.result.value == Outcome(s))
  }

  lemma MoveKeepsOnce(n: nat, s: State, w: nat, m: Move)
    requires Inv(n, s) && Enabled(s, Move(w, m))
    ensures OnceInv(Next(s, Move(w, m)))
  {
    hide DoneInv;
    var s' := Next(s, Move(w, m));
    assert forall i :: 0 <= i < n && i != w ==> s'.workers[i] == s.workers[i];
    if s.once == Entered {
      var k :| 0 <= k < n && InOnce(s.workers[k]);
      assert InOnce(s'.workers[k]) || k == w;
    }
    assert InOnce(s'.workers[w]) || !InOnce(s'.workers[w]);
  }

  lemma MoveKeepsDone(n: nat, s: State, w: nat, m: Move)
    requires Inv(n, s) && Enabled(s, Move(w, m))
    ensures DoneInv(Next(s, Move(w, m)))
  {
    assert InOnce(s.workers[w]) ==> s.once == Entered;
  }

  lemma StepKeeps(n: nat, s: State, a: Action)
    requires n >= 1 && Inv(n, s) && Enabled(s, a)
    ensures Inv(n, Next(s, a))
  {
    match a
    case Move(w, m) =>
      MoveKeepsOnce(n, s, w, m);
      MoveKeepsDone(n, s, w, m);
      assert s.result.Some? ==> s.workers[w] == Exited;
      ExitedStays(s, m);
    case CallerCancels(_) =>
      assert AllExited(s) ==> s.workers[0].Exited?;
    case _ =>
  }

  lemma ExitedStays(s: State, m: Move)
    ensures Moved(s, Exited, m).None?
  {
  }

  lemma {:induction false} Reachable(n: nat, trace: seq<Action>)
    requires n >= 1
    ensures Replay(n, trace).Some? ==> Inv(n, Replay(n, trace).value)
  {
    hide Next, Enabled;
    if trace == [] {
    } else {
      var last := |trace| - 1;
      Reachable(n, trace[..last]);
      if Replay(n, trace).Some? {
        StepKeeps(n, Replay(n, trace[..last]).value, trace[last]);
      }
    }
  }

  lemma ReplayLast(n: nat, trace: seq<Action>)
    requires n >= 1 && trace != [] && Replay(n, trace).Some?
    ensures var last := |trace| - 1;
            && Replay(n, trace[..last]).Some?
            && Enabled(Replay(n, trace[..last]).value, trace[last])
            && Replay(n, trace).value == Next(Replay(n, trace[..last]).value, trace[last])
            && Inv(n, Replay(n, trace[..last]).value)
  {
    hide Next, Enabled, Inv;
    Reachable(n, trace[..|trace| - 1]);
  }

  // ---- the result of Run ----

  /** The failures recorded so far; there is never more than one. */
  function Recorded(trace: seq<Action>): seq<Failure> {
    if trace == [] then []
    else
      var last := trace[|trace| - 1];
      Recorded(trace[..|trace| - 1])
      + if last.Move? && last.move.Record? then [last.move.failure] else []
  }

  /** The failure with which a Pull or Handle call returns. */
  function FailureOf(m: Move): Option<Failure> {
    if m.PullReturns? && m.pulled.PullError? then Some(PullJob(m.pulled.cause))
    else if m.HandleReturns? && m.error.Some? then Some(HandleJob(m.error.value))
    else None
  }

  /** Step i of the trace is the return of a call of worker w that failed with f. */
  ghost predicate FailsAt(trace: seq<Action>, i: nat, w: nat, f: Failure) {
    i < |trace| && trace[i].Move? && trace[i].worker == w && FailureOf(trace[i].move) == Some(f)
  }

  /** Some call of w failed with f. */
  ghost predicate Faulted(trace: seq<Action>, w: nat, f: Failure) {
    exists i: nat :: FailsAt(trace, i, w, f)
  }

  /** Some call of w failed with f, and returned while the run context was still live. */
  ghost predicate RootCause(n: nat, trace: seq<Action>, w: nat, f: Failure) {
    exists i: nat :: FailsAt(trace, i, w, f) && LiveAfter(n, trace, i + 1)
  }

  /** The run context is live after the first i steps. */
  ghost predicate LiveAfter(n: nat, trace: seq<Action>, i: nat) {
    i <= |trace| && Replay(n, trace[..i]).Some? && !Replay(n, trace[..i]).value.runDone
  }

  /** What the trace says about the worker's program counter. */
  ghost predicate Explained(n: nat, trace: seq<Action>, w: nat, pc: Worker) {
    match pc
    case Returned(f) => Faulted(trace, w, f)
    case Reporting(f) => RootCause(n, trace, w, f)
    case _ => true
  }

  ghost predicate ResultInv(n: nat, trace: seq<Action>, s: State) {
    && (forall w :: 0 <= w < |s.workers| ==> Explained(n, trace, w, s.workers[w]))
    && (s.runErr.None? ==> Recorded(trace) == [])
    && (s.runErr.Some? ==>
          && Recorded(trace) == [s.runErr.value]
          && exists w :: 0 <= w < n && RootCause(n, trace, w, s.runErr.value))
  }

  lemma CauseStays(n: nat, trace: seq<Action>, a: Action, w: nat, f: Failure)
    ensures Faulted(trace, w, f) ==> Faulted(trace + [a], w, f)
    ensures RootCause(n, trace, w, f) ==> RootCause(n, trace + [a], w, f)
  {
    var more := trace + [a];
    if Faulted(trace, w, f) {
      var i: nat :| FailsAt(trace, i, w, f);
      assert FailsAt(more, i, w, f);
    }
    if RootCause(n, trace, w, f) {
      var i: nat :| FailsAt(trace, i, w, f) && LiveAfter(n, trace, i + 1);
      assert FailsAt(more, i, w, f) && more[..i + 1] == trace[..i + 1];
      assert LiveAfter(n, more, i + 1);
    }
  }

  /** A live run context was live all along. */
  lemma {:induction false} LiveBefore(n: nat, trace: seq<Action>, i: nat)
    requires LiveAfter(n, trace, |trace|) && i <= |trace|
    ensures LiveAfter(n, trace, i)
  {
    assert trace[..|trace|] == trace;
    if i < |trace| {
      var last := |trace| - 1;
      var earlier := trace[..last];
      assert earlier[..last] == earlier;
      LiveBefore(n, earlier, i);
      assert earlier[..i] == trace[..i];
    }
  }

  /** The worker that moves stays explained. */
  lemma MoverExplained(n: nat, trace: seq<Action>, s: State, w: nat, m: Move)
    requires Replay(n, trace) == Some(s) && w < |s.workers| && Enabled(s, Move(w, m))
    requires Explained(n, trace, w, s.workers[w])
    ensures Explained(n, trace + [Move(w, m)], w, Moved(s, s.workers[w], m).value)
  {
    var more := trace + [Move(w, m)];
    var after := Moved(s, s.workers[w], m).value;
    if after.Returned? {
      assert FailsAt(more, |trace|, w, after.failure);
    } else if after.Reporting? {
      var f := after.failure;
      var i: nat :| FailsAt(trace, i, w, f);
      assert trace[..|trace|] == trace;
      LiveBefore(n, trace, i + 1);
      assert RootCause(n, trace, w, f);
      CauseStays(n, trace, Move(w, m), w, f);
    }
  }

  lemma RecordedMore(trace: seq<Action>, a: Action)
    ensures Recorded(trace + [a]) == Recorded(trace) + if a.Move? && a.move.Record? then [a.move.failure] else []
  {
    assert (trace + [a])[..|trace|] == trace;
  }

  lemma ResultStep(n: nat, trace: seq<Action>, s: State, a: Action)
    requires n >= 1 && Replay(n, trace) == Some(s) && Inv(n, s) && Enabled(s, a) && ResultInv(n, trace, s)
    ensures ResultInv(n, trace + [a], Next(s, a))
  {
    hide Replay, Moved, Explained, RootCause, Recorded;
    var more, s' := trace + [a], Next(s, a);
    RecordedMore(trace, a);
    forall w | 0 <= w < |s'.workers|
      ensures Explained(n, more, w, s'.workers[w])
    {
      if a.Move? && a.worker == w {
        MoverExplained(n, trace, s, w, a.move);
      } else {
        ExplainedStays(n, trace, a, w, s.workers[w]);
      }
    }
    if a.Move? && a.move.Record? {
      RecordCause(n, trace, s, a.worker, a.move);
    } else if s.runErr.Some? {
      var w :| 0 <= w < n && RootCause(n, trace, w, s.runErr.value);
      CauseStays(n, trace, a, w, s.runErr.value);
    }
  }

  lemma ExplainedStays(n: nat, trace: seq<Action>, a: Action, w: nat, pc: Worker)
    requires Explained(n, trace, w, pc)
    ensures Explained(n, trace + [a], w, pc)
  {
    if pc.Returned? || pc.Reporting? {
      CauseStays(n, trace, a, w, pc.failure);
    }
  }

  /** Only a worker that reports can record, and the cell is fresh then. */
  lemma RecordCause(n: nat, trace: seq<Action>, s: State, w: nat, m: Move)
    requires Inv(n, s) && Enabled(s, Move(w, m)) && m.Record? && Explained(n, trace, w, s.workers[w])
    ensures s.runErr.None? && RootCause(n, trace + [Move(w, m)], w, m.failure)
  {
    CauseStays(n, trace, Move(w, m), w, m.failure);
  }

  lemma {:induction false} ResultReachable(n: nat, trace: seq<Action>)
    requires n >= 1 && Replay(n, trace).Some?
    ensures ResultInv(n, trace, Replay(n, trace).value)
  {
    if trace == [] {
    } else {
      ReplayLast(n, trace);
      var last := |trace| - 1;
      ResultReachable(n, trace[..last]);
      ResultStep(n, trace[..last], Replay(n, trace[..last]).value, trace[last]);
      assert trace[..last] + [trace[last]] == trace;
    }
  }

  /** When Run has returned, every worker has exited and the result is an error, never nil: the
      one failure that was recorded if there was one, and else the caller's own reason. */
  lemma RunResult(n: nat, trace: seq<Action>)
    requires n >= 1 && Replay(n, trace).Some? && Replay(n, trace).value.result.Some?
    ensures var s := Replay(n, trace).value;
            && AllExited(s)
            && s.result.value.Some?
            && |Recorded(trace)| <= 1
            && (Recorded(trace) != [] ==> s.result.value.value == Failed(Recorded(trace)[0]))
            && (Recorded(trace) == [] ==> s.caller.Some? && s.result.value.value == Stopped(s.caller.value))
  {
    Reachable(n, trace);
    ResultReachable(n, trace);
    assert Replay(n, trace).value.workers[0].Exited?;
  }

  /** A recorded failure is a root cause: the call of the worker that failed with it returned while
      the run context was live, so it is not the echo of a cancellation. */
  lemma FailureIsRootCause(n: nat, trace: seq<Action>)
    returns (w: nat, i: nat)
    requires n >= 1 && Replay(n, trace).Some? && Recorded(trace) != []
    ensures w < n && FailsAt(trace, i, w, Recorded(trace)[0])
    ensures Replay(n, trace[..i + 1]).Some? && !Replay(n, trace[..i + 1]).value.runDone
  {
    ResultReachable(n, trace);
    Reachable(n, trace);
    var f := Recorded(trace)[0];
    w :| 0 <= w < n && RootCause(n, trace, w, f);
    i :| FailsAt(trace, i, w, f) && LiveAfter(n, trace, i + 1);
  }

  // ---- jobs are neither lost nor handled twice ----

  function Pulled(trace: seq<Action>, w: nat): seq<Job> {
    if trace == [] then []
    else
      var last := trace[|trace| - 1];
      Pulled(trace[..|trace| - 1], w)
      + if last.Move? && last.worker == w && last.move.PullReturns? && last.move.pulled.Got?
        then [last.move.pulled.job] else []
  }

  /** The jobs that worker w handed to the handler, in order. */
  function Handed(trace: seq<Action>, w: nat): seq<Job> {
    if trace == [] then []
    else
      var last := trace[|trace| - 1];
      Handed(trace[..|trace| - 1], w)
      + if last.Move? && last.worker == w && last.move.CallHandle? then [last.move.job] else []
  }

  /** How many Handle calls of worker w have returned. */
  function Completed(trace: seq<Action>, w: nat): nat {
    if trace == [] then 0
    else
      var last := trace[|trace| - 1];
      Completed(trace[..|trace| - 1], w)
      + if last.Move? && last.worker == w && last.move.HandleReturns? then 1 else 0
  }

  /** Handed and Pulled of one worker, given where it stands. */
  ghost predicate Conserved(trace: seq<Action>, w: nat, pc: Worker) {
    && Pulled(trace, w) == Handed(trace, w) + (if pc.ToHandle? then [pc.job] else [])
    && |Handed(trace, w)| == Completed(trace, w) + (if pc.Handling? then 1 else 0)
    && (pc.Handling? ==> Handed(trace, w)[|Handed(trace, w)| - 1] == pc.job)
  }

  lemma ConservedStep(trace: seq<Action>, s: State, a: Action, w: nat)
    requires Enabled(s, a) && w < |s.workers| && Conserved(trace, w, s.workers[w])
    ensures Conserved(trace + [a], w, Next(s, a).workers[w])
  {
    assert (trace + [a])[..|trace|] == trace;
  }

  /** Every pulled job is handed to the handler exactly once and in order, by the worker that
      pulled it, whatever cancellation lands in between; what is pulled and not completed is what
      the worker holds. */
  lemma {:induction false} JobsConserved(n: nat, trace: seq<Action>, w: nat)
    requires n >= 1 && Replay(n, trace).Some? && w < n
    ensures |Replay(n, trace).value.workers| == n
    ensures Conserved(trace, w, Replay(n, trace).value.workers[w])
  {
    Reachable(n, trace);
    if trace != [] {
      ReplayLast(n, trace);
      var last := |trace| - 1;
      JobsConserved(n, trace[..last], w);
      ConservedStep(trace[..last], Replay(n, trace[..last]).value, trace[last], w);
      assert trace[..last] + [trace[last]] == trace;
    }
  }

  // ---- counting over the workers ----

  function Total(workers: seq<Worker>, f: Worker -> nat): nat {
    if workers == [] then 0 else f(workers[0]) + Total(workers[1..], f)
  }

  lemma {:induction false} TotalUpdate(workers: seq<Worker>, f: Worker -> nat, w: nat, pc: Worker)
    requires w < |workers|
    ensures Total(workers[w := pc], f) + f(workers[w]) == Total(workers, f) + f(pc)
  {
    var updated := workers[w := pc];
    if w == 0 {
      assert updated[1..] == workers[1..];
    } else {
      assert updated[1..] == workers[1..][w - 1 := pc];
      TotalUpdate(workers[1..], f, w - 1, pc);
    }
  }

  lemma {:induction false} TotalBound(workers: seq<Worker>, f: Worker -> nat, bound: nat)
    requires forall pc :: f(pc) <= bound
    ensures Total(workers, f) <= bound * |workers|
  {
    if workers != [] {
      TotalBound(workers[1..], f, bound);
      assert bound * |workers| == bound + bound * |workers[1..]|;
    }
  }

  /** How many jobs a worker holds. */
  function Held(pc: Worker): nat {
    if pc.ToHandle? || pc.Handling? then 1 else 0
  }

  function PullCount(trace: seq<Action>): nat {
    if trace == [] then 0
    else
      var last := trace[|trace| - 1];
      PullCount(trace[..|trace| - 1]) + if last.Move? && last.move.PullReturns? && last.move.pulled.Got? then 1 else 0
  }

  function HandleCount(trace: seq<Action>): nat {
    if trace == [] then 0
    else
      var last := trace[|trace| - 1];
      HandleCount(trace[..|trace| - 1]) + if last.Move? && last.move.HandleReturns? then 1 else 0
  }

  lemma HeldStep(s: State, a: Action)
    requires Enabled(s, a)
    ensures Total(Next(s, a).workers, Held) + (if a.Move? && a.move.HandleReturns? then 1 else 0)
            == Total(s.workers, Held) + (if a.Move? && a.move.PullReturns? && a.move.pulled.Got? then 1 else 0)
  {
    if a.Move? {
      TotalUpdate(s.workers, Held, a.worker, Moved(s, s.workers[a.worker], a.move).value);
    }
  }

  lemma {:induction false} HeldAtStart(n: nat)
    ensures Total(seq(n, _ => Checking), Held) == 0
  {
    var workers := seq(n, _ => Checking);
    if n > 0 {
      assert workers[1..] == seq(n - 1, _ => Checking);
      HeldAtStart(n - 1);
    }
  }

  /** In every reachable state the pulled jobs are the completed ones and the held ones, and at most
      as many as there are workers are held. */
  lemma {:induction false} JobCount(n: nat, trace: seq<Action>)
    requires n >= 1 && Replay(n, trace).Some?
    ensures var held := Total(Replay(n, trace).value.workers, Held);
            PullCount(trace) == HandleCount(trace) + held && held <= n
  {
    Reachable(n, trace);
    TotalBound(Replay(n, trace).value.workers, Held, 1);
    if trace == [] {
      HeldAtStart(n);
    } else {
      ReplayLast(n, trace);
      var last := |trace| - 1;
      JobCount(n, trace[..last]);
      HeldStep(Replay(n, trace[..last]).value, trace[last]);
    }
  }

  // ---- bounded drain ----

  /** How many moves a worker can still make once the run context is done. */
  function RankOf(pc: Worker): nat {
    match pc
    case ToPull => 5
    case Pulling => 4
    case ToHandle(_) => 3
    case Reporting(_) => 3
    case Handling(_) => 2
    case Waiting => 2
    case Cancelling => 2
    case Checking => 1
    case Returned(_) => 1
    case Closing => 1
    case Exited => 0
  }

  /** How many steps of any kind can still follow once the run context is done. */
  function Rank(s: State): nat {
    Total(s.workers, RankOf) + (if s.caller.None? then 1 else 0) + (if s.result.None? then 1 else 0)
  }

  lemma MoveRanks(s: State, pc: Worker, m: Move)
    requires s.runDone && Moved(s, pc, m).Some?
    ensures RankOf(Moved(s, pc, m).value) < RankOf(pc)
  {
  }

  /** Once the run context is done, every step lowers the rank, and it stays done. */
  lemma DrainStep(s: State, a: Action)
    requires s.runDone && Enabled(s, a)
    ensures Rank(Next(s, a)) < Rank(s) && Next(s, a).runDone
  {
    if a.Move? {
      MoveRanks(s, s.workers[a.worker], a.move);
      TotalUpdate(s.workers, RankOf, a.worker, Moved(s, s.workers[a.worker], a.move).value);
    }
  }

  lemma {:induction false} DrainSteps(n: nat, trace: seq<Action>, k: nat)
    requires Replay(n, trace).Some? && k <= |trace|
    requires Replay(n, trace[..k]).Some? && Replay(n, trace[..k]).value.runDone
    ensures Replay(n, trace).value.runDone
    ensures |trace| - k + Rank(Replay(n, trace).value) <= Rank(Replay(n, trace[..k]).value)
    decreases |trace|
  {
    if k == |trace| {
      assert trace[..k] == trace;
    } else {
      var last := |trace| - 1;
      assert trace[..last][..k] == trace[..k];
      DrainSteps(n, trace[..last], k);
      DrainStep(Replay(n, trace[..last]).value, trace[last]);
    }
  }

  /** After the run context is done, at most five moves of each worker, one cancellation by the
      caller and the return itself can follow. */
  lemma BoundedDrain(n: nat, trace: seq<Action>, k: nat)
    requires n >= 1 && Replay(n, trace).Some? && k <= |trace|
    requires Replay(n, trace[..k]).Some? && Replay(n, trace[..k]).value.runDone
    ensures |trace| - k <= 5 * n + 2
  {
    DrainSteps(n, trace, k);
    Reachable(n, trace[..k]);
    var s := Replay(n, trace[..k]).value;
    assert |s.workers| == n by { Sized(n, s); }
    TotalBound(s.workers, RankOf, 5);
  }

  lemma Sized(n: nat, s: State)
    requires Inv(n, s)
    ensures |s.workers| == n
  {
  }

  function PullCalls(trace: seq<Action>, w: nat): nat {
    if trace == [] then 0
    else
      var last := trace[|trace| - 1];
      PullCalls(trace[..|trace| - 1], w) + if last == Move(w, CallPull) then 1 else 0
  }

  function HandleCalls(trace: seq<Action>, w: nat): nat {
    if trace == [] then 0
    else
      var last := trace[|trace| - 1];
      HandleCalls(trace[..|trace| - 1], w) + if last.Move? && last.worker == w && last.move.CallHandle? then 1 else 0
  }

  /** How many Pull calls a worker can still start once the run context is done. */
  function PullsLeft(pc: Worker): nat {
    if pc.ToPull? then 1 else 0
  }

  function HandlesLeft(pc: Worker): nat {
    if pc.ToPull? || pc.Pulling? || pc.ToHandle? then 1 else 0
  }

  lemma CallsStep(s: State, a: Action, w: nat)
    requires s.runDone && Enabled(s, a) && w < |s.workers|
    ensures var pc, pc' := s.workers[w], Next(s, a).workers[w];
            && PullsLeft(pc') + (if a == Move(w, CallPull) then 1 else 0) <= PullsLeft(pc)
            && HandlesLeft(pc') + (if a.Move? && a.worker == w && a.move.CallHandle? then 1 else 0) <= HandlesLeft(pc)
  {
  }

  lemma {:induction false} CallsLeft(n: nat, trace: seq<Action>, k: nat, w: nat)
    requires n >= 1 && Replay(n, trace).Some? && k <= |trace| && w < n
    requires Replay(n, trace[..k]).Some? && Replay(n, trace[..k]).value.runDone
    ensures |Replay(n, trace).value.workers| == |Replay(n, trace[..k]).value.workers| == n
    ensures PullCalls(trace[k..], w) + PullsLeft(Replay(n, trace).value.workers[w])
            <= PullsLeft(Replay(n, trace[..k]).value.workers[w])
    ensures HandleCalls(trace[k..], w) + HandlesLeft(Replay(n, trace).value.workers[w])
            <= HandlesLeft(Replay(n, trace[..k]).value.workers[w])
    decreases |trace|
  {
    Reachable(n, trace);
    Reachable(n, trace[..k]);
    if k == |trace| {
      assert trace[..k] == trace;
    } else {
      var last := |trace| - 1;
      assert trace[..last][..k] == trace[..k];
      assert trace[k..][..|trace[k..]| - 1] == trace[..last][k..];
      CallsLeft(n, trace[..last], k, w);
      DrainSteps(n, trace[..last], k);
      Reachable(n, trace[..last]);
      CallsStep(Replay(n, trace[..last]).value, trace[last], w);
    }
  }

  /** After the run context is done, each worker starts at most one more Pull and one more Handle. */
  lemma OneMoreCall(n: nat, trace: seq<Action>, k: nat, w: nat)
    requires n >= 1 && Replay(n, trace).Some? && k <= |trace| && w < n
    requires Replay(n, trace[..k]).Some? && Replay(n, trace[..k]).value.runDone
    ensures PullCalls(trace[k..], w) <= 1 && HandleCalls(trace[k..], w) <= 1
  {
    CallsLeft(n, trace, k, w);
  }

  /** Until Run has returned, a drained run can always go on: some worker can move, whatever its
      Pull or Handle call returns, or Run can return. */
  lemma DrainProgress(n: nat, s: State, pulled: PullResult, error: Option<Cause>) returns (a: Action)
    requires n >= 1 && Inv(n, s) && s.runDone && s.result.None?
    ensures Enabled(s, a) && !a.CallerCancels?
  {
    if AllExited(s) {
      return Return;
    }
    var w: nat :| w < |s.workers| && s.workers[w] != Exited;
    if s.workers[w].Reporting? && s.once == Entered {
      w :| 0 <= w < |s.workers| && InOnce(s.workers[w]);
    }
    a := Move(w, NextMove(s, s.workers[w], pulled, error));
  }

  /** The move that a worker of a drained run makes next. */
  function NextMove(s: State, pc: Worker, pulled: PullResult, error: Option<Cause>): Move {
    match pc
    case ToPull => CallPull
    case Pulling => PullReturns(pulled)
    case ToHandle(job) => CallHandle(job)
    case Handling(_) => HandleReturns(error)
    case Reporting(failure) => if s.once == Fresh then Record(failure) else SkipOnce
    case Cancelling => CancelRun
    case Closing => LeaveOnce
    case _ => SeeDone
  }

  // ---- where a worker stands is what the trace says ----

  /** The last move of worker w. */
  function LastMove(trace: seq<Action>, w: nat): Option<Move> {
    if trace == [] then None
    else
      var last := trace[|trace| - 1];
      if last.Move? && last.worker == w then Some(last.move) else LastMove(trace[..|trace| - 1], w)
  }

  /** The failures with which calls of worker w returned. */
  function Failures(trace: seq<Action>, w: nat): seq<Failure> {
    if trace == [] then []
    else
      var last := trace[|trace| - 1];
      Failures(trace[..|trace| - 1], w)
      + if last.Move? && last.worker == w && FailureOf(last.move).Some? then [FailureOf(last.move).value] else []
  }

  /** Each place in the code has one last move that leads to it and is reached before or after the
      worker's one failure. */
  predicate Standing(pc: Worker, last: Option<Move>, failures: seq<Failure>) {
    match pc
    case Checking =>
      failures == [] && (last == None || last == Some(TimerFires) || last == Some(HandleReturns(None)))
    case ToPull => failures == [] && last == Some(SeeLive)
    case Pulling => failures == [] && last == Some(CallPull)
    case Waiting => failures == [] && last == Some(PullReturns(NoJob))
    case ToHandle(job) => failures == [] && last == Some(PullReturns(Got(job)))
    case Handling(job) => failures == [] && last == Some(CallHandle(job))
    case Returned(f) => failures == [f] && last.Some? && FailureOf(last.value) == Some(f)
    case Reporting(f) => failures == [f] && last == Some(SeeLive)
    case Cancelling => |failures| == 1 && last == Some(Record(failures[0]))
    case Closing => |failures| == 1 && last == Some(CancelRun)
    case Exited =>
      || (|failures| <= 1 && last == Some(SeeDone))
      || (|failures| == 1 && (last == Some(LeaveOnce) || last == Some(SkipOnce)))
  }

  lemma HistoryMore(trace: seq<Action>, a: Action, w: nat)
    ensures var mine := a.Move? && a.worker == w;
            && LastMove(trace + [a], w) == (if mine then Some(a.move) else LastMove(trace, w))
            && Failures(trace + [a], w)
               == Failures(trace, w)
                  + if mine && FailureOf(a.move).Some? then [FailureOf(a.move).value] else []
  {
    assert (trace + [a])[..|trace|] == trace;
  }

  lemma StandingStep(s: State, pc: Worker, m: Move, last: Option<Move>, failures: seq<Failure>)
    requires Moved(s, pc, m).Some? && Standing(pc, last, failures)
    ensures Standing(Moved(s, pc, m).value, Some(m),
                     failures + if FailureOf(m).Some? then [FailureOf(m).value] else [])
  {
    assert failures + [] == failures;
  }

  /** In every reachable state each worker stands where its last move and its failures say. */
  lemma {:induction false} StandsByTrace(n: nat, trace: seq<Action>, w: nat)
    requires n >= 1 && Replay(n, trace).Some? && w < n
    ensures |Replay(n, trace).value.workers| == n
    ensures Standing(Replay(n, trace).value.workers[w], LastMove(trace, w), Failures(trace, w))
  {
    hide Moved, Standing, FailureOf, LastMove, Failures;
    Reachable(n, trace);
    if trace == [] {
      StandingAtStart(w);
    } else {
      ReplayLast(n, trace);
      var last := |trace| - 1;
      var earlier, a, s := trace[..last], trace[last], Replay(n, trace[..last]).value;
      StandsByTrace(n, earlier, w);
      HistoryMore(earlier, a, w);
      assert earlier + [a] == trace;
      if a.Move? && a.worker == w {
        StandingStep(s, s.workers[w], a.move, LastMove(earlier, w), Failures(earlier, w));
      } else {
        assert Failures(earlier, w) + [] == Failures(earlier, w);
      }
    }
  }

  lemma StandingAtStart(w: nat)
    ensures Standing(Checking, LastMove([], w), Failures([], w))
  {
  }

  lemma {:induction false} FailsCounts(trace: seq<Action>, i: nat, w: nat, f: Failure)
    requires FailsAt(trace, i, w, f)
    ensures Failures(trace, w) != []
  {
    var last := |trace| - 1;
    if i < last {
      assert FailsAt(trace[..last], i, w, f);
      FailsCounts(trace[..last], i, w, f);
    }
  }

  /** A failing call stops its worker: it starts no other Pull and no Handle. */
  lemma {:induction false} FailureStops(n: nat, trace: seq<Action>, i: nat, w: nat, f: Failure)
    requires n >= 1 && Replay(n, trace).Some? && w < n && FailsAt(trace, i, w, f)
    ensures PullCalls(trace[i + 1..], w) == 0 && HandleCalls(trace[i + 1..], w) == 0
    decreases |trace|
  {
    hide Replay, Next, Failures, LastMove, FailureOf;
    var last := |trace| - 1;
    if i < last {
      ReplayLast(n, trace);
      var earlier, a := trace[..last], trace[last];
      assert FailsAt(earlier, i, w, f);
      FailureStops(n, earlier, i, w, f);
      FailsCounts(earlier, i, w, f);
      StandsByTrace(n, earlier, w);
      assert trace[i + 1..][..|trace[i + 1..]| - 1] == earlier[i + 1..];
    }
  }

  /** Step j of the trace is worker w leaving because it saw the run context done, as it was. */
  ghost predicate SawDoneAt(n: nat, trace: seq<Action>, j: nat, w: nat) {
    && j < |trace| && trace[j] == Move(w, SeeDone)
    && Replay(n, trace[..j]).Some? && Replay(n, trace[..j]).value.runDone
  }

  lemma {:induction false} PrefixEnabled(n: nat, trace: seq<Action>, j: nat)
    requires n >= 1 && Replay(n, trace).Some? && j < |trace|
    ensures Replay(n, trace[..j]).Some? && Enabled(Replay(n, trace[..j]).value, trace[j])
    decreases |trace|
  {
    hide Replay, Next, Enabled;
    ReplayLast(n, trace);
    var last := |trace| - 1;
    if j < last {
      PrefixEnabled(n, trace[..last], j);
      assert trace[..last][..j] == trace[..j];
    }
  }

  lemma {:induction false} LastMoveAt(trace: seq<Action>, w: nat) returns (j: nat)
    requires LastMove(trace, w).Some?
    ensures j < |trace| && trace[j] == Move(w, LastMove(trace, w).value)
    ensures forall k :: j < k < |trace| && trace[k].Move? ==> trace[k].worker != w
  {
    j := |trace| - 1;
    if !(trace[j].Move? && trace[j].worker == w) {
      j := LastMoveAt(trace[..|trace| - 1], w);
    }
  }

  lemma RecordingStays(s: State, a: Action)
    requires Enabled(s, a) && s.runErr.Some?
    ensures Next(s, a).runErr.Some?
  {
  }

  lemma OnceHasRecorded(n: nat, s: State, w: nat, m: Move)
    requires Inv(n, s) && Enabled(s, Move(w, m)) && (m == LeaveOnce || m == SkipOnce)
    ensures s.runErr.Some?
  {
    hide DoneInv;
    assert m == LeaveOnce ==> InOnce(s.workers[w]);
  }

  lemma {:induction false} ReportedIsRecorded(n: nat, trace: seq<Action>, w: nat)
    requires n >= 1 && Replay(n, trace).Some?
    requires LastMove(trace, w) == Some(LeaveOnce) || LastMove(trace, w) == Some(SkipOnce)
    ensures Replay(n, trace).value.runErr.Some?
  {
    hide Replay, Next, Enabled, Inv;
    ReplayLast(n, trace);
    var last := |trace| - 1;
    var s, a := Replay(n, trace[..last]).value, trace[last];
    if a.Move? && a.worker == w {
      OnceHasRecorded(n, s, w, a.move);
    } else {
      ReportedIsRecorded(n, trace[..last], w);
    }
    RecordingStays(s, a);
  }

  /** A failing call is not lost: once Run has returned, a failure is recorded, and is what Run returned,
      or the worker saw that the run context was done by then. */
  lemma FailureIsNotLost(n: nat, trace: seq<Action>, i: nat, w: nat, f: Failure)
    requires n >= 1 && Replay(n, trace).Some? && Replay(n, trace).value.result.Some?
    requires w < n && FailsAt(trace, i, w, f)
    ensures || (Recorded(trace) != [] && Replay(n, trace).value.result.value == Some(Failed(Recorded(trace)[0])))
            || exists j :: i < j && SawDoneAt(n, trace, j, w)
  {
    hide Replay, Enabled, Failures, LastMove;
    RunResult(n, trace);
    ResultReachable(n, trace);
    StandsByTrace(n, trace, w);
    FailsCounts(trace, i, w, f);
    if LastMove(trace, w) == Some(SeeDone) {
      var j := LastMoveAt(trace, w);
      PrefixEnabled(n, trace, j);
      SeesDone(Replay(n, trace[..j]).value, w);
      assert SawDoneAt(n, trace, j, w);
    } else {
      ReportedIsRecorded(n, trace, w);
    }
  }

  lemma SeesDone(s: State, w: nat)
    requires Enabled(s, Move(w, SeeDone))
    ensures s.runDone
  {
  }

  // ---- waiting ----

  /** A worker that found no job is waiting or has exited, unless its timer has fired since. */
  ghost predicate Resting(trace: seq<Action>, i: nat, w: nat, pc: Worker) {
    pc.Waiting? || pc.Exited? || exists k :: i < k < |trace| && trace[k] == Move(w, TimerFires)
  }

  lemma RestingStep(s: State, trace: seq<Action>, a: Action, i: nat, w: nat)
    requires Enabled(s, a) && w < |s.workers| && i < |trace| && Resting(trace, i, w, s.workers[w])
    ensures Resting(trace + [a], i, w, Next(s, a).workers[w])
  {
    var more := trace + [a];
    if k :| i < k < |trace| && trace[k] == Move(w, TimerFires) {
      assert more[k] == Move(w, TimerFires);
    } else if a == Move(w, TimerFires) {
      assert more[|trace|] == a;
    }
  }

  lemma {:induction false} RestsUntilTimer(n: nat, trace: seq<Action>, i: nat, w: nat)
    requires n >= 1 && Replay(n, trace).Some? && w < n
    requires i < |trace| && trace[i] == Move(w, PullReturns(NoJob))
    ensures |Replay(n, trace).value.workers| == n
    ensures Resting(trace, i, w, Replay(n, trace).value.workers[w])
    decreases |trace|
  {
    hide Replay, Next, Enabled, Resting;
    Reachable(n, trace);
    ReplayLast(n, trace);
    var last := |trace| - 1;
    var s, a := Replay(n, trace[..last]).value, trace[last];
    if i < last {
      RestsUntilTimer(n, trace[..last], i, w);
      RestingStep(s, trace[..last], a, i, w);
      assert trace[..last] + [a] == trace;
    } else {
      NoJobWaits(s, w);
      NowResting(trace, i, w);
    }
  }

  lemma NoJobWaits(s: State, w: nat)
    requires Enabled(s, Move(w, PullReturns(NoJob)))
    ensures Next(s, Move(w, PullReturns(NoJob))).workers[w] == Waiting
  {
  }

  lemma NowResting(trace: seq<Action>, i: nat, w: nat)
    ensures Resting(trace, i, w, Waiting)
  {
  }

  /** The idle delay: between a Pull that finds no job and the worker's next Pull its timer fires, and
      timers fire at no other time. */
  lemma IdleDelay(n: nat, trace: seq<Action>, i: nat, j: nat, w: nat)
    requires n >= 1 && Replay(n, trace).Some? && w < n && j < |trace|
    ensures i < j && trace[i] == Move(w, PullReturns(NoJob)) && trace[j] == Move(w, CallPull) ==>
              exists k :: i < k < j && trace[k] == Move(w, TimerFires)
    ensures trace[j] == Move(w, TimerFires) ==> LastMove(trace[..j], w) == Some(PullReturns(NoJob))
  {
    hide Replay, LastMove, Failures;
    PrefixEnabled(n, trace, j);
    StandsByTrace(n, trace[..j], w);
    if i < j && trace[i] == Move(w, PullReturns(NoJob)) && trace[j] == Move(w, CallPull) {
      RestsUntilTimer(n, trace[..j], i, w);
      var k :| i < k < j && trace[..j][k] == Move(w, TimerFires);
      assert trace[k] == Move(w, TimerFires);
    }
  }

  /** No worker is stuck: in every reachable state one that has not exited can move, whatever its Pull
      or Handle call returns, unless another one is inside the error cell. */
  lemma WorkerCanMove(s: State, w: nat, pulled: PullResult, error: Option<Cause>) returns (m: Move)
    requires w < |s.workers| && s.workers[w] != Exited && !(s.workers[w].Reporting? && s.once == Entered)
    ensures Enabled(s, Move(w, m))
    ensures s.workers[w].Pulling? ==> m == PullReturns(pulled)
    ensures s.workers[w].Handling? ==> m == HandleReturns(error)
  {
    var pc := s.workers[w];
    m := if s.runDone then NextMove(s, pc, pulled, error)
         else if pc.Checking? || pc.Returned? then SeeLive
         else if pc.Waiting? then TimerFires
         else NextMove(s, pc, pulled, error);
  }

  // ---- one run, executed ----

  lemma ReplayMore(n: nat, trace: seq<Action>, a: Action)
    requires n >= 1 && Replay(n, trace).Some? && Enabled(Replay(n, trace).value, a)
    ensures Replay(n, trace + [a]) == Some(Next(Replay(n, trace).value, a))
    ensures Inv(n, Replay(n, trace).value)
  {
    hide Next, Enabled, Inv;
    assert (trace + [a])[..|trace|] == trace;
    Reachable(n, trace);
  }

  /** What the environment answers when a worker is scheduled: what its Pull or Handle call
      returns and, if it waits, whether its timer fires before it sees the context. */
  datatype Turn = Turn(worker: nat, pulled: PullResult, error: Option<Cause>, timer: bool)

  /** What can happen while Run waits: a worker is scheduled, the caller's context ends, or its end
      reaches the run context. */
  datatype Happening = Scheduled(turn: Turn) | CallerDone(reason: ContextError) | Spreads

  /** The move of a scheduled worker; None if it has exited or is blocked on the Once. */
  function TurnMove(s: State, pc: Worker, turn: Turn): Option<Move> {
    match pc
    case Exited => None
    case Checking => Some(if s.runDone then SeeDone else SeeLive)
    case Returned(_) => Some(if s.runDone then SeeDone else SeeLive)
    case Waiting => if s.runDone && !turn.timer then Some(SeeDone) else if turn.timer then Some(TimerFires) else None
    case Reporting(_) => if s.once == Entered then None else Some(NextMove(s, pc, turn.pulled, turn.error))
    case _ => Some(NextMove(s, pc, turn.pulled, turn.error))
  }

  /** The shared variables of one call of Run and the goroutines it started. `trace` records the
      steps; the fields are always the state that those steps lead to. */
  class Execution {
    const n: nat
    const workers: array<Worker>
    var caller: Option<ContextError>
    var runDone: bool
    var once: Once
    var runErr: Option<Failure>
    var result: Option<Option<RunError>>
    ghost var trace: seq<Action>

    ghost function Snapshot(): State
      reads this, workers
    {
      State(workers[..], caller, runDone, once, runErr, result)
    }

    ghost predicate Valid()
      reads this, workers
    {
      n >= 1 && workers.Length == n && Replay(n, trace) == Some(Snapshot())
    }

    constructor (config: Config)
      requires Runnable(config)
      ensures Valid() && trace == [] && n == config.workers && result.None? && fresh(workers)
    {
      n := config.workers;
      var pcs := new Worker[config.workers](_ => Checking);
      workers := pcs;
      caller, runDone, once, runErr, result := None, false, Fresh, None, None;
      trace := [];
      new;
      assert workers[..] == seq(n, _ => Checking);
    }

    /** The next atomic statement of one worker's goroutine. */
    method Advance(turn: Turn) returns (moved: bool)
      requires Valid() && turn.worker < n
      modifies this, workers
      ensures Valid() && caller == old(caller) && result == old(result)
      ensures var m := TurnMove(old(Snapshot()), old(workers[turn.worker]), turn);
              && moved == m.Some?
              && trace == old(trace) + (if moved then [Move(turn.worker, m.value)] else [])
              && (moved ==> Enabled(old(Snapshot()), Move(turn.worker, m.value))
                            && Snapshot() == Next(old(Snapshot()), Move(turn.worker, m.value)))
      ensures !moved ==> Snapshot() == old(Snapshot())
    {
      hide Replay, Inv, AllExited, Outcome;
      var w := turn.worker;
      var pc := workers[w];
      var m := TurnMoveNow(pc, turn);
      if m.None? {
        assert trace == trace + [];
        return false;
      }
      TurnEnabled(Snapshot(), w, turn);
      ReplayMore(n, trace, Move(w, m.value));
      var next;
      match m.value {
        case SeeLive =>
          next := if pc.Returned? then Reporting(pc.failure) else ToPull;
        case SeeDone =>
          next := Exited;
        case CallPull =>
          next := Pulling;
        case PullReturns(Got(job)) =>
          next := ToHandle(job);
        case PullReturns(NoJob) =>
          next := Waiting;
        case PullReturns(PullError(cause)) =>
          next := Returned(PullJob(cause));
        case TimerFires =>
          next := Checking;
        case CallHandle(job) =>
          next := Handling(job);
        case HandleReturns(None) =>
          next := Checking;
        case HandleReturns(Some(cause)) =>
          next := Returned(HandleJob(cause));
        case Record(failure) =>
          next := Cancelling;
          runErr, once := Some(failure), Entered;
        case CancelRun =>
          next := Closing;
          runDone := true;
        case LeaveOnce =>
          next := Exited;
          once := Complete;
        case SkipOnce =>
          next := Exited;
      }
      workers[w] := next;
      trace := trace + [Move(w, m.value)];
      return true;
    }

    method Cancel(reason: ContextError)
      requires Valid() && caller.None?
      modifies this
      ensures Valid() && trace == old(trace) + [CallerCancels(reason)]
      ensures caller == Some(reason) && runDone == old(runDone) && result == old(result)
    {
      ReplayMore(n, trace, CallerCancels(reason));
      caller := Some(reason);
      trace := trace + [CallerCancels(reason)];
    }

    /** The caller's cancellation reaches the run context. */
    method PropagateCancel()
      requires Valid() && caller.Some? && !runDone
      modifies this
      ensures Valid() && trace == old(trace) + [Propagate]
      ensures caller == old(caller) && runDone && result == old(result)
    {
      ReplayMore(n, trace, Propagate);
      runDone := true;
      trace := trace + [Propagate];
    }

    /** Lets workers and caller act in the given order, has the caller cancel if the run context is
        still live then, and waits for the workers, whose remaining calls answer arbitrarily. The wait
        always ends. */
    method Run(schedule: seq<Happening>, reason: ContextError) returns (err: RunError)
      requires Valid() && result.None? && trace == []
      modifies this, workers
      ensures Valid() && result == Some(Some(err)) && AllExited(Snapshot())
      ensures |Recorded(trace)| <= 1
      ensures Recorded(trace) != [] ==> err == Failed(Recorded(trace)[0])
      ensures Recorded(trace) == [] ==> caller.Some? && err == Stopped(caller.value)
    {
      hide Replay, Inv, Moved, Recorded;
      for i := 0 to |schedule|
        invariant Valid() && result.None?
      {
        match schedule[i]
        case Scheduled(turn) =>
          if turn.worker < n {
            var _ := Advance(turn);
          }
        case CallerDone(why) =>
          if caller.None? {
            Cancel(why);
          }
        case Spreads =>
          if caller.Some? && !runDone {
            PropagateCancel();
          }
      }
      if !runDone {
        if caller.None? {
          Cancel(reason);
        }
        PropagateCancel();
      }
      Drain();
      ReplayMore(n, trace, Return);
      var outcome := if runErr.Some? then Some(Failed(runErr.value))
                     else if caller.Some? then Some(Stopped(caller.value))
                     else None;
      result := Some(outcome);
      trace := trace + [Return];
      RunResult(n, trace);
      err := outcome.value;
    }

    /** workers.Wait() once the run context is done. */
    method Drain()
      requires Valid() && runDone && result.None?
      modifies this, workers
      ensures Valid() && runDone && result.None? && AllExited(Snapshot()) && caller == old(caller)
    {
      hide Replay, Inv, Moved, TurnMove, Next, Enabled, Rank;
      while exists w :: 0 <= w < n && workers[w] != Exited
        invariant Valid() && runDone && result.None? && caller == old(caller)
        decreases Rank(Snapshot())
      {
        var w: nat :| w < n && workers[w] != Exited;
        if workers[w].Reporting? && once == Entered {
          HolderExists(n, trace);
          w :| 0 <= w < n && InOnce(workers[w]);
        }
        var pulled: PullResult, error: Option<Cause> := *, *;
        var turn := Turn(w, pulled, error, false);
        ghost var before := Snapshot();
        NotBlocked(before, turn);
        var moved := Advance(turn);
        DrainStep(before, Move(w, TurnMove(before, before.workers[w], turn).value));
      }
    }

    function TurnMoveNow(pc: Worker, turn: Turn): (m: Option<Move>)
      reads this, workers
      ensures m == TurnMove(Snapshot(), pc, turn)
    {
      TurnMove(State([], caller, runDone, once, runErr, result), pc, turn)
    }
  }

  lemma NotBlocked(s: State, turn: Turn)
    requires s.runDone && turn.worker < |s.workers| && s.workers[turn.worker] != Exited
    requires !(s.workers[turn.worker].Reporting? && s.once == Entered) && !turn.timer
    ensures TurnMove(s, s.workers[turn.worker], turn).Some?
  {
  }

  lemma HolderExists(n: nat, trace: seq<Action>)
    requires n >= 1 && Replay(n, trace).Some? && Replay(n, trace).value.once == Entered
    ensures exists i :: 0 <= i < |Replay(n, trace).value.workers| && InOnce(Replay(n, trace).value.workers[i])
  {
    Reachable(n, trace);
  }

  lemma TurnEnabled(s: State, w: nat, turn: Turn)
    requires w < |s.workers| && TurnMove(s, s.workers[w], turn).Some?
    ensures Enabled(s, Move(w, TurnMove(s, s.workers[w], turn).value))
  {
  }
}
