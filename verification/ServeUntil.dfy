/**
 * The shutdown handshake of serveUntil in bootstrap.go: the serving thread, the shutdown
 * goroutine, the cancellable context and the shutdownDone channel between them.
 */
module ServeUntil {
  import opened Wrappers

  datatype ServeError = ErrServerClosed | OtherError(code: int)

  /** The serving thread: in Serve, past Serve, past cancel, past the wait on shutdownDone. */
  datatype Main = Serving | Served(err: ServeError) | Waiting(err: ServeError) | Returned(result: Option<ServeError>)

  /** The goroutine: waiting for the context, inside Shutdown, past Shutdown, past the deferred close. */
  datatype Helper = AwaitingDone | ShuttingDown | ShutDown | Finished

  datatype State = State(main: Main, helper: Helper, ctxDone: bool, doneClosed: bool)

  const START := State(Serving, AwaitingDone, false, false)

  datatype Step =
    | Signal                        // the parent context ends
    | ServeReturns(err: ServeError) // Serve comes back
    | Cancel                        // cancel()
    | Receive                       // <-shutdownDone, and the return
    | Wake                          // <-ctx.Done()
    | ShutdownReturns               // drained or timed out
    | CloseDone                     // the deferred close

  predicate Enabled(s: State, step: Step) {
    match step
    case Signal => !s.ctxDone
    // Serve answers ErrServerClosed only once Shutdown has been called; any other error may come at any time
    case ServeReturns(err) => s.main.Serving? && (err.ErrServerClosed? ==> s.helper != AwaitingDone)
    case Cancel => s.main.Served?
    case Receive => s.main.Waiting? && s.doneClosed
    case Wake => s.helper.AwaitingDone? && s.ctxDone
    case ShutdownReturns => s.helper.ShuttingDown?
    case CloseDone => s.helper.ShutDown?
  }

  function Next(s: State, step: Step): State
    requires Enabled(s, step)
  {
    match step
    case Signal => s.(ctxDone := true)
    case ServeReturns(err) => s.(main := Served(err))
    case Cancel => s.(main := Waiting(s.main.err), ctxDone := true)
    case Receive => s.(main := Returned(if s.main.err == ErrServerClosed then None else Some(s.main.err)))
    case Wake => s.(helper := ShuttingDown)
    case ShutdownReturns => s.(helper := ShutDown)
    case CloseDone => s.(helper := Finished, doneClosed := true)
  }

  predicate CanRun(s: State, steps: seq<Step>)
    decreases |steps|
  {
    steps == [] || (Enabled(s, steps[0]) && CanRun(Next(s, steps[0]), steps[1..]))
  }

  function Run(s: State, steps: seq<Step>): State
    requires CanRun(s, steps)
    decreases |steps|
  {
    if steps == [] then s else Run(Next(s, steps[0]), steps[1..])
  }

  ghost predicate Inv(s: State) {
    && (s.doneClosed <==> s.helper.Finished?)
    && (s.helper != AwaitingDone ==> s.ctxDone)
    && (s.main.Waiting? || s.main.Returned? ==> s.ctxDone)
    && (s.main.Returned? ==> s.helper.Finished?)
    && ((s.main.Served? || s.main.Waiting?) && s.main.err.ErrServerClosed? ==> s.helper != AwaitingDone)
    && (s.main.Returned? && s.main.result.Some? ==> !s.main.result.value.ErrServerClosed?)
  }

  lemma StepKeepsInv(s: State, step: Step)
    requires Inv(s) && Enabled(s, step)
    ensures Inv(Next(s, step))
  {
  }

  lemma {:induction false} RunKeepsInv(s: State, steps: seq<Step>)
    requires Inv(s) && CanRun(s, steps)
    ensures Inv(Run(s, steps))
    decreases |steps|
  {
    if steps != [] {
      StepKeepsInv(s, steps[0]);
      RunKeepsInv(Next(s, steps[0]), steps[1..]);
    }
  }

  /** What Serve answered in a run, if it came back. */
  function ServeAnswer(steps: seq<Step>): Option<ServeError> {
    if steps == [] then None
    else if steps[0].ServeReturns? then Some(steps[0].err)
    else ServeAnswer(steps[1..])
  }

  /** The answer is what the serving thread carries to its return. */
  ghost predicate Carries(s: State, answer: Option<ServeError>) {
    match s.main
    case Serving => answer.None?
    case Served(err) => answer == Some(err)
    case Waiting(err) => answer == Some(err)
    case Returned(result) => answer.Some? && result == if answer == Some(ErrServerClosed) then None else answer
  }

  lemma {:induction false} RunCarries(s: State, steps: seq<Step>, answer: Option<ServeError>)
    requires CanRun(s, steps) && Carries(s, answer)
    ensures Carries(Run(s, steps), if s.main.Serving? then ServeAnswer(steps) else answer)
    decreases |steps|
  {
    if steps != [] {
      var next := Next(s, steps[0]);
      if s.main.Serving? {
        RunCarries(next, steps[1..], if steps[0].ServeReturns? then Some(steps[0].err) else None);
      } else {
        RunCarries(next, steps[1..], answer);
      }
    }
  }

  /**
   * In every interleaving serveUntil returns only after the shutdown goroutine has finished and the context
   * has ended; it returns nil exactly when Serve answered ErrServerClosed, and otherwise Serve's error.
   */
  lemma ReturnsAfterShutdown(steps: seq<Step>)
    requires CanRun(START, steps) && Run(START, steps).main.Returned?
    ensures var s := Run(START, steps);
            && s.helper.Finished? && s.ctxDone
            && ServeAnswer(steps).Some?
            && (s.main.result.None? <==> ServeAnswer(steps) == Some(ErrServerClosed))
            && (s.main.result.Some? ==> s.main.result == ServeAnswer(steps))
  {
    RunKeepsInv(START, steps);
    RunCarries(START, steps, None);
  }

  // --------------------------------------------------------------- progress

  /** Steps left once Serve has come back. */
  function Measure(s: State): nat {
    (match s.main
     case Serving => 3
     case Served(_) => 2
     case Waiting(_) => 1
     case Returned(_) => 0)
    + (match s.helper
       case AwaitingDone => 3
       case ShuttingDown => 2
       case ShutDown => 1
       case Finished => 0)
    + (if s.ctxDone then 0 else 1)
  }

  /** Every step makes progress. */
  lemma StepDecreases(s: State, step: Step)
    requires Enabled(s, step)
    ensures Measure(Next(s, step)) < Measure(s)
  {
  }

  /** A step that the two threads can take without a signal from outside. */
  predicate Internal(step: Step) {
    !step.Signal? && !step.ServeReturns?
  }

  /** No deadlock: once Serve has come back, a thread can move until serveUntil has returned. */
  lemma NeverStuck(steps: seq<Step>)
    requires CanRun(START, steps) && !Run(START, steps).main.Serving?
    ensures !Run(START, steps).main.Returned? <==> exists step: Step :: Internal(step) && Enabled(Run(START, steps), step)
  {
    RunKeepsInv(START, steps);
    var s := Run(START, steps);
    if !s.main.Returned? {
      var step :=
        if s.main.Served? then Cancel
        else match s.helper
             case AwaitingDone => Wake
             case ShuttingDown => ShutdownReturns
             case ShutDown => CloseDone
             case Finished => Receive;
      assert Internal(step) && Enabled(s, step);
    }
  }

  /** Whatever the order of steps, a run has at most seven of them, so serveUntil returns once Serve and Shutdown do. */
  lemma {:induction false} RunsAreShort(s: State, steps: seq<Step>)
    requires CanRun(s, steps)
    ensures |steps| + Measure(Run(s, steps)) <= Measure(s) <= 7
    decreases |steps|
  {
    if steps != [] {
      StepDecreases(s, steps[0]);
      RunsAreShort(Next(s, steps[0]), steps[1..]);
    }
  }

  /** The threads have done all they can: no step is left but a signal, or Serve failing for another reason. */
  ghost predicate Settled(s: State) {
    && (forall step: Step | Internal(step) :: !Enabled(s, step))
    && !Enabled(s, ServeReturns(ErrServerClosed))
  }

  /**
   * A signal leads to a return: every run that holds one and has settled has returned, with nil exactly when
   * Serve answered ErrServerClosed, and otherwise with the error Serve failed with.
   */
  lemma SignalledRunReturns(steps: seq<Step>)
    requires CanRun(START, steps) && Signal in steps && Settled(Run(START, steps))
    ensures Run(START, steps).main ==
            Returned(if ServeAnswer(steps) == Some(ErrServerClosed) then None else ServeAnswer(steps))
  {
    SignalEndsContext(START, steps);
    RunKeepsInv(START, steps);
    RunCarries(START, steps, None);
    var s := Run(START, steps);
    assert Internal(Wake) && Internal(ShutdownReturns) && Internal(CloseDone) && Internal(Cancel) && Internal(Receive);
  }

  lemma {:induction false} SignalEndsContext(s: State, steps: seq<Step>)
    requires CanRun(s, steps) && (s.ctxDone || Signal in steps)
    ensures Run(s, steps).ctxDone
    decreases |steps|
  {
    if steps != [] {
      assert steps == [steps[0]] + steps[1..];
      SignalEndsContext(Next(s, steps[0]), steps[1..]);
    }
  }

  /** Without a signal serveUntil never returns nil. */
  lemma NilNeedsSignal(steps: seq<Step>)
    requires CanRun(START, steps) && Run(START, steps).main == Returned(None)
    ensures Signal in steps
  {
    RunCarries(START, steps, None);
    ClosedNeedsSignal(START, steps);
  }

  /** While Serve runs, only a signal can start the shutdown that makes Serve answer ErrServerClosed. */
  lemma {:induction false} ClosedNeedsSignal(s: State, steps: seq<Step>)
    requires CanRun(s, steps) && s.main.Serving? && ServeAnswer(steps) == Some(ErrServerClosed)
    requires s.helper != AwaitingDone ==> s.ctxDone
    ensures s.ctxDone || Signal in steps
    decreases |steps|
  {
    if !steps[0].ServeReturns? {
      ClosedNeedsSignal(Next(s, steps[0]), steps[1..]);
      assert forall x | x in steps[1..] :: x in steps;
      assert steps[0] in steps;
    }
  }

  /** A signal alone does not decide the answer: the same schedule ends with nil or with another error of Serve. */
  lemma BothOutcomesOccur(err: ServeError)
    ensures var steps := [Signal, Wake, ServeReturns(err), Cancel, ShutdownReturns, CloseDone, Receive];
            && CanRun(START, steps)
            && Run(START, steps).main == Returned(if err == ErrServerClosed then None else Some(err))
  {
    var s1 := Next(START, Signal);
    var s2 := Next(s1, Wake);
    var s3 := Next(s2, ServeReturns(err));
    var s4 := Next(s3, Cancel);
    var s5 := Next(s4, ShutdownReturns);
    var s6 := Next(s5, CloseDone);
    RunOne(s6, Receive, []);
    RunOne(s5, CloseDone, [Receive]);
    RunOne(s4, ShutdownReturns, [CloseDone, Receive]);
    RunOne(s3, Cancel, [ShutdownReturns, CloseDone, Receive]);
    RunOne(s2, ServeReturns(err), [Cancel, ShutdownReturns, CloseDone, Receive]);
    RunOne(s1, Wake, [ServeReturns(err), Cancel, ShutdownReturns, CloseDone, Receive]);
    RunOne(START, Signal, [Wake, ServeReturns(err), Cancel, ShutdownReturns, CloseDone, Receive]);
  }

  lemma RunOne(s: State, step: Step, rest: seq<Step>)
    requires Enabled(s, step) && CanRun(Next(s, step), rest)
    ensures CanRun(s, [step] + rest) && Run(s, [step] + rest) == Run(Next(s, step), rest)
  {
    assert ([step] + rest)[1..] == rest;
  }
}
