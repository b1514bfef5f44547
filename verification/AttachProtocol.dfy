/** webview2 attach: a listener goroutine with a one-slot channel beside the caller that
    attaches, cancels, closes and joins. A run is any interleaving of their steps. */
module AttachProtocol {
  import opened Basics

  /** Listen is running, has returned but not sent its error yet, or has sent it. */
  datatype Listener = Listening | Ended | Sent

  /** Where the caller is, one position after each call it makes. */
  datatype Caller =
    | Attaching
    | Refused | Drained | ClosedAfterRefusal     // attach returned an error
    | Accepted | Cancelled | Closed | Joined     // attach returned nil
    | Returned

  /** slot is the buffered channel; connError what a refused attach reports of it. */
  datatype State = State(
    caller: Caller, listener: Listener, slot: Option<string>, ctxCancelled: bool, connClosed: bool,
    attachError: Option<string>, attached: bool, blocked: bool, connError: Option<string>, result: Option<string>)

  datatype Step =
    | ListenEnds                              // read error, cancelled context or closed connection
    | Send(err: string)
    | AttachOk | AttachFails(err: string)
    | Drain | CloseRefused | ReportBlocked    // the refused path
    | Cancel | Close | Receive | TimeOut | ReportAttached

  function Init(): State {
    State(Attaching, Listening, None, false, false, None, false, false, None, None)
  }

  predicate Enabled(s: State, step: Step) {
    match step
    case ListenEnds => s.listener.Listening?
    case Send(_) => s.listener.Ended? && s.slot.None?
    case AttachOk => s.caller.Attaching?
    case AttachFails(_) => s.caller.Attaching?
    case Drain => s.caller.Refused?
    case CloseRefused => s.caller.Drained?
    case ReportBlocked => s.caller.ClosedAfterRefusal?
    case Cancel => s.caller.Accepted?
    case Close => s.caller.Cancelled?
    case Receive => s.caller.Closed? && s.slot.Some?
    case TimeOut => s.caller.Closed?
    case ReportAttached => s.caller.Joined?
  }

  /** The deferred cancel runs with either return. */
  function Apply(s: State, step: Step): State
    requires Enabled(s, step)
  {
    match step
    case ListenEnds => s.(listener := Ended)
    case Send(err) => s.(listener := Sent, slot := Some(err))
    case AttachOk => s.(caller := Accepted)
    case AttachFails(err) => s.(caller := Refused, attachError := Some(err))
    case Drain => s.(caller := Drained, connError := s.slot, slot := None)
    case CloseRefused => s.(caller := ClosedAfterRefusal, connClosed := true)
    case ReportBlocked => s.(caller := Returned, blocked := true, result := s.attachError, ctxCancelled := true)
    case Cancel => s.(caller := Cancelled, ctxCancelled := true)
    case Close => s.(caller := Closed, connClosed := true)
    case Receive => s.(caller := Joined, slot := None)
    case TimeOut => s.(caller := Joined)
    case ReportAttached => s.(caller := Returned, attached := true)
  }

  predicate CanRun(steps: seq<Step>)
    decreases |steps|, 0
  {
    steps == [] || (CanRun(steps[..|steps| - 1]) && Enabled(After(steps[..|steps| - 1]), steps[|steps| - 1]))
  }

  function After(steps: seq<Step>): State
    requires CanRun(steps)
    decreases |steps|, 1
  {
    if steps == [] then Init() else Apply(After(steps[..|steps| - 1]), steps[|steps| - 1])
  }

  // ---- what every step keeps ------------------------------------------------------------

  predicate RefusedPath(s: State) {
    s.caller.Refused? || s.caller.Drained? || s.caller.ClosedAfterRefusal?
  }

  ghost predicate Inv(s: State) {
    && (!s.listener.Sent? ==> s.slot.None?)
    && (s.attachError.Some? ==> RefusedPath(s) || s.caller.Returned?)
    && (RefusedPath(s) ==> s.attachError.Some?)
    && (s.caller.Returned? ==> s.ctxCancelled && s.connClosed && s.result == s.attachError)
    && (s.caller.Returned? ==> s.attached == s.attachError.None? && s.blocked == s.attachError.Some?)
    && (!s.caller.Returned? ==> !s.attached && !s.blocked && s.result.None?)
    && (s.caller.Cancelled? || s.caller.Closed? || s.caller.Joined? ==> s.ctxCancelled)
    && (s.caller.ClosedAfterRefusal? || s.caller.Closed? || s.caller.Joined? ==> s.connClosed)
    && (s.connError.Some? ==> s.listener.Sent?)
  }

  lemma StepKeeps(s: State, step: Step)
    requires Inv(s) && Enabled(s, step)
    ensures Inv(Apply(s, step))
  {
  }

  lemma {:induction false} RunKeeps(steps: seq<Step>)
    requires CanRun(steps)
    ensures Inv(After(steps))
  {
    if steps == [] {
    } else {
      RunKeeps(steps[..|steps| - 1]);
      StepKeeps(After(steps[..|steps| - 1]), steps[|steps| - 1]);
    }
  }

  // ---- the promises -----------------------------------------------------------------------

  /** Over every interleaving: the listener's one send never blocks; "Attached" is printed
      exactly on return from an attach that gave nil, and a refused attach is reported and
      returned as an error. */
  lemma Honest(steps: seq<Step>, err: string)
    requires CanRun(steps)
    ensures var s := After(steps);
            && (s.listener.Ended? ==> Enabled(s, Send(err)))
            && (s.attached <==> s.caller.Returned? && s.attachError.None?)
            && (s.blocked <==> s.caller.Returned? && s.attachError.Some?)
            && (s.caller.Returned? ==> s.result == s.attachError)
  {
    RunKeeps(steps);
  }

  /** Once the caller has returned the listener's context is cancelled and its connection
      closed: both things that can end Listen have happened, and it can still send. */
  lemma NothingLeaks(steps: seq<Step>)
    requires CanRun(steps) && After(steps).caller.Returned?
    ensures After(steps).ctxCancelled && After(steps).connClosed
    ensures After(steps).listener.Sent? || After(steps).slot.None?
  {
    RunKeeps(steps);
  }

  function CallerWeight(c: Caller): nat {
    match c
    case Attaching => 5
    case Accepted => 4
    case Cancelled => 3
    case Closed => 2
    case Joined => 1
    case Refused => 3
    case Drained => 2
    case ClosedAfterRefusal => 1
    case Returned => 0
  }

  function Weight(s: State): nat {
    CallerWeight(s.caller) + if s.listener.Listening? then 2 else if s.listener.Ended? then 1 else 0
  }

  lemma StepCosts(s: State, step: Step)
    requires Enabled(s, step)
    ensures Weight(Apply(s, step)) < Weight(s)
  {
  }

  lemma {:induction false} RunsAreShort(steps: seq<Step>)
    requires CanRun(steps)
    ensures Weight(After(steps)) + |steps| <= 7
  {
    if steps == [] {
    } else {
      RunsAreShort(steps[..|steps| - 1]);
      StepCosts(After(steps[..|steps| - 1]), steps[|steps| - 1]);
    }
  }

  predicate CallerStep(step: Step) {
    !step.ListenEnds? && !step.Send?
  }

  /** From the moment attach has returned the caller can always go on by itself, whatever the
      listener does, so it returns within four steps of its own. */
  lemma CallerNeverWaits(steps: seq<Step>) returns (step: Step)
    requires CanRun(steps) && !After(steps).caller.Returned? && !After(steps).caller.Attaching?
    ensures CallerStep(step) && Enabled(After(steps), step)
    ensures CallerWeight(Apply(After(steps), step).caller) < CallerWeight(After(steps).caller) <= 4
  {
    step := match After(steps).caller
      case Refused => Drain
      case Drained => CloseRefused
      case ClosedAfterRefusal => ReportBlocked
      case Accepted => Cancel
      case Cancelled => Close
      case Closed => TimeOut
      case _ => ReportAttached;
  }
}
