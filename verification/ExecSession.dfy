/** One `rumpel exec` as a transition system over client, daemon, pod and network.
    Every message may be lost and every wait may be abandoned.  The client posts the
    request once: its HTTP client neither retries nor follows redirects.  The pod's
    handler is not part of this model; it is taken to answer 404 only when it starts
    nothing, and success only after it started the command. */
module ExecSession {
  import opened Wrappers
  import opened Bytes
  import opened ExecStream
  import opened ExecProtocol

  datatype Status = Success | NotFound | OtherStatus

  datatype Link = Unsent | InFlight | Lost | Delivered

  /** Deciding whether to forward; forwarded; answered. */
  datatype Daemon = Asleep | Deciding | Forwarded | Replied(status: Status)

  /** Handling the request; answered (and whether the command was started). */
  datatype Pod = Untouched | Handling | Answered(status: Status, started: bool) | Died(started: bool)

  datatype Client =
    | Preparing
    | Posted
    | Streaming
    | FallingBack
    | InFallback
    | Finished(exit: Option<Byte>)

  datatype Session = Session(
    client: Client, toDaemon: Link, daemon: Daemon, toPod: Link, pod: Pod, fallbackStarted: bool, delivered: Bytes)

  const Start := Session(Preparing, Unsent, Asleep, Unsent, Untouched, false, [])

  datatype Step =
    | Post
    | LoseRequest
    | DaemonReads
    | DaemonRejects(status: Status)
    | DaemonForwards
    | LoseForward
    | PodReads
    | PodAnswers(status: Status, starts: bool)
    | PodDies(starts: bool)
    | DaemonRelays
    | DaemonLosesPod
    | ClientReads
    | ClientGivesUp
    | StreamEnds(bytes: Bytes)
    | StreamAborts
    | FallbackStarts
    | FallbackEnds(exit: Option<Byte>)

  predicate Enabled(s: Session, step: Step) {
    match step
    case Post => s.client == Preparing
    case LoseRequest => s.toDaemon == InFlight
    case DaemonReads => s.toDaemon == InFlight
    // bad request, no connection, legacy HTTP version or unknown version
    case DaemonRejects(status) => s.daemon == Deciding && status != Success
    case DaemonForwards => s.daemon == Deciding
    case LoseForward => s.toPod == InFlight
    case PodReads => s.toPod == InFlight
    case PodAnswers(status, starts) =>
      s.pod == Handling && (status == NotFound ==> !starts) && (status == Success ==> starts)
    case PodDies(_) => s.pod == Handling
    case DaemonRelays => s.daemon == Forwarded && s.pod.Answered?
    case DaemonLosesPod => s.daemon == Forwarded
    case ClientReads => s.client == Posted && s.daemon.Replied?
    case ClientGivesUp => s.client == Preparing || s.client == Posted
    case StreamEnds(_) => s.client == Streaming
    case StreamAborts => s.client == Streaming
    case FallbackStarts => s.client == FallingBack
    case FallbackEnds(exit) => s.client == InFallback || (s.client == FallingBack && exit.None?)
  }

  function Apply(s: Session, step: Step): Session
    requires Enabled(s, step)
  {
    match step
    case Post => s.(client := Posted, toDaemon := InFlight)
    case LoseRequest => s.(toDaemon := Lost)
    case DaemonReads => s.(toDaemon := Delivered, daemon := Deciding)
    case DaemonRejects(status) => s.(daemon := Replied(status))
    case DaemonForwards => s.(daemon := Forwarded, toPod := InFlight)
    case LoseForward => s.(toPod := Lost)
    case PodReads => s.(toPod := Delivered, pod := Handling)
    case PodAnswers(status, starts) => s.(pod := Answered(status, starts))
    case PodDies(starts) => s.(pod := Died(starts))
    case DaemonRelays => s.(daemon := Replied(s.pod.status))
    case DaemonLosesPod => s.(daemon := Replied(OtherStatus))
    case ClientReads =>
      s.(client := match s.daemon.status
                   case NotFound => FallingBack
                   case Success => Streaming
                   case OtherStatus => Finished(None))
    case ClientGivesUp => s.(client := Finished(None))
    case StreamEnds(bytes) =>
      var o := Outputs(ReadAll(bytes).0).outcome;
      s.(client := Finished(if o.ExitCode? then Some(o.code) else None), delivered := bytes)
    case StreamAborts => s.(client := Finished(None))
    case FallbackStarts => s.(client := InFallback, fallbackStarted := true)
    case FallbackEnds(exit) => s.(client := Finished(exit))
  }

  predicate PodStarted(s: Session) {
    (s.pod.Answered? || s.pod.Died?) && s.pod.started
  }

  /** How often the user's command has been started. */
  function Starts(s: Session): nat {
    (if PodStarted(s) then 1 else 0) + (if s.fallbackStarted then 1 else 0)
  }

  /** The pod will not start the command any more, and did not. */
  predicate Ruled(s: Session) {
    s.daemon == Replied(NotFound) && !PodStarted(s) && s.toPod != InFlight && s.pod != Handling
  }

  ghost predicate Inv(s: Session) {
    && (s.client == Preparing ==> s.toDaemon == Unsent)
    && (s.toDaemon == Unsent || s.toDaemon == InFlight || s.toDaemon == Lost ==> s.daemon == Asleep)
    && (s.daemon == Asleep || s.daemon == Deciding ==> s.toPod == Unsent)
    && (s.toPod == Unsent || s.toPod == InFlight || s.toPod == Lost ==> s.pod == Untouched)
    && (s.toPod == InFlight ==> s.daemon == Forwarded || s.daemon == Replied(OtherStatus))
    && (s.pod == Handling ==> s.daemon == Forwarded || s.daemon == Replied(OtherStatus))
    && (s.pod.Answered? && s.pod.status == NotFound ==> !s.pod.started)
    && (s.pod.Answered? && s.pod.status == Success ==> s.pod.started)
    && (s.daemon == Replied(Success) ==> PodStarted(s))
    && (s.daemon == Replied(NotFound) ==> Ruled(s))
    && (s.client == Streaming ==> PodStarted(s))
    && (s.client == FallingBack || s.client == InFallback || s.fallbackStarted ==> Ruled(s))
    && (s.client == FallingBack || s.client == Posted || s.client == Preparing || s.client == Streaming ==>
          !s.fallbackStarted)
    && (s.client == InFallback ==> s.fallbackStarted)
    && (s.client.Finished? && s.client.exit.Some? ==>
          s.fallbackStarted ||
          (PodStarted(s) && Outputs(ReadAll(s.delivered).0).outcome == ExitCode(s.client.exit.value)))
  }

  lemma StepKeepsInv(s: Session, step: Step)
    requires Inv(s) && Enabled(s, step)
    ensures Inv(Apply(s, step))
  {
    hide ReadAll, Outputs;
    match step {
      case StreamEnds(bytes) =>
        assert PodStarted(Apply(s, step));
      case _ =>
    }
  }

  ghost predicate StepAt(states: seq<Session>, steps: seq<Step>, i: nat)
    requires |states| == |steps| + 1 && i < |steps|
  {
    Enabled(states[i], steps[i]) && states[i + 1] == Apply(states[i], steps[i])
  }

  ghost predicate IsRun(states: seq<Session>, steps: seq<Step>) {
    && |states| == |steps| + 1
    && states[0] == Start
    && (forall i :: 0 <= i < |steps| ==> StepAt(states, steps, i))
  }

  lemma {:induction false} RunKeepsInv(states: seq<Session>, steps: seq<Step>, i: nat)
    requires IsRun(states, steps) && i < |states|
    ensures Inv(states[i])
  {
    if i > 0 {
      RunKeepsInv(states, steps, i - 1);
      assert StepAt(states, steps, i - 1);
      StepKeepsInv(states[i - 1], steps[i - 1]);
    }
  }

  /** Under every pattern of losses the command starts at most once; a reported exit
      code means it started exactly once, and unless the fallback ran it, the stream
      delivered whole output frames and then that exit frame. */
  lemma AtMostOnce(states: seq<Session>, steps: seq<Step>, i: nat)
    requires IsRun(states, steps) && i < |states|
    ensures Starts(states[i]) <= 1
    ensures states[i].client.Finished? && states[i].client.exit.Some? ==> Starts(states[i]) == 1
    ensures states[i].client.Finished? && states[i].client.exit.Some? && !states[i].fallbackStarted ==>
              exists out: Bytes, err: Bytes, fs: seq<Frame>, rest: Bytes ::
                Shown(states[i].delivered, out, err, fs, rest) && Decides(rest, ExitCode(states[i].client.exit.value))
  {
    hide ReadAll, Outputs, Encode, EncodeAll, Shown, Decides;
    RunKeepsInv(states, steps, i);
    if states[i].client.Finished? && states[i].client.exit.Some? && !states[i].fallbackStarted {
      var o := Outputs(ReadAll(states[i].delivered).0);
      OutcomeIff(states[i].delivered, o.stdout, o.stderr, o.outcome);
    }
  }

  // ---- what can happen -----------------------------------------------------------

  function Last(states: seq<Session>): Session
    requires states != []
  {
    states[|states| - 1]
  }

  lemma Longer(states: seq<Session>, steps: seq<Step>, step: Step)
    requires IsRun(states, steps) && Enabled(Last(states), step)
    ensures IsRun(states + [Apply(Last(states), step)], steps + [step])
  {
    hide Enabled, Apply;
    var ss, ts := states + [Apply(Last(states), step)], steps + [step];
    forall i | 0 <= i < |ts| ensures StepAt(ss, ts, i) {
      if i < |steps| {
        assert StepAt(states, steps, i);
      }
    }
  }

  lemma Go(states: seq<Session>, steps: seq<Step>, step: Step) returns (ss: seq<Session>, ts: seq<Step>)
    requires IsRun(states, steps) && Enabled(Last(states), step)
    ensures IsRun(ss, ts) && Last(ss) == Apply(Last(states), step)
  {
    hide Enabled, Apply;
    Longer(states, steps, step);
    ss, ts := states + [Apply(Last(states), step)], steps + [step];
  }

  lemma Begin() returns (states: seq<Session>, steps: seq<Step>)
    ensures IsRun(states, steps) && Last(states) == Start
  {
    states, steps := [Start], [];
  }

  /** The request reaches the pod. */
  lemma ReachesPod() returns (states: seq<Session>, steps: seq<Step>)
    ensures IsRun(states, steps)
    ensures Last(states) == Session(Posted, Delivered, Forwarded, Delivered, Handling, false, [])
  {
    hide IsRun, Last, ReadAll, Outputs;
    states, steps := Begin();
    states, steps := Go(states, steps, Post);
    states, steps := Go(states, steps, DaemonReads);
    states, steps := Go(states, steps, DaemonForwards);
    states, steps := Go(states, steps, PodReads);
  }

  /** The command runs in the pod and its exit code arrives. */
  lemma StreamExits(c: Byte) returns (states: seq<Session>, steps: seq<Step>)
    ensures IsRun(states, steps) && Last(states).client == Finished(Some(c))
    ensures Starts(Last(states)) == 1 && !Last(states).fallbackStarted
  {
    hide IsRun, Last, ReadAll, Outputs, Encode;
    var bytes := Encode(Exit(c));
    ExitDecides(c);
    states, steps := ReachesPod();
    states, steps := Go(states, steps, PodAnswers(Success, true));
    states, steps := Go(states, steps, DaemonRelays);
    states, steps := Go(states, steps, ClientReads);
    states, steps := Go(states, steps, StreamEnds(bytes));
  }

  lemma ExitDecides(c: Byte)
    ensures Outputs(ReadAll(Encode(Exit(c))).0).outcome == ExitCode(c)
  {
    hide ReadAll, Outputs, Encode;
    assert Encode(Exit(c)) == Encode(Exit(c)) + [];
    assert Decides(Encode(Exit(c)), ExitCode(c));
    DecidesStart(Encode(Exit(c)), ExitCode(c));
  }

  /** An endpoint that is missing leads to the fallback, which runs the command once. */
  lemma FallbackExits(c: Byte) returns (states: seq<Session>, steps: seq<Step>)
    ensures IsRun(states, steps) && Last(states).client == Finished(Some(c))
    ensures Starts(Last(states)) == 1 && Last(states).fallbackStarted
  {
    hide IsRun, Last, ReadAll, Outputs;
    states, steps := Begin();
    states, steps := Go(states, steps, Post);
    states, steps := Go(states, steps, DaemonReads);
    states, steps := Go(states, steps, DaemonRejects(NotFound));
    states, steps := Go(states, steps, ClientReads);
    states, steps := Go(states, steps, FallbackStarts);
    states, steps := Go(states, steps, FallbackEnds(Some(c)));
  }

  /** The pod's answer is lost: the command ran, and the client reports no exit code. */
  lemma AnswerLost() returns (states: seq<Session>, steps: seq<Step>)
    ensures IsRun(states, steps) && Last(states).client == Finished(None) && Starts(Last(states)) == 1
  {
    hide IsRun, Last, ReadAll, Outputs;
    states, steps := ReachesPod();
    states, steps := Go(states, steps, PodAnswers(Success, true));
    states, steps := Go(states, steps, DaemonLosesPod);
    states, steps := Go(states, steps, ClientReads);
  }

  /** The request is lost: nothing ran, and the client reports no exit code. */
  lemma RequestLost() returns (states: seq<Session>, steps: seq<Step>)
    ensures IsRun(states, steps) && Last(states).client == Finished(None) && Starts(Last(states)) == 0
  {
    hide IsRun, Last, ReadAll, Outputs;
    states, steps := Begin();
    states, steps := Go(states, steps, Post);
    states, steps := Go(states, steps, LoseRequest);
    states, steps := Go(states, steps, ClientGivesUp);
  }
}
