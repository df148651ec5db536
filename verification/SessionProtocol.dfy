/**
 One connection of the server: the session coroutine, cut where it suspends and where it looks at the stop
 flag, and the closures that shutdown posts to its strand.
 */
module SessionProtocol {

  datatype Phase = ReadingPhase | HandlingPhase | WritingPhase | FinishedPhase

  /** Where the coroutine stands. */
  datatype Pc =
    | Spawned                      // not started yet
    | Top                          // about to look at the stop flag
    | Checked                      // the flag was not set; about to start reading
    | HeaderRead                   // suspended in the header read
    | BodyRead                     // suspended in the body read
    | Handling                     // suspended in the handler
    | Deciding                     // about to look at the stop flag for the keep-alive decision
    | Replying(keepAlive: bool)    // suspended in the write of a response
    | Refusing                     // suspended in the write of an error response
    | Closing                      // behind the loop
    | Ended

  datatype IoResult = Success | EndOfStream | Aborted | TimedOut | Failed

  /** The socket operation the coroutine waits for; once done, its resumption is queued. */
  datatype Operation = Idle | Pending | Done(result: IoResult)

  datatype Session = Session(
    pc: Pc,
    phase: Phase,
    op: Operation,
    stopRequested: bool,
    closures: seq<bool>,           // posted stop closures that have not run; true for a forced one
    socketOpen: bool,
    stoppedInside: bool,           // the stop request came between the look at the flag and the read
    lateReads: nat,                // header reads started after the stop request
    lateCalls: nat,                // handler calls started after the stop request
    lateKeepAlive: bool)           // a decision after the stop request kept the connection

  function NewSession(): Session {
    Session(Spawned, ReadingPhase, Idle, false, [], true, false, 0, 0, false)
  }

  /** The control strand asks the session to stop: the flag is set and a closure is posted. */
  function RequestStop(x: Session, force: bool): Session {
    x.(stopRequested := true, closures := x.closures + [force],
       stoppedInside := x.stoppedInside || (!x.stopRequested && x.pc.Checked?))
  }

  /** The coroutine is suspended, so its strand is free for closures. */
  predicate Suspended(x: Session) {
    x.pc.Spawned? || x.pc.HeaderRead? || x.pc.BodyRead? || x.pc.Handling? || x.pc.Replying? || x.pc.Refusing?
    || x.pc.Ended?
  }

  function CancelOperation(op: Operation): Operation {
    if op.Pending? then Done(Aborted) else op
  }

  /** The first posted stop closure runs. */
  function RunClosure(x: Session): Session
    requires x.closures != []
  {
    var force := x.closures[0];
    var rest := x.(closures := x.closures[1..]);
    if force then rest.(op := CancelOperation(x.op), socketOpen := false)
    else if x.phase.ReadingPhase? then rest.(op := CancelOperation(x.op))
    else rest
  }

  /** A socket operation that is started now; it fails at once when the socket has been closed. */
  function Started(x: Session): Operation {
    if x.socketOpen then Pending else Done(Failed)
  }

  datatype Event =
    | Begin
    | LookAtStop
    | StartReading
    | HeaderResumed(tooManyFields: bool)
    | BodyResumed(knownMethod: bool)
    | HandlerReturned
    | Decide(requestKeepAlive: bool, responseKeepAlive: bool)
    | ReplyResumed
    | RefusalResumed
    | Close
    | Unwind                       // an exception leaves the coroutine
    | IoCompletes(result: IoResult)   // the environment completes the socket operation
    | Closure

  /** The events that are segments of the coroutine itself. */
  predicate Segment(e: Event) {
    !e.IoCompletes? && !e.Closure?
  }

  predicate Enabled(x: Session, e: Event) {
    match e
    case Begin => x.pc.Spawned?
    case LookAtStop => x.pc.Top?
    case StartReading => x.pc.Checked?
    case HeaderResumed(_) => x.pc.HeaderRead? && x.op.Done?
    case BodyResumed(_) => x.pc.BodyRead? && x.op.Done?
    case HandlerReturned => x.pc.Handling?
    case Decide(_, _) => x.pc.Deciding?
    case ReplyResumed => x.pc.Replying? && x.op.Done?
    case RefusalResumed => x.pc.Refusing? && x.op.Done?
    case Close => x.pc.Closing?
    case Unwind => !x.pc.Ended? && !x.op.Pending?
    case IoCompletes(_) => x.op.Pending?
    case Closure => x.closures != [] && Suspended(x)
  }

  function Refuse(x: Session): Session {
    x.(pc := Refusing, phase := WritingPhase, op := Started(x))
  }

  function HeaderDone(x: Session, tooManyFields: bool): Session
    requires x.op.Done?
  {
    match x.op.result
    case EndOfStream => x.(pc := Closing, op := Idle)
    case Aborted => x.(pc := Closing, op := Idle)
    case TimedOut => x.(pc := Closing, op := Idle)
    case Failed => Refuse(x)
    case Success => if tooManyFields then Refuse(x) else x.(pc := BodyRead, op := Started(x))
  }

  /** Unlike the header read, an aborted body read is answered like a malformed one. */
  function BodyDone(x: Session, knownMethod: bool): Session
    requires x.op.Done?
  {
    match x.op.result
    case TimedOut => x.(pc := Closing, op := Idle)
    case Success =>
      if knownMethod then
        x.(pc := Handling, phase := HandlingPhase, op := Idle,
           lateCalls := if x.stopRequested then x.lateCalls + 1 else x.lateCalls)
      else x.(pc := Deciding, phase := HandlingPhase, op := Idle)
    case _ => Refuse(x)
  }

  function Step(x: Session, e: Event): Session
    requires Enabled(x, e)
  {
    match e
    case Begin => x.(pc := Top)
    case LookAtStop => if x.stopRequested then x.(pc := Closing) else x.(pc := Checked)
    case StartReading =>
      x.(pc := HeaderRead, phase := ReadingPhase, op := Started(x),
         lateReads := if x.stopRequested then x.lateReads + 1 else x.lateReads)
    case HeaderResumed(tooManyFields) => HeaderDone(x, tooManyFields)
    case BodyResumed(knownMethod) => BodyDone(x, knownMethod)
    case HandlerReturned => x.(pc := Deciding)
    case Decide(requestKeepAlive, responseKeepAlive) =>
      var keepAlive := requestKeepAlive && !x.stopRequested && responseKeepAlive;
      x.(pc := Replying(keepAlive), phase := WritingPhase, op := Started(x),
         lateKeepAlive := x.lateKeepAlive || (x.stopRequested && keepAlive))
    case ReplyResumed =>
      if !x.op.result.Success? || !x.pc.keepAlive then x.(pc := Closing, op := Idle) else x.(pc := Top, op := Idle)
    case RefusalResumed => x.(pc := Closing, op := Idle)
    case Close => x.(pc := Ended, phase := FinishedPhase, socketOpen := false)
    case Unwind =>
      if x.pc.Handling? then x.(pc := Deciding)
      else x.(pc := Ended, op := Idle)
    case IoCompletes(result) => x.(op := Done(result))
    case Closure => RunClosure(x)
  }

  // --- What every step keeps --------------------------------------------------------------

  predicate AwaitsSocket(pc: Pc) {
    pc.HeaderRead? || pc.BodyRead? || pc.Replying? || pc.Refusing?
  }

  /** The last request of a stopped session is being dealt with, or was. */
  predicate Leaving(pc: Pc) {
    pc.Handling? || pc.Deciding? || pc.Closing? || pc.Ended? || pc.Refusing? || pc == Replying(false)
  }

  predicate Inv(x: Session) {
    && (x.op.Idle? <==> !AwaitsSocket(x.pc))
    && (x.pc.Spawned? || x.pc.HeaderRead? || x.pc.BodyRead? ==> x.phase.ReadingPhase?)
    && (x.pc.Handling? || x.pc.Deciding? ==> x.phase.HandlingPhase?)
    && (x.pc.Replying? || x.pc.Refusing? ==> x.phase.WritingPhase?)
    && (x.phase.FinishedPhase? ==> x.pc.Ended? && !x.socketOpen)
    && (x.closures != [] ==> x.stopRequested)
    && (!x.socketOpen ==> !x.op.Pending?)
    // blocked in a header read only until the posted closure has run
    && (x.stopRequested && x.pc.HeaderRead? && x.op.Pending? ==> x.closures != [])
    && (x.stopRequested && x.pc.Checked? ==> x.closures != [])
    // no read of an iteration that began after the request
    && (!x.stopRequested ==> x.lateReads == 0 && x.lateCalls == 0 && !x.stoppedInside)
    && (x.stopRequested && x.pc.Checked? ==> x.stoppedInside)
    && x.lateReads + (if x.stopRequested && x.pc.Checked? then 1 else 0) <= (if x.stoppedInside then 1 else 0)
    // at most one more call, and then the connection is closed
    && x.lateCalls <= 1
    && (x.lateCalls == 1 ==> Leaving(x.pc))
    && !x.lateKeepAlive
  }

  lemma NewSessionInv()
    ensures Inv(NewSession())
  {
  }

  lemma RequestStopInv(x: Session, force: bool)
    requires Inv(x)
    ensures Inv(RequestStop(x, force))
  {
  }

  lemma StepInv(x: Session, e: Event)
    requires Inv(x) && Enabled(x, e)
    ensures Inv(Step(x, e))
    ensures x.stopRequested == Step(x, e).stopRequested
    ensures x.pc.Ended? ==> Step(x, e).pc.Ended?
  {
    hide Inv;
    match e
    case HeaderResumed(tooManyFields) => HeaderDoneInv(x, tooManyFields);
    case BodyResumed(knownMethod) => BodyDoneInv(x, knownMethod);
    case Closure => ClosureInv(x);
    case _ => OtherStepInv(x, e);
  }

  lemma HeaderDoneInv(x: Session, tooManyFields: bool)
    requires Inv(x) && x.pc.HeaderRead? && x.op.Done?
    ensures Inv(HeaderDone(x, tooManyFields))
  {
  }

  lemma BodyDoneInv(x: Session, knownMethod: bool)
    requires Inv(x) && x.pc.BodyRead? && x.op.Done?
    ensures Inv(BodyDone(x, knownMethod))
  {
  }

  lemma ClosureInv(x: Session)
    requires Inv(x) && x.closures != [] && Suspended(x)
    ensures Inv(RunClosure(x))
  {
  }

  lemma OtherStepInv(x: Session, e: Event)
    requires Inv(x) && Enabled(x, e) && !e.HeaderResumed? && !e.BodyResumed? && !e.Closure?
    ensures Inv(Step(x, e))
  {
    hide HeaderDone, BodyDone, RunClosure;
  }

  // --- Progress after a stop request ------------------------------------------------------

  /** How many segments are left at most once stop has been requested. */
  function SegmentsLeft(pc: Pc): nat {
    match pc
    case Checked => 9
    case HeaderRead => 8
    case BodyRead => 7
    case Handling => 6
    case Deciding => 5
    case Replying(_) => 4
    case Refusing => 4
    case Spawned => 3
    case Top => 2
    case Closing => 1
    case Ended => 0
  }

  /** After a stop request every segment brings the session nearer its end; nothing else takes it back. */
  lemma StoppedSessionAdvances(x: Session, e: Event)
    requires Inv(x) && x.stopRequested && Enabled(x, e)
    ensures SegmentsLeft(Step(x, e).pc) <= SegmentsLeft(x.pc)
    ensures Segment(e) ==> SegmentsLeft(Step(x, e).pc) < SegmentsLeft(x.pc)
  {
  }

  /** Once its closures have run, a stopped session waits only for its peer, its handler, or nothing. */
  lemma StoppedSessionWaits(x: Session)
    requires Inv(x) && x.stopRequested && x.closures == []
    ensures x.op.Pending? ==> !x.pc.HeaderRead?
    ensures !x.socketOpen ==> x.pc.Ended? || x.pc.Handling? || exists e :: Segment(e) && !e.Unwind? && Enabled(x, e)
  {
    if !x.socketOpen && !x.pc.Ended? && !x.pc.Handling? {
      var e := NextSegment(x.pc);
      assert Segment(e) && !e.Unwind? && Enabled(x, e);
    }
  }

  function NextSegment(pc: Pc): Event {
    match pc
    case Spawned => Begin
    case Top => LookAtStop
    case Checked => StartReading
    case HeaderRead => HeaderResumed(false)
    case BodyRead => BodyResumed(true)
    case Handling => HandlerReturned
    case Deciding => Decide(false, false)
    case Replying(_) => ReplyResumed
    case Refusing => RefusalResumed
    case Closing => Close
    case Ended => Unwind
  }

  // --- Runs of one session ----------------------------------------------------------------

  /** What happens to a session: the control strand asks it to stop, or one of its own events. */
  datatype Action = Ask(force: bool) | Do(event: Event)

  predicate Possible(x: Session, a: Action) {
    a.Ask? || Enabled(x, a.event)
  }

  function Act(x: Session, a: Action): Session
    requires Possible(x, a)
  {
    if a.Ask? then RequestStop(x, a.force) else Step(x, a.event)
  }

  predicate Runs(x: Session, actions: seq<Action>)
    decreases |actions|
  {
    actions == [] || (Possible(x, actions[0]) && Runs(Act(x, actions[0]), actions[1..]))
  }

  function After(x: Session, actions: seq<Action>): Session
    requires Runs(x, actions)
    decreases |actions|
  {
    if actions == [] then x else After(Act(x, actions[0]), actions[1..])
  }

  lemma {:induction false} RunKeepsInv(x: Session, actions: seq<Action>)
    requires Inv(x) && Runs(x, actions)
    ensures Inv(After(x, actions))
    decreases |actions|
  {
    hide Inv, Enabled, Step;
    if actions != [] {
      if actions[0].Ask? {
        RequestStopInv(x, actions[0].force);
      } else {
        StepInv(x, actions[0].event);
      }
      RunKeepsInv(Act(x, actions[0]), actions[1..]);
    }
  }

  // --- Soft and forced stops --------------------------------------------------------------

  /** No forced stop has reached the session: its socket is closed by nobody but itself. */
  predicate Unforced(x: Session) {
    true !in x.closures && (x.socketOpen || x.pc.Ended?)
  }

  /** A forced stop has closed the socket, or its closure is posted. */
  predicate CutOff(x: Session) {
    !x.socketOpen || true in x.closures
  }

  lemma RequestForces(x: Session, force: bool)
    ensures Unforced(x) && !force ==> Unforced(RequestStop(x, force))
    ensures CutOff(x) || force ==> CutOff(RequestStop(x, force))
  {
    assert (x.closures + [force])[|x.closures|] == force;
  }

  /** No step of a session forces it, and none takes a forced stop back. */
  lemma StepForces(x: Session, e: Event)
    requires Enabled(x, e)
    ensures Unforced(x) ==> Unforced(Step(x, e))
    ensures CutOff(x) ==> CutOff(Step(x, e))
  {
    hide RunClosure;
    if e.Closure? {
      ClosureForces(x);
    }
  }

  lemma ClosureForces(x: Session)
    requires x.closures != []
    ensures Unforced(x) ==> Unforced(RunClosure(x))
    ensures CutOff(x) ==> CutOff(RunClosure(x))
  {
    assert forall c | c in x.closures :: c == x.closures[0] || c in x.closures[1..];
    assert x.closures[0] in x.closures;
  }

  /** A soft stop leaves a response alone that is being written, and so does it the handler. */
  lemma SoftStopSparesReply(x: Session)
    requires Inv(x) && x.closures != [] && !x.closures[0]
    requires x.pc.Replying? || x.pc.Refusing? || x.pc.Handling?
    ensures RunClosure(x) == x.(closures := x.closures[1..])
  {
  }

  /** An idle connection, waiting for a request, is closed by a stop without a response. */
  lemma IdleStopIsSilent(x: Session, tooManyFields: bool)
    requires Inv(x) && x.pc.HeaderRead? && x.op.Pending? && x.closures != []
    ensures var stop := [Do(Closure), Do(HeaderResumed(tooManyFields))];
            Runs(x, stop) && After(x, stop).pc.Closing?
  {
    hide Inv, Step, RunClosure, Enabled;
    var y := RunClosure(x);
    AbortedByStop(x);
    AbortedReadCloses(y, tooManyFields);
    OneAction(y, Do(HeaderResumed(tooManyFields)));
    OneAction(x, Do(Closure));
    RunsJoin(x, [Do(Closure)], [Do(HeaderResumed(tooManyFields))]);
    assert [Do(Closure)] + [Do(HeaderResumed(tooManyFields))] == [Do(Closure), Do(HeaderResumed(tooManyFields))];
  }

  lemma AbortedByStop(x: Session)
    requires Inv(x) && x.pc.HeaderRead? && x.op.Pending? && x.closures != []
    ensures Enabled(x, Closure) && Step(x, Closure) == RunClosure(x)
    ensures RunClosure(x).pc.HeaderRead? && RunClosure(x).op == Done(Aborted)
  {
  }

  lemma AbortedReadCloses(x: Session, tooManyFields: bool)
    requires x.pc.HeaderRead? && x.op == Done(Aborted)
    ensures Enabled(x, HeaderResumed(tooManyFields)) && Step(x, HeaderResumed(tooManyFields)).pc.Closing?
  {
  }

  /** Once its closures have run, a session that was forced waits for no socket operation, */
  lemma CutOffWaitsForNoSocket(x: Session)
    requires Inv(x) && CutOff(x) && x.closures == []
    ensures !x.socketOpen && !x.op.Pending?
  {
  }

  /** and then ends after a bounded number of its own segments, if only its handler returns. */
  lemma {:induction false} CutOffRunsOut(x: Session) returns (actions: seq<Action>)
    requires Inv(x) && x.stopRequested && CutOff(x) && x.closures == []
    ensures Runs(x, actions) && After(x, actions).pc.Ended?
    ensures |actions| <= SegmentsLeft(x.pc)
    ensures forall k | 0 <= k < |actions| :: actions[k].Do? && Segment(actions[k].event)
    decreases SegmentsLeft(x.pc)
  {
    hide Inv, Step;
    if x.pc.Ended? {
      actions := [];
    } else {
      CutOffWaitsForNoSocket(x);
      StoppedSessionWaits(x);
      var e := OwnSegment(x);
      StepInv(x, e);
      StepForces(x, e);
      StoppedSessionAdvances(x, e);
      SegmentKeepsClosures(x, e);
      var rest := CutOffRunsOut(Step(x, e));
      actions := [Do(e)] + rest;
      assert actions[1..] == rest;
    }
  }

  lemma OwnSegment(x: Session) returns (e: Event)
    requires Inv(x) && !x.op.Pending? && !x.pc.Ended?
    ensures Segment(e) && !e.Unwind? && Enabled(x, e)
  {
    e := NextSegment(x.pc);
  }

  lemma SegmentKeepsClosures(x: Session, e: Event)
    requires Enabled(x, e) && Segment(e)
    ensures Step(x, e).closures == x.closures && Step(x, e).stopRequested == x.stopRequested
  {
  }

  // --- Requests and their responses -------------------------------------------------------

  /** A request has been read whose response has not been started. */
  predicate Owes(pc: Pc) {
    pc.BodyRead? || pc.Handling? || pc.Deciding?
  }

  function One(b: bool): nat {
    if b then 1 else 0
  }

  /** A header read ends with a request: a whole header, or a malformed one that has to be answered. */
  predicate RequestBegins(x: Session, a: Action) {
    a.Do? && a.event.HeaderResumed? && (x.op == Done(Success) || x.op == Done(Failed))
  }

  /** A request is given up without a response: its body was too late, or an exception left the coroutine. */
  predicate RequestDropped(x: Session, a: Action) {
    && a.Do?
    && (|| (a.event.BodyResumed? && x.op == Done(TimedOut))
        || (a.event.Unwind? && (x.pc.BodyRead? || x.pc.Deciding?)))
  }

  /** The write of a response is started. */
  predicate ResponseBegins(x: Session, a: Action)
    requires Possible(x, a)
  {
    (Act(x, a).pc.Replying? || Act(x, a).pc.Refusing?) && !x.pc.Replying? && !x.pc.Refusing?
  }

  function Requests(x: Session, actions: seq<Action>): nat
    requires Runs(x, actions)
    decreases |actions|
  {
    if actions == [] then 0 else One(RequestBegins(x, actions[0])) + Requests(Act(x, actions[0]), actions[1..])
  }

  function Drops(x: Session, actions: seq<Action>): nat
    requires Runs(x, actions)
    decreases |actions|
  {
    if actions == [] then 0 else One(RequestDropped(x, actions[0])) + Drops(Act(x, actions[0]), actions[1..])
  }

  function Responses(x: Session, actions: seq<Action>): nat
    requires Runs(x, actions)
    decreases |actions|
  {
    if actions == [] then 0 else One(ResponseBegins(x, actions[0])) + Responses(Act(x, actions[0]), actions[1..])
  }

  lemma StepAccount(x: Session, a: Action)
    requires Inv(x) && Possible(x, a)
    ensures One(Owes(x.pc)) + One(RequestBegins(x, a))
         == One(Owes(Act(x, a).pc)) + One(ResponseBegins(x, a)) + One(RequestDropped(x, a))
  {
    hide Inv;
    if a.Do? && (a.event.HeaderResumed? || a.event.BodyResumed?) {
      ReadAccount(x, a);
    } else if a.Do? && a.event.Closure? {
      ClosureKeepsPlace(x);
    } else if a.Do? && (a.event.Decide? || a.event.Unwind?) {
      DecisionAccount(x, a);
    } else {
      OtherAccount(x, a);
    }
  }

  lemma DecisionAccount(x: Session, a: Action)
    requires Possible(x, a) && a.Do? && (a.event.Decide? || a.event.Unwind?)
    ensures One(Owes(x.pc)) + One(RequestBegins(x, a))
         == One(Owes(Act(x, a).pc)) + One(ResponseBegins(x, a)) + One(RequestDropped(x, a))
  {
    hide HeaderDone, BodyDone, RunClosure, Started;
  }

  lemma ReadAccount(x: Session, a: Action)
    requires Possible(x, a) && a.Do? && (a.event.HeaderResumed? || a.event.BodyResumed?)
    ensures One(Owes(x.pc)) + One(RequestBegins(x, a))
         == One(Owes(Act(x, a).pc)) + One(ResponseBegins(x, a)) + One(RequestDropped(x, a))
  {
    hide Started;
  }

  lemma ClosureKeepsPlace(x: Session)
    requires x.closures != []
    ensures RunClosure(x).pc == x.pc
  {
  }

  lemma OtherAccount(x: Session, a: Action)
    requires Possible(x, a)
    requires a.Do? ==> !a.event.HeaderResumed? && !a.event.BodyResumed? && !a.event.Closure?
    requires a.Do? ==> !a.event.Decide? && !a.event.Unwind?
    ensures One(Owes(x.pc)) + One(RequestBegins(x, a))
         == One(Owes(Act(x, a).pc)) + One(ResponseBegins(x, a)) + One(RequestDropped(x, a))
  {
    hide RequestBegins, RequestDropped;
    OtherPlaces(x, a);
    assert !RequestBegins(x, a) && !RequestDropped(x, a) by { NeitherBeginsNorDrops(x, a); }
  }

  lemma NeitherBeginsNorDrops(x: Session, a: Action)
    requires a.Do? ==> !a.event.HeaderResumed? && !a.event.BodyResumed? && !a.event.Unwind?
    ensures !RequestBegins(x, a) && !RequestDropped(x, a)
  {
  }

  lemma OtherPlaces(x: Session, a: Action)
    requires Possible(x, a)
    requires a.Do? ==> !a.event.HeaderResumed? && !a.event.BodyResumed? && !a.event.Closure?
    requires a.Do? ==> !a.event.Decide? && !a.event.Unwind?
    ensures Owes(Act(x, a).pc) <==> Owes(x.pc)
    ensures Act(x, a).pc.Replying? || Act(x, a).pc.Refusing? ==> Act(x, a).pc == x.pc
  {
    hide HeaderDone, BodyDone, RunClosure, Started;
  }

  /**
   In every run each request has exactly one response, unless it is still being dealt with, its body came too
   late, or an exception left the coroutine.
   */
  lemma {:induction false} EveryRequestIsAnsweredOnce(x: Session, actions: seq<Action>)
    requires Inv(x) && Runs(x, actions)
    ensures One(Owes(x.pc)) + Requests(x, actions)
         == One(Owes(After(x, actions).pc)) + Responses(x, actions) + Drops(x, actions)
    decreases |actions|
  {
    hide Inv, Step, Owes, RequestBegins, RequestDropped, ResponseBegins, Enabled;
    if actions != [] {
      StepAccount(x, actions[0]);
      if actions[0].Ask? {
        RequestStopInv(x, actions[0].force);
      } else {
        StepInv(x, actions[0].event);
      }
      EveryRequestIsAnsweredOnce(Act(x, actions[0]), actions[1..]);
    }
  }

  /**
   The body is read exactly when a header within the limit has been read, and the handler is called exactly when
   a whole request with a known method has been read.
   */
  lemma HandlerIsCalledIff(x: Session, e: Event)
    requires Inv(x) && Enabled(x, e)
    ensures !x.pc.BodyRead? && Step(x, e).pc.BodyRead? <==> x.op == Done(Success) && e == HeaderResumed(false)
    ensures !x.pc.Handling? && Step(x, e).pc.Handling? <==> x.op == Done(Success) && e == BodyResumed(true)
  {
  }

  /** A whole request is read, from the look at the stop flag on. */
  const REQUEST_READ: seq<Action> :=
    [Do(LookAtStop), Do(StartReading), Do(IoCompletes(Success)), Do(HeaderResumed(false)), Do(IoCompletes(Success))]

  /** It is handled, and its response is written. */
  function RequestAnswered(requestKeepAlive: bool, responseKeepAlive: bool, written: IoResult): seq<Action> {
    [Do(BodyResumed(true)), Do(HandlerReturned), Do(Decide(requestKeepAlive, responseKeepAlive)),
     Do(IoCompletes(written)), Do(ReplyResumed)]
  }

  /** One request on an undisturbed connection. */
  function Exchange(requestKeepAlive: bool, responseKeepAlive: bool, written: IoResult): seq<Action> {
    REQUEST_READ + RequestAnswered(requestKeepAlive, responseKeepAlive, written)
  }

  lemma {:induction false} RunsJoin(x: Session, a: seq<Action>, b: seq<Action>)
    requires Runs(x, a) && Runs(After(x, a), b)
    ensures Runs(x, a + b) && After(x, a + b) == After(After(x, a), b)
    ensures Responses(x, a + b) == Responses(x, a) + Responses(After(x, a), b)
    decreases |a|
  {
    hide Enabled, Step, ResponseBegins;
    if a == [] {
      assert a + b == b;
    } else {
      assert (a + b)[0] == a[0] && (a + b)[1..] == a[1..] + b;
      RunsJoin(Act(x, a[0]), a[1..], b);
    }
  }

  lemma OneAction(x: Session, a: Action)
    requires Possible(x, a)
    ensures Runs(x, [a]) && After(x, [a]) == Act(x, a) && Responses(x, [a]) == One(ResponseBegins(x, a))
  {
    assert [a][1..] == [];
  }

  /** At the look at the stop flag, on an open connection that nobody has asked to stop. */
  predicate AtRest(x: Session) {
    x.pc.Top? && x.op.Idle? && x.socketOpen && !x.stopRequested && x.closures == []
  }

  lemma HalfExchange(x: Session)
    requires AtRest(x)
    ensures var a := REQUEST_READ;
            && Runs(x, a) && After(x, a).pc.BodyRead? && After(x, a).op == Done(Success)
            && After(x, a).socketOpen && !After(x, a).stopRequested && After(x, a).closures == []
            && Responses(x, a) == 0
  {
    var a := REQUEST_READ;
    var x1 := Act(x, a[0]);
    var x2 := Act(x1, a[1]);
    var x3 := Act(x2, a[2]);
    var x4 := Act(x3, a[3]);
    OneAction(x4, a[4]);
    OneAction(x3, a[3]);
    RunsJoin(x3, [a[3]], [a[4]]);
    OneAction(x2, a[2]);
    RunsJoin(x2, [a[2]], [a[3]] + [a[4]]);
    OneAction(x1, a[1]);
    RunsJoin(x1, [a[1]], [a[2]] + ([a[3]] + [a[4]]));
    OneAction(x, a[0]);
    RunsJoin(x, [a[0]], [a[1]] + ([a[2]] + ([a[3]] + [a[4]])));
    assert a == [a[0]] + ([a[1]] + ([a[2]] + ([a[3]] + [a[4]])));
  }

  lemma OtherHalf(x: Session, requestKeepAlive: bool, responseKeepAlive: bool, written: IoResult)
    requires x.pc.BodyRead? && x.op == Done(Success) && x.socketOpen && !x.stopRequested && x.closures == []
    ensures var b := RequestAnswered(requestKeepAlive, responseKeepAlive, written);
            && Runs(x, b) && Responses(x, b) == 1
            && (if requestKeepAlive && responseKeepAlive && written.Success? then AtRest(After(x, b))
                else After(x, b).pc.Closing?)
  {
    hide HeaderDone, RunClosure;
    var b := RequestAnswered(requestKeepAlive, responseKeepAlive, written);
    var x1 := Act(x, b[0]);
    var x2 := Act(x1, b[1]);
    var x3 := Act(x2, b[2]);
    var x4 := Act(x3, b[3]);
    OneAction(x4, b[4]);
    OneAction(x3, b[3]);
    RunsJoin(x3, [b[3]], [b[4]]);
    OneAction(x2, b[2]);
    RunsJoin(x2, [b[2]], [b[3]] + [b[4]]);
    OneAction(x1, b[1]);
    RunsJoin(x1, [b[1]], [b[2]] + ([b[3]] + [b[4]]));
    OneAction(x, b[0]);
    RunsJoin(x, [b[0]], [b[1]] + ([b[2]] + ([b[3]] + [b[4]])));
    assert b == [b[0]] + ([b[1]] + ([b[2]] + ([b[3]] + [b[4]])));
  }

  /**
   An exchange that nobody disturbs is answered once, and the connection is kept for another exactly when the
   request and the response both ask for it and the write succeeded.
   */
  lemma ConnectionIsKeptIff(x: Session, requestKeepAlive: bool, responseKeepAlive: bool, written: IoResult)
    requires AtRest(x)
    ensures var a := Exchange(requestKeepAlive, responseKeepAlive, written);
            && Runs(x, a) && Responses(x, a) == 1
            && (if requestKeepAlive && responseKeepAlive && written.Success? then AtRest(After(x, a))
                else After(x, a).pc.Closing?)
  {
    hide AtRest, Enabled, Step, RequestAnswered, Runs, After;
    HalfExchange(x);
    OtherHalf(After(x, REQUEST_READ), requestKeepAlive, responseKeepAlive, written);
    RunsJoin(x, REQUEST_READ, RequestAnswered(requestKeepAlive, responseKeepAlive, written));
  }

  function Exchanges(n: nat): seq<Action> {
    if n == 0 then [] else Exchange(true, true, Success) + Exchanges(n - 1)
  }

  /** So one connection serves any number of requests. */
  lemma {:induction false} ConnectionServes(x: Session, n: nat)
    requires AtRest(x)
    ensures Runs(x, Exchanges(n)) && AtRest(After(x, Exchanges(n))) && Responses(x, Exchanges(n)) == n
    decreases n
  {
    hide AtRest, Enabled, Step, Exchange;
    if n > 0 {
      ConnectionIsKeptIff(x, true, true, Success);
      ConnectionServes(After(x, Exchange(true, true, Success)), n - 1);
      RunsJoin(x, Exchange(true, true, Success), Exchanges(n - 1));
    }
  }

  // --- A body read that shutdown runs into ------------------------------------------------

  /** While the coroutine is suspended in a read that succeeds: stop requests, their closures, and the completion. */
  predicate DuringRead(actions: seq<Action>) {
    forall k | 0 <= k < |actions| ::
      actions[k].Ask? || actions[k].event.Closure? || actions[k].event == IoCompletes(Success)
  }

  /** The first thing that happens on the session's own strand or socket, when there is one, is a stop closure. */
  predicate ClosureFirst(actions: seq<Action>) {
    actions != [] && if actions[0].Ask? then ClosureFirst(actions[1..]) else actions[0].event.Closure?
  }

  /** Something other than stop requests happens. */
  predicate Eventful(actions: seq<Action>) {
    exists k | 0 <= k < |actions| :: !actions[k].Ask?
  }

  /** An operation that is done is not changed by anything that happens before the coroutine resumes. */
  lemma {:induction false} DoneStays(x: Session, actions: seq<Action>)
    requires x.pc.BodyRead? && x.op.Done? && DuringRead(actions) && Runs(x, actions)
    ensures After(x, actions).pc.BodyRead? && After(x, actions).op == x.op
    decreases |actions|
  {
    if actions != [] {
      DuringReadTail(actions);
      DoneStays(Act(x, actions[0]), actions[1..]);
    }
  }

  lemma DuringReadTail(actions: seq<Action>)
    requires actions != [] && DuringRead(actions)
    ensures DuringRead(actions[1..])
    ensures actions[0].Ask? || actions[0].event.Closure? || actions[0].event == IoCompletes(Success)
    ensures actions[0].Ask? && Eventful(actions) ==> Eventful(actions[1..])
  {
    assert forall k | 0 <= k < |actions[1..]| :: actions[1..][k] == actions[k + 1];
    if k :| 0 <= k < |actions| && !actions[k].Ask? {
      if k > 0 {
        assert !actions[1..][k - 1].Ask?;
      }
    }
  }

  /**
   Whatever closures are posted and whenever stop is requested, a body read that would have succeeded is refused
   if and only if a stop closure runs before it completes; otherwise its request reaches the handler.
   */
  lemma {:induction false} BodyReadRefusedIff(x: Session, actions: seq<Action>)
    requires Inv(x) && x.pc.BodyRead? && x.op.Pending?
    requires DuringRead(actions) && Eventful(actions) && Runs(x, actions)
    ensures Enabled(After(x, actions), BodyResumed(true))
    ensures var y := Step(After(x, actions), BodyResumed(true));
            (y.pc.Refusing? <==> ClosureFirst(actions)) && (y.pc.Handling? <==> !ClosureFirst(actions))
    decreases |actions|
  {
    DuringReadTail(actions);
    var next := Act(x, actions[0]);
    if actions[0].Ask? {
      RequestStopInv(x, actions[0].force);
      BodyReadRefusedIff(next, actions[1..]);
    } else {
      DoneStays(next, actions[1..]);
    }
  }

  const TO_BODY_READ: seq<Action> :=
    [Do(Begin), Do(LookAtStop), Do(StartReading), Do(IoCompletes(Success)), Do(HeaderResumed(false))]

  /** A new session comes to a pending body read, */
  lemma BodyReadIsReached()
    ensures Runs(NewSession(), TO_BODY_READ)
    ensures var x := After(NewSession(), TO_BODY_READ); x.pc.BodyRead? && x.op.Pending? && x.socketOpen
  {
    var x := NewSession();
    var a := TO_BODY_READ;
    var x1 := Act(x, a[0]);
    var x2 := Act(x1, a[1]);
    var x3 := Act(x2, a[2]);
    var x4 := Act(x3, a[3]);
    var x5 := Act(x4, a[4]);
    assert Runs(x5, a[5..]) && After(x5, a[5..]) == x5;
    assert a[4..][0] == a[4] && a[4..][1..] == a[5..];
    assert Runs(x4, a[4..]) && After(x4, a[4..]) == x5;
    assert a[3..][0] == a[3] && a[3..][1..] == a[4..];
    assert Runs(x3, a[3..]) && After(x3, a[3..]) == x5;
    assert a[2..][0] == a[2] && a[2..][1..] == a[3..];
    assert Runs(x2, a[2..]) && After(x2, a[2..]) == x5;
    assert a[1..][0] == a[1] && a[1..][1..] == a[2..];
    assert Runs(x1, a[1..]) && After(x1, a[1..]) == x5;
  }

  /** and there a stop refuses it, or comes too late, depending on which of closure and completion is first. */
  lemma BodyReadIsRefusedOrHandled()
    ensures Runs(NewSession(), TO_BODY_READ)
    ensures var x := After(NewSession(), TO_BODY_READ);
            var stopped := [Ask(false), Do(Closure), Do(BodyResumed(true))];
            var late := [Ask(false), Do(IoCompletes(Success)), Do(Closure), Do(BodyResumed(true))];
            && Runs(x, stopped) && After(x, stopped).pc.Refusing?
            && Runs(x, late) && After(x, late).pc.Handling?
  {
    BodyReadIsReached();
    NewSessionInv();
    RunKeepsInv(NewSession(), TO_BODY_READ);
    var x := After(NewSession(), TO_BODY_READ);
    RefusedHere(x);
    HandledHere(x);
  }

  lemma RefusedHere(x: Session)
    requires Inv(x) && x.pc.BodyRead? && x.op.Pending? && x.closures == []
    ensures var stopped := [Ask(false), Do(Closure), Do(BodyResumed(true))];
            Runs(x, stopped) && After(x, stopped).pc.Refusing?
  {
    var a := [Ask(false), Do(Closure), Do(BodyResumed(true))];
    var x1 := Act(x, a[0]);
    var x2 := Act(x1, a[1]);
    var x3 := Act(x2, a[2]);
    assert a[3..] == [] && a[2..] == [a[2]] && a[1..][1..] == a[2..] && a[1..][0] == a[1];
    assert Runs(x3, []) && After(x3, []) == x3;
    assert [a[2]][1..] == [];
    assert Runs(x2, a[2..]) && After(x2, a[2..]) == x3;
    assert Runs(x1, a[1..]) && After(x1, a[1..]) == x3;
  }

  lemma HandledHere(x: Session)
    requires Inv(x) && x.pc.BodyRead? && x.op.Pending? && x.closures == []
    ensures var late := [Ask(false), Do(IoCompletes(Success)), Do(Closure), Do(BodyResumed(true))];
            Runs(x, late) && After(x, late).pc.Handling?
  {
    var a := [Ask(false), Do(IoCompletes(Success)), Do(Closure), Do(BodyResumed(true))];
    var x1 := Act(x, a[0]);
    var x2 := Act(x1, a[1]);
    var x3 := Act(x2, a[2]);
    var x4 := Act(x3, a[3]);
    assert Runs(x4, []) && After(x4, []) == x4;
    assert a[3..] == [a[3]] && [a[3]][1..] == [];
    assert a[2..][0] == a[2] && a[2..][1..] == a[3..] && a[1..][0] == a[1] && a[1..][1..] == a[2..];
    assert Runs(x3, a[3..]) && After(x3, a[3..]) == x4;
    assert Runs(x2, a[2..]) && After(x2, a[2..]) == x4;
    assert Runs(x1, a[1..]) && After(x1, a[1..]) == x4;
  }
}
