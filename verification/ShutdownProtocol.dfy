/** The server's shutdown as a transition system over the callbacks of its control strand and its sessions. */
module ShutdownProtocol {
  import opened Sequences
  import opened SessionProtocol

  /** A wait on the shutdown timer. An expiry that is queued can no longer be cancelled. */
  datatype Timer = Unset | Waiting | Expired | Cancelled | Ran

  datatype AcceptResult = Accepted | AcceptAborted | AcceptFailed

  /** The accept loop: not spawned, posted, suspended in an accept, about to resume, or left. */
  datatype Accept = NotSpawned | Posted | Accepting | Resuming(result: AcceptResult) | Left

  /** The coroutine of a session runs, its completion is posted to the control strand, or that has run. */
  datatype Completion = Running | Queued | Complete

  datatype Entry = Entry(session: Session, completion: Completion)

  datatype State = State(
    started: bool,
    stopping: bool,
    stopPosted: bool,              // begin_stop is posted
    stopRan: bool,                 // begin_stop has run
    acceptorOpen: bool,
    accept: Accept,
    listed: seq<nat>,              // sessions_, by identity
    active: int,                   // active_sessions_
    entries: map<nat, Entry>,      // every session that was ever spawned
    graceful: Timer,
    force: Timer,
    contextStopped: bool)

  function Initial(): State {
    State(false, false, false, false, true, NotSpawned, [], 0, map[], Unset, Unset, false)
  }

  // --- Control-strand callbacks -----------------------------------------------------------

  /** The weak pointer still locks: the completion of the session holds it until it has run. */
  predicate Locks(s: State, id: nat) {
    id in s.entries && !s.entries[id].completion.Complete?
  }

  function Snapshot(s: State, ids: seq<nat>): (r: seq<nat>)
    ensures forall id | id in r :: id in ids && Locks(s, id)
    ensures forall id | id in ids && Locks(s, id) :: id in r
  {
    if ids == [] then []
    else if Locks(s, ids[0]) then [ids[0]] + Snapshot(s, ids[1..])
    else Snapshot(s, ids[1..])
  }

  /** Every session in the snapshot is asked to stop. */
  function AllAsked(entries: map<nat, Entry>, ids: set<nat>, force: bool): map<nat, Entry> {
    map id | id in entries ::
      if id in ids then entries[id].(session := RequestStop(entries[id].session, force)) else entries[id]
  }

  function SetOf(ids: seq<nat>): set<nat> {
    set id | id in ids
  }

  function BeginStop(s: State): State {
    var snapshot := Snapshot(s, s.listed);
    s.(acceptorOpen := false,
       accept := if s.accept.Accepting? then Resuming(AcceptAborted) else s.accept,
       entries := AllAsked(s.entries, SetOf(snapshot), false),
       graceful := if snapshot == [] then s.graceful else Waiting,
       stopPosted := false, stopRan := true)
  }

  function ForceStop(s: State): State {
    var snapshot := Snapshot(s, s.listed);
    s.(entries := AllAsked(s.entries, SetOf(snapshot), true),
       force := if snapshot == [] then s.force else Waiting)
  }

  function Cancel(t: Timer): Timer {
    if t.Waiting? then Cancelled else t
  }

  /** The listed sessions without `id` and without those whose pointer no longer locks. */
  function Without(s: State, ids: seq<nat>, id: nat): (r: seq<nat>)
    ensures forall j :: j in r <==> j in ids && Locks(s, j) && j != id
  {
    if ids == [] then []
    else if !Locks(s, ids[0]) || ids[0] == id then Without(s, ids[1..], id)
    else [ids[0]] + Without(s, ids[1..], id)
  }

  function SessionComplete(s: State, id: nat): State
    requires id in s.entries
  {
    var listed := Without(s, s.listed, id);
    var done := s.stopping && listed == [];
    s.(listed := listed, active := s.active - 1,
       entries := s.entries[id := s.entries[id].(completion := Complete)],
       graceful := if done then Cancel(s.graceful) else s.graceful,
       force := if done then Cancel(s.force) else s.force)
  }

  function AcceptResumed(s: State, id: nat): State
    requires s.accept.Resuming?
  {
    if s.accept.result.AcceptAborted? || !s.acceptorOpen then s.(accept := Left)
    else if s.accept.result.AcceptFailed? then s.(accept := Accepting)
    else
      s.(accept := Accepting, listed := s.listed + [id], active := s.active + 1,
         entries := s.entries[id := Entry(NewSession(), Running)])
  }

  function Stop(s: State): State {
    if !s.started || s.stopping then s else s.(stopping := true, stopPosted := true)
  }

  // --- Steps ------------------------------------------------------------------------------

  datatype Step =
    | CallStart
    | CallStop
    | RunBeginStop
    | BeginAccepting
    | AcceptCompletes(result: AcceptResult)
    | RunAccept(id: nat)           // the identity of the session it may spawn
    | GracefulExpires
    | RunGraceful
    | ForceExpires
    | RunForce
    | SessionEvent(id: nat, event: Event)
    | SessionEnds(id: nat)         // the completion handler posts session_complete
    | RunSessionComplete(id: nat)

  predicate CanStep(s: State, step: Step) {
    match step
    case CallStart => !s.started
    case CallStop => true
    case RunBeginStop => s.stopPosted
    case BeginAccepting => s.accept.Posted?
    case AcceptCompletes(_) => s.accept.Accepting?
    case RunAccept(id) => s.accept.Resuming? && id !in s.entries
    case GracefulExpires => s.graceful.Waiting?
    case RunGraceful => s.graceful.Expired? || s.graceful.Cancelled?
    case ForceExpires => s.force.Waiting?
    case RunForce => s.force.Expired? || s.force.Cancelled?
    case SessionEvent(id, event) => id in s.entries && Enabled(s.entries[id].session, event)
    case SessionEnds(id) => id in s.entries && s.entries[id].session.pc.Ended? && s.entries[id].completion.Running?
    case RunSessionComplete(id) => id in s.entries && s.entries[id].completion.Queued?
  }

  function Apply(s: State, step: Step): State
    requires CanStep(s, step)
  {
    match step
    case CallStart => s.(started := true, accept := Posted)
    case CallStop => Stop(s)
    case RunBeginStop => BeginStop(s)
    case BeginAccepting => s.(accept := if s.acceptorOpen then Accepting else Resuming(AcceptFailed))
    case AcceptCompletes(result) => s.(accept := Resuming(result))
    case RunAccept(id) => AcceptResumed(s, id)
    case GracefulExpires => s.(graceful := Expired)
    case RunGraceful =>
      var ran := s.(graceful := Ran);
      if s.graceful.Expired? then ForceStop(ran) else ran
    case ForceExpires => s.(force := Expired)
    case RunForce => s.(force := Ran, contextStopped := s.contextStopped || s.force.Expired?)
    case SessionEvent(id, event) =>
      s.(entries := s.entries[id := s.entries[id].(session := SessionProtocol.Step(s.entries[id].session, event))])
    case SessionEnds(id) => s.(entries := s.entries[id := s.entries[id].(completion := Queued)])
    case RunSessionComplete(id) => SessionComplete(s, id)
  }

  /** The steps can be taken one after the other. */
  predicate Runs(s: State, steps: seq<Step>)
    decreases |steps|
  {
    steps == [] || (CanStep(s, steps[0]) && Runs(Apply(s, steps[0]), steps[1..]))
  }

  function After(s: State, steps: seq<Step>): State
    requires Runs(s, steps)
    decreases |steps|
  {
    if steps == [] then s else After(Apply(s, steps[0]), steps[1..])
  }

  // --- The invariant ----------------------------------------------------------------------

  /** Sessions whose completion has not run. */
  function Incomplete(s: State): set<nat> {
    set id | id in s.entries && !s.entries[id].completion.Complete?
  }

  /** The list holds exactly the incomplete sessions, once each, and the counter counts them. */
  predicate Counted(s: State) {
    NoDuplicates(s.listed) && SetOf(s.listed) == Incomplete(s) && s.active == |s.listed|
  }

  predicate SessionsOk(s: State) {
    forall id | id in s.entries ::
      Inv(s.entries[id].session) && (!s.entries[id].completion.Running? ==> s.entries[id].session.pc.Ended?)
  }

  /** Once begin_stop has run, every incomplete session has been asked to stop. */
  predicate AllStopped(s: State) {
    s.stopRan ==> forall id | id in s.entries && Locks(s, id) :: s.entries[id].session.stopRequested
  }

  predicate Outstanding(t: Timer) {
    t.Waiting? || t.Expired?
  }

  /** The stages of shutdown fit together. */
  predicate StagesOk(s: State) {
    && (s.acceptorOpen == !s.stopRan)
    && (s.stopPosted || s.stopRan <==> s.stopping)
    && !(s.stopPosted && s.stopRan)
    && (s.stopping ==> s.started)
    && (s.stopRan ==> !s.accept.Accepting?)
    && (!s.stopRan ==> s.graceful.Unset? && s.force.Unset?)
    && (!s.force.Unset? ==> s.graceful.Ran?)
    && (s.contextStopped ==> s.force.Ran?)
  }

  /** Shutdown is not stuck. */
  predicate Driven(s: State) {
    s.stopRan && s.listed != [] ==> Outstanding(s.graceful) || Outstanding(s.force) || s.contextStopped
  }

  /** No timer is left waiting for sessions that are all complete. */
  predicate Settled(s: State) {
    s.listed == [] ==> !s.graceful.Waiting? && !s.force.Waiting?
  }

  predicate Ok(s: State) {
    Counted(s) && SessionsOk(s) && AllStopped(s) && StagesOk(s) && Driven(s) && Settled(s)
  }

  // --- Facts about the list ---------------------------------------------------------------

  lemma {:induction false} SnapshotIsAll(s: State, ids: seq<nat>)
    requires forall id | id in ids :: Locks(s, id)
    ensures Snapshot(s, ids) == ids
  {
    hide Locks;
    if ids != [] {
      assert ids[0] in ids;
      assert forall id | id in ids[1..] :: id in ids;
      SnapshotIsAll(s, ids[1..]);
      assert [ids[0]] + ids[1..] == ids;
    }
  }

  lemma ListedLock(s: State)
    requires Counted(s)
    ensures forall id | id in s.listed :: Locks(s, id)
    ensures forall id | id in s.entries && Locks(s, id) :: id in s.listed
  {
    forall id | id in s.listed ensures Locks(s, id) {
      assert id in SetOf(s.listed);
    }
    forall id | id in s.entries && Locks(s, id) ensures id in s.listed {
      assert id in Incomplete(s);
      assert id in SetOf(s.listed);
    }
  }

  lemma {:induction false} WithoutOne(s: State, ids: seq<nat>, id: nat)
    requires NoDuplicates(ids) && forall j | j in ids :: Locks(s, j)
    ensures NoDuplicates(Without(s, ids, id))
    ensures |Without(s, ids, id)| == if id in ids then |ids| - 1 else |ids|
  {
    hide Locks;
    if ids != [] {
      assert ids[0] in ids;
      assert forall j | j in ids[1..] :: j in ids;
      WithoutOne(s, ids[1..], id);
      var rest := Without(s, ids[1..], id);
      assert ids[0] !in ids[1..];
      assert ids[0] != id ==> (id in ids <==> id in ids[1..]);
    }
  }

  // --- Every step keeps the invariant -----------------------------------------------------

  lemma BeginStopOk(s: State)
    requires Ok(s) && s.stopPosted
    ensures Ok(BeginStop(s)) && BeginStop(s).stopRan
  {
    hide Inv, RequestStop;
    ListedLock(s);
    SnapshotIsAll(s, s.listed);
    AskedOk(s, false);
    var t := BeginStop(s);
    assert t.entries == AllAsked(s.entries, SetOf(s.listed), false);
    assert Incomplete(t) == Incomplete(s);
    AskedAreStopped(s, t, false);
  }

  lemma ForceStopOk(s: State)
    requires Counted(s) && SessionsOk(s) && AllStopped(s)
    ensures var t := ForceStop(s);
            && Counted(t) && SessionsOk(t) && AllStopped(t)
            && t == s.(entries := t.entries, force := if s.listed == [] then s.force else Waiting)
  {
    hide Inv, RequestStop;
    ListedLock(s);
    SnapshotIsAll(s, s.listed);
    AskedOk(s, true);
    var t := ForceStop(s);
    assert t.entries == AllAsked(s.entries, SetOf(s.listed), true);
    assert Incomplete(t) == Incomplete(s);
    if s.stopRan {
      AskedAreStopped(s, t, true);
    }
  }

  lemma AskedOk(s: State, force: bool)
    requires SessionsOk(s)
    ensures SessionsOk(s.(entries := AllAsked(s.entries, SetOf(s.listed), force)))
  {
    hide Inv, RequestStop;
    forall id | id in s.entries ensures Inv(RequestStop(s.entries[id].session, force)) {
      RequestStopInv(s.entries[id].session, force);
    }
    RequestKeepsPc();
  }

  lemma RequestKeepsPc()
    ensures forall x: Session, force: bool :: RequestStop(x, force).pc == x.pc && RequestStop(x, force).stopRequested
  {
  }

  lemma AskedAreStopped(s: State, t: State, force: bool)
    requires Counted(s) && t.entries == AllAsked(s.entries, SetOf(s.listed), force)
    ensures AllStopped(t)
  {
    hide RequestStop;
    ListedLock(s);
    RequestKeepsPc();
    forall id | id in t.entries && Locks(t, id) ensures t.entries[id].session.stopRequested {
      assert Locks(s, id);
      assert id in SetOf(s.listed);
    }
  }

  lemma SessionCompleteCounts(s: State, id: nat)
    requires Counted(s) && Locks(s, id)
    ensures Counted(SessionComplete(s, id)) && |SessionComplete(s, id).listed| == |s.listed| - 1
  {
    hide Inv;
    ListedLock(s);
    WithoutOne(s, s.listed, id);
    var t := SessionComplete(s, id);
    assert SetOf(t.listed) == SetOf(s.listed) - {id};
    assert Incomplete(t) == Incomplete(s) - {id};
  }

  lemma SessionCompleteOk(s: State, id: nat)
    requires Ok(s) && id in s.entries && s.entries[id].completion.Queued?
    ensures Ok(SessionComplete(s, id))
  {
    hide Inv, Counted;
    SessionCompleteCounts(s, id);
    var t := SessionComplete(s, id);
    assert forall j | j in t.entries && Locks(t, j) :: j != id && Locks(s, j);
  }

  lemma AcceptResumedOk(s: State, id: nat)
    requires Ok(s) && s.accept.Resuming? && id !in s.entries
    ensures Ok(AcceptResumed(s, id))
  {
    hide Inv;
    var t := AcceptResumed(s, id);
    if id in t.entries {
      ListedLock(s);
      NewSessionInv();
      assert id !in s.listed;
      assert Incomplete(t) == Incomplete(s) + {id};
      assert SetOf(t.listed) == SetOf(s.listed) + {id};
    }
  }

  lemma SessionEventOk(s: State, id: nat, event: Event)
    requires Ok(s) && id in s.entries && Enabled(s.entries[id].session, event)
    ensures Ok(Apply(s, SessionEvent(id, event)))
  {
    hide Inv, SessionProtocol.Step, Enabled;
    StepInv(s.entries[id].session, event);
    var t := Apply(s, SessionEvent(id, event));
    assert Incomplete(t) == Incomplete(s);
    assert forall j | j in t.entries && Locks(t, j) :: Locks(s, j);
  }

  lemma SessionEndsOk(s: State, id: nat)
    requires Ok(s) && CanStep(s, SessionEnds(id))
    ensures Ok(Apply(s, SessionEnds(id)))
  {
    hide Inv;
    var t := Apply(s, SessionEnds(id));
    assert Incomplete(t) == Incomplete(s);
    assert forall j | j in t.entries && Locks(t, j) :: Locks(s, j);
  }

  lemma TimerOk(s: State, step: Step)
    requires Ok(s) && CanStep(s, step)
    requires step.GracefulExpires? || step.RunGraceful? || step.ForceExpires? || step.RunForce?
    ensures Ok(Apply(s, step))
  {
    hide Inv, RequestStop, AllAsked;
    var t := Apply(s, step);
    if step.RunGraceful? && s.graceful.Expired? {
      var ran := s.(graceful := Ran);
      assert Incomplete(ran) == Incomplete(s);
      assert forall id | id in s.entries && Locks(ran, id) :: Locks(s, id);
      ForceStopOk(ran);
    } else {
      assert Incomplete(t) == Incomplete(s);
      assert forall id | id in t.entries && Locks(t, id) :: Locks(s, id);
    }
  }

  lemma OutsideOk(s: State, step: Step)
    requires Ok(s) && CanStep(s, step)
    requires step.CallStart? || step.CallStop? || step.BeginAccepting? || step.AcceptCompletes?
    ensures Ok(Apply(s, step))
  {
    hide Inv;
    var t := Apply(s, step);
    assert Incomplete(t) == Incomplete(s);
    assert forall id | id in t.entries && Locks(t, id) :: Locks(s, id);
  }

  lemma ApplyOk(s: State, step: Step)
    requires Ok(s) && CanStep(s, step)
    ensures Ok(Apply(s, step))
  {
    hide Ok;
    match step
    case RunBeginStop => BeginStopOk(s);
    case RunAccept(id) => AcceptResumedOk(s, id);
    case SessionEvent(id, event) => SessionEventOk(s, id, event);
    case SessionEnds(id) => SessionEndsOk(s, id);
    case RunSessionComplete(id) => SessionCompleteOk(s, id);
    case GracefulExpires => TimerOk(s, step);
    case RunGraceful => TimerOk(s, step);
    case ForceExpires => TimerOk(s, step);
    case RunForce => TimerOk(s, step);
    case _ => OutsideOk(s, step);
  }

  // --- Whole runs -------------------------------------------------------------------------

  lemma InitialOk()
    ensures Ok(Initial())
  {
  }

  lemma {:induction false} RunKeepsOk(s: State, steps: seq<Step>)
    requires Ok(s) && Runs(s, steps)
    ensures Ok(After(s, steps))
    decreases |steps|
  {
    hide Ok;
    if steps != [] {
      ApplyOk(s, steps[0]);
      RunKeepsOk(Apply(s, steps[0]), steps[1..]);
    }
  }

  /** Every reachable state is consistent. */
  lemma ReachableOk(steps: seq<Step>)
    requires Runs(Initial(), steps)
    ensures Ok(After(Initial(), steps))
  {
    InitialOk();
    RunKeepsOk(Initial(), steps);
  }

  /** In every reachable state the counter, the list and the incomplete sessions agree, and no pointer has expired. */
  lemma CountsAgree(steps: seq<Step>)
    requires Runs(Initial(), steps)
    ensures var s := After(Initial(), steps);
            && s.active == |s.listed| == |Incomplete(s)|
            && (forall id | id in s.listed :: Locks(s, id))
            && (forall id | id in s.entries && Locks(s, id) :: id in s.listed)
  {
    ReachableOk(steps);
    var s := After(Initial(), steps);
    ListedLock(s);
    SizeOfDistinct(s.listed);
  }

  lemma {:induction false} SizeOfDistinct(ids: seq<nat>)
    requires NoDuplicates(ids)
    ensures |SetOf(ids)| == |ids|
  {
    if ids != [] {
      SizeOfDistinct(ids[1..]);
      assert ids[0] !in ids[1..];
      assert SetOf(ids) == SetOf(ids[1..]) + {ids[0]};
    }
  }

  /** Shutdown cannot get stuck: while a session is incomplete, a timer is outstanding or the context is stopped. */
  lemma ShutdownIsDriven(steps: seq<Step>)
    requires Runs(Initial(), steps)
    ensures var s := After(Initial(), steps);
            s.stopRan && Incomplete(s) != {} ==> Outstanding(s.graceful) || Outstanding(s.force) || s.contextStopped
  {
    ReachableOk(steps);
    var s := After(Initial(), steps);
    if s.listed == [] {
      assert SetOf(s.listed) == {};
    }
  }

  /** When the last session has completed no timer is left to wait for. */
  lemma ShutdownSettles(steps: seq<Step>)
    requires Runs(Initial(), steps)
    ensures var s := After(Initial(), steps);
            Incomplete(s) == {} ==> !s.graceful.Waiting? && !s.force.Waiting?
  {
    ReachableOk(steps);
    var s := After(Initial(), steps);
    if s.listed != [] {
      assert s.listed[0] in SetOf(s.listed);
    }
  }

  predicate TimerStep(step: Step) {
    step.GracefulExpires? || step.RunGraceful? || step.ForceExpires? || step.RunForce?
  }

  /** How many timer steps are left at most before every session is complete or the context is stopped. */
  function Stage(s: State): nat {
    if s.contextStopped || s.listed == [] then 0
    else if s.graceful.Waiting? then 4
    else if s.graceful.Expired? then 3
    else if s.force.Waiting? then 2
    else if s.force.Expired? then 1
    else 0
  }

  lemma ListStaysEmpty(s: State, step: Step)
    requires Ok(s) && s.stopRan && CanStep(s, step)
    ensures Apply(s, step).stopRan && Apply(s, step).entries.Keys == s.entries.Keys
    ensures s.listed == [] ==> Apply(s, step).listed == []
    ensures Apply(s, step).listed == s.listed || step.RunSessionComplete?
  {
    hide Inv, SessionProtocol.Step, Enabled, RequestStop;
  }

  /** No step takes shutdown back, and every timer step brings it forward. */
  lemma StageAdvances(s: State, step: Step)
    requires Ok(s) && s.stopRan && CanStep(s, step)
    ensures Stage(Apply(s, step)) <= Stage(s)
    ensures TimerStep(step) && Stage(s) > 0 ==> Stage(Apply(s, step)) < Stage(s)
  {
    hide Inv, SessionProtocol.Step, Enabled, RequestStop, Counted, SessionsOk, AllStopped;
    ListStaysEmpty(s, step);
    if step.RunGraceful? && s.graceful.Expired? {
      ListedAreSnapshot(s);
    }
  }

  lemma ListedAreSnapshot(s: State)
    requires Ok(s)
    ensures Snapshot(s.(graceful := Ran), s.listed) == s.listed
  {
    ListedLock(s);
    SnapshotIsAll(s.(graceful := Ran), s.listed);
  }

  /** While something is left, the timer that drives it can take its step. */
  lemma StageHasStep(s: State)
    requires Ok(s) && s.stopRan && s.listed != [] && !s.contextStopped
    ensures Stage(s) > 0
    ensures exists step :: TimerStep(step) && CanStep(s, step)
  {
    var step :=
      if s.graceful.Waiting? then GracefulExpires else if s.graceful.Expired? then RunGraceful
      else if s.force.Waiting? then ForceExpires else RunForce;
    assert TimerStep(step) && CanStep(s, step);
  }

  function TimerSteps(steps: seq<Step>): nat {
    if steps == [] then 0 else TimerSteps(steps[1..]) + (if TimerStep(steps[0]) then 1 else 0)
  }

  /** Four timer steps after begin_stop, however they race with the sessions, shutdown is over. */
  lemma {:induction false} ShutdownEnds(s: State, steps: seq<Step>)
    requires Ok(s) && s.stopRan && Runs(s, steps)
    ensures var t := After(s, steps);
            && t.stopRan && t.entries.Keys == s.entries.Keys
            && Stage(t) <= Stage(s) <= 4
            && (TimerSteps(steps) >= 4 ==> Incomplete(t) == {} || t.contextStopped)
  {
    RunAdvances(s, steps);
    RunKeepsOk(s, steps);
    var t := After(s, steps);
    if TimerSteps(steps) >= 4 && !t.contextStopped {
      if t.listed != [] {
        StageHasStep(t);
      }
      assert SetOf(t.listed) == {};
    }
  }

  lemma {:induction false} RunAdvances(s: State, steps: seq<Step>)
    requires Ok(s) && s.stopRan && Runs(s, steps)
    ensures var t := After(s, steps);
            && t.stopRan && t.entries.Keys == s.entries.Keys && Stage(t) <= Stage(s)
            && (Stage(t) == 0 || Stage(t) + TimerSteps(steps) <= Stage(s))
    decreases |steps|
  {
    hide Ok, Stage, TimerStep;
    if steps != [] {
      var next := Apply(s, steps[0]);
      ListStaysEmpty(s, steps[0]);
      StageAdvances(s, steps[0]);
      ApplyOk(s, steps[0]);
      RunAdvances(next, steps[1..]);
    }
  }

  /** Stop reaches everyone: once begin_stop has run, no session is added and every incomplete one is stopped. */
  lemma StopReachesAll(before: seq<Step>, after: seq<Step>)
    requires Runs(Initial(), before) && After(Initial(), before).stopRan && Runs(After(Initial(), before), after)
    ensures var s, t := After(Initial(), before), After(After(Initial(), before), after);
            && t.stopRan && t.entries.Keys == s.entries.Keys
            && forall id | id in t.entries && Locks(t, id) :: t.entries[id].session.stopRequested
  {
    ReachableOk(before);
    RunAdvances(After(Initial(), before), after);
    RunKeepsOk(After(Initial(), before), after);
  }

  /** What every session keeps to in every reachable state. */
  lemma SessionsKeepTheirPromises(steps: seq<Step>, id: nat)
    requires Runs(Initial(), steps) && id in After(Initial(), steps).entries
    ensures var x := After(Initial(), steps).entries[id].session;
            // a read after the request belongs to an iteration that had already looked at the flag
            && x.lateReads <= (if x.stoppedInside then 1 else 0)
            && x.lateCalls <= 1
            && !x.lateKeepAlive
            && (x.stopRequested && x.pc.HeaderRead? && x.op.Pending? ==> x.closures != [])
            && (!x.socketOpen ==> !x.op.Pending?)
  {
    ReachableOk(steps);
  }

  // --- Soft and forced stops --------------------------------------------------------------

  /** Until the force stop nobody is forced; from then on every incomplete session is. */
  predicate Forces(s: State) {
    forall id | id in s.entries ::
      && (s.force.Unset? ==> Unforced(s.entries[id].session))
      && (!s.force.Unset? && Locks(s, id) ==> CutOff(s.entries[id].session))
  }

  lemma BeginStopForces(s: State)
    requires Ok(s) && s.stopPosted && Forces(s)
    ensures Forces(BeginStop(s))
  {
    hide Inv, RequestStop, Unforced, CutOff;
    var t := BeginStop(s);
    forall id | id in t.entries ensures Unforced(t.entries[id].session) {
      RequestForces(s.entries[id].session, false);
    }
  }

  lemma ForceStopForces(s: State)
    requires Counted(s) && StagesOk(s) && s.force.Unset? && Forces(s)
    ensures Forces(ForceStop(s))
  {
    hide Inv, RequestStop, Unforced, CutOff;
    ListedLock(s);
    SnapshotIsAll(s, s.listed);
    var t := ForceStop(s);
    if s.listed == [] {
      assert t.entries == s.entries;
    }
    forall id | id in t.entries && Locks(t, id) ensures s.listed != [] ==> CutOff(t.entries[id].session) {
      assert Locks(s, id);
      assert id in SetOf(s.listed);
      RequestForces(s.entries[id].session, true);
    }
  }

  lemma SessionEventForces(s: State, id: nat, event: Event)
    requires Forces(s) && id in s.entries && Enabled(s.entries[id].session, event)
    ensures Forces(Apply(s, SessionEvent(id, event)))
  {
    hide Enabled, SessionProtocol.Step, Unforced, CutOff;
    StepForces(s.entries[id].session, event);
    var t := Apply(s, SessionEvent(id, event));
    assert forall j | j in t.entries && Locks(t, j) :: Locks(s, j);
  }

  lemma NewSessionIsUnforced()
    ensures Unforced(NewSession())
  {
  }

  lemma OtherStepForces(s: State, step: Step)
    requires Ok(s) && Forces(s) && CanStep(s, step)
    requires !step.RunBeginStop? && !step.RunGraceful? && !step.SessionEvent?
    ensures Forces(Apply(s, step))
  {
    hide Inv, Counted, SessionsOk, AllStopped, Enabled, SessionProtocol.Step, Unforced, CutOff, Driven, Settled;
    NewSessionIsUnforced();
    var t := Apply(s, step);
    assert forall j | j in s.entries && Locks(t, j) :: Locks(s, j);
    assert forall j | j in t.entries && j !in s.entries :: t.entries[j].session == NewSession() && s.force.Unset?;
  }

  lemma StepForcesAll(s: State, step: Step)
    requires Ok(s) && Forces(s) && CanStep(s, step)
    ensures Forces(Apply(s, step))
  {
    hide Inv, Forces, AllAsked;
    if step.RunBeginStop? {
      BeginStopForces(s);
    } else if step.SessionEvent? {
      SessionEventForces(s, step.id, step.event);
    } else if step.RunGraceful? {
      GracefulForces(s);
    } else {
      OtherStepForces(s, step);
    }
  }

  lemma GracefulForces(s: State)
    requires Ok(s) && Forces(s) && CanStep(s, RunGraceful)
    ensures Forces(Apply(s, RunGraceful))
  {
    hide Inv, AllAsked, Unforced, CutOff, SessionsOk, AllStopped;
    var ran := s.(graceful := Ran);
    assert Incomplete(ran) == Incomplete(s);
    assert forall id | id in s.entries && Locks(ran, id) :: Locks(s, id);
    assert Forces(ran);
    if s.graceful.Expired? {
      ForceStopForces(ran);
    }
  }

  lemma {:induction false} RunForces(s: State, steps: seq<Step>)
    requires Ok(s) && Forces(s) && Runs(s, steps)
    ensures Forces(After(s, steps))
    decreases |steps|
  {
    hide Ok, Forces;
    if steps != [] {
      ApplyOk(s, steps[0]);
      StepForcesAll(s, steps[0]);
      RunForces(Apply(s, steps[0]), steps[1..]);
    }
  }

  /** Until the force stop no session loses its socket to the server, and every stop that is posted is a soft one. */
  lemma GracefulWaitIsGentle(steps: seq<Step>, id: nat)
    requires Runs(Initial(), steps) && After(Initial(), steps).force.Unset?
    requires id in After(Initial(), steps).entries
    ensures var x := After(Initial(), steps).entries[id].session;
            true !in x.closures && (x.socketOpen || x.pc.Ended?)
  {
    InitialOk();
    RunForces(Initial(), steps);
  }

  /**
   The force stop reaches everyone: each session that is not complete has its socket closed or the closure posted
   that closes it; once its closures have run it waits for no socket operation, and ends after a bounded number
   of its own segments, if only its handler returns.
   */
  lemma ForceStopReachesAll(steps: seq<Step>, id: nat) returns (actions: seq<Action>)
    requires Runs(Initial(), steps) && !After(Initial(), steps).force.Unset?
    requires id in After(Initial(), steps).entries && Locks(After(Initial(), steps), id)
    ensures var x := After(Initial(), steps).entries[id].session;
            && (!x.socketOpen || true in x.closures)
            && (x.closures == [] ==>
                && !x.op.Pending?
                && SessionProtocol.Runs(x, actions) && SessionProtocol.After(x, actions).pc.Ended?
                && |actions| <= SegmentsLeft(x.pc)
                && forall k | 0 <= k < |actions| :: actions[k].Do? && Segment(actions[k].event))
  {
    hide Inv;
    InitialOk();
    RunForces(Initial(), steps);
    ReachableOk(steps);
    var x := After(Initial(), steps).entries[id].session;
    actions := [];
    if x.closures == [] {
      CutOffWaitsForNoSocket(x);
      actions := CutOffRunsOut(x);
    }
  }

  // --- What only the environment can cause ------------------------------------------------

  /** A session is added exactly when the accept loop resumes with a connection while the acceptor is open. */
  lemma SessionIsAddedIff(s: State, step: Step, id: nat)
    requires CanStep(s, step) && id !in s.entries
    ensures id in Apply(s, step).entries
            <==> step == RunAccept(id) && s.accept == Resuming(Accepted) && s.acceptorOpen
    ensures id in Apply(s, step).entries ==>
              var t := Apply(s, step);
              && t.entries[id] == Entry(NewSession(), Running)
              && t.listed == s.listed + [id] && t.active == s.active + 1
  {
    hide SessionProtocol.Step, Enabled, RequestStop, NewSession, Apply;
    if step.RunAccept? {
      AcceptAddsIff(s, step.id, id);
    } else {
      OthersAddNothing(s, step);
    }
  }

  lemma AcceptAddsIff(s: State, id: nat, j: nat)
    requires s.accept.Resuming? && j !in s.entries && id !in s.entries
    ensures Apply(s, RunAccept(id)) == AcceptResumed(s, id)
    ensures j in AcceptResumed(s, id).entries <==> j == id && s.accept == Resuming(Accepted) && s.acceptorOpen
    ensures j in AcceptResumed(s, id).entries ==>
              var t := AcceptResumed(s, id);
              && t.entries[j] == Entry(NewSession(), Running)
              && t.listed == s.listed + [j] && t.active == s.active + 1
  {
    hide NewSession;
  }

  lemma OthersAddNothing(s: State, step: Step)
    requires CanStep(s, step) && !step.RunAccept?
    ensures Apply(s, step).entries.Keys == s.entries.Keys
  {
    hide SessionProtocol.Step, Enabled, RequestStop, BeginStop, ForceStop, SessionComplete, AcceptResumed;
    hide Apply, CanStep;
    match step
    case RunBeginStop => BeginStopAddsNothing(s);
    case RunGraceful => BeginStopAddsNothing(s);
    case RunSessionComplete(_) => SessionsAddNothing(s, step);
    case SessionEvent(_, _) => SessionsAddNothing(s, step);
    case SessionEnds(_) => SessionsAddNothing(s, step);
    case _ => TheRestAddsNothing(s, step);
  }

  lemma SessionsAddNothing(s: State, step: Step)
    requires CanStep(s, step) && (step.RunSessionComplete? || step.SessionEvent? || step.SessionEnds?)
    ensures Apply(s, step).entries.Keys == s.entries.Keys
  {
    hide SessionProtocol.Step, Enabled, RequestStop, BeginStop, ForceStop, AcceptResumed, Without;
  }

  lemma TheRestAddsNothing(s: State, step: Step)
    requires CanStep(s, step) && !step.RunAccept? && !step.RunBeginStop? && !step.RunGraceful?
    requires !step.RunSessionComplete? && !step.SessionEvent? && !step.SessionEnds?
    ensures Apply(s, step).entries == s.entries
  {
    hide SessionProtocol.Step, Enabled, RequestStop, BeginStop, ForceStop, AcceptResumed, SessionComplete, CanStep;
    match step
    case CallStop =>
    case _ =>
  }

  lemma BeginStopAddsNothing(s: State)
    ensures CanStep(s, RunBeginStop) ==> Apply(s, RunBeginStop).entries.Keys == s.entries.Keys
    ensures CanStep(s, RunGraceful) ==> Apply(s, RunGraceful).entries.Keys == s.entries.Keys
  {
    hide RequestStop, Snapshot;
  }

  /** The accept loop has been spawned and goes on. */
  predicate Accepts(a: Accept) {
    a.Posted? || a.Accepting? || a == Resuming(Accepted) || a == Resuming(AcceptFailed)
  }

  lemma LoopStaysStep(s: State, step: Step)
    requires Ok(s) && CanStep(s, step) && step != AcceptCompletes(AcceptAborted)
    requires s.started && !s.stopRan ==> Accepts(s.accept)
    ensures Apply(s, step).started && !Apply(s, step).stopRan ==> Accepts(Apply(s, step).accept)
  {
    hide Inv, Counted, SessionsOk, AllStopped, Driven, Settled, SessionProtocol.Step, Enabled, RequestStop, AllAsked;
    hide SessionComplete;
    match step
    case AcceptCompletes(result) =>
      assert result.AcceptAborted? ==> step == AcceptCompletes(AcceptAborted);
    case RunSessionComplete(id) => CompletionKeepsAccept(s, id);
    case _ =>
  }

  lemma CompletionKeepsAccept(s: State, id: nat)
    requires id in s.entries
    ensures SessionComplete(s, id).accept == s.accept && SessionComplete(s, id).started == s.started
    ensures SessionComplete(s, id).stopRan == s.stopRan
  {
  }

  /** Until begin_stop runs a started server accepts, through any failures, unless an accept is aborted. */
  lemma {:induction false} LoopStays(s: State, steps: seq<Step>)
    requires Ok(s) && Runs(s, steps) && (s.started && !s.stopRan ==> Accepts(s.accept))
    requires forall k | 0 <= k < |steps| :: steps[k] != AcceptCompletes(AcceptAborted)
    ensures var t := After(s, steps); t.started && !t.stopRan ==> Accepts(t.accept)
    decreases |steps|
  {
    hide Ok, Apply, CanStep, Accepts;
    if steps != [] {
      ApplyOk(s, steps[0]);
      LoopStaysStep(s, steps[0]);
      LoopStays(Apply(s, steps[0]), steps[1..]);
    }
  }

  lemma ServerAccepts(steps: seq<Step>)
    requires Runs(Initial(), steps)
    requires forall k | 0 <= k < |steps| :: steps[k] != AcceptCompletes(AcceptAborted)
    ensures var t := After(Initial(), steps); t.started && !t.stopRan ==> Accepts(t.accept)
  {
    InitialOk();
    LoopStays(Initial(), steps);
  }

  /** An expiry that is queued is not taken back: its handler runs. */
  lemma QueuedExpiryIsKept(s: State, step: Step)
    requires Ok(s) && CanStep(s, step)
    ensures s.graceful.Expired? && step != RunGraceful ==> Apply(s, step).graceful.Expired?
    ensures s.force.Expired? && step != RunForce ==> Apply(s, step).force.Expired?
  {
    hide Inv, Counted, SessionsOk, AllStopped, Driven, Settled, SessionProtocol.Step, Enabled, RequestStop, AllAsked;
    hide Snapshot, Without;
  }

  lemma ForceNeedsExpiryStep(s: State, step: Step)
    requires Ok(s) && CanStep(s, step)
    ensures step != GracefulExpires && !s.graceful.Expired? && s.force.Unset? ==>
              !Apply(s, step).graceful.Expired? && Apply(s, step).force.Unset?
    ensures step != ForceExpires && !s.force.Expired? && !s.contextStopped ==>
              !Apply(s, step).force.Expired? && !Apply(s, step).contextStopped
  {
    hide Inv, Counted, SessionsOk, AllStopped, SessionProtocol.Step, Enabled, RequestStop, AllAsked;
  }

  /** Sessions are forced only after the graceful wait expired, the context is stopped only after the force wait did. */
  lemma {:induction false} ForceNeedsExpiry(s: State, steps: seq<Step>)
    requires Ok(s) && Runs(s, steps)
    ensures var t := After(s, steps);
            && (!s.graceful.Expired? && s.force.Unset? && GracefulExpires !in steps ==>
                !t.graceful.Expired? && t.force.Unset?)
            && (!s.force.Expired? && !s.contextStopped && ForceExpires !in steps ==>
                !t.force.Expired? && !t.contextStopped)
    decreases |steps|
  {
    hide Ok, Apply, CanStep;
    if steps != [] {
      ApplyOk(s, steps[0]);
      ForceNeedsExpiryStep(s, steps[0]);
      ForceNeedsExpiry(Apply(s, steps[0]), steps[1..]);
      assert steps[0] in steps && forall step | step in steps[1..] :: step in steps;
    }
  }

  /** A shutdown in time forces nobody: without an expiry no session is cut off and the context runs. */
  lemma ShutdownInTime(steps: seq<Step>)
    requires Runs(Initial(), steps)
    ensures GracefulExpires !in steps ==> After(Initial(), steps).force.Unset?
    ensures ForceExpires !in steps ==> !After(Initial(), steps).contextStopped
  {
    InitialOk();
    ForceNeedsExpiry(Initial(), steps);
  }

  function SegmentsOf(steps: seq<Step>, id: nat): nat {
    if steps == [] then 0
    else
      SegmentsOf(steps[1..], id)
      + (if steps[0].SessionEvent? && steps[0].id == id && Segment(steps[0].event) then 1 else 0)
  }

  lemma StepOnSession(s: State, step: Step, id: nat)
    requires Ok(s) && CanStep(s, step) && id in s.entries && s.entries[id].session.stopRequested
    ensures id in Apply(s, step).entries && Apply(s, step).entries[id].session.stopRequested
    ensures var x, y := s.entries[id].session, Apply(s, step).entries[id].session;
            if step.SessionEvent? && step.id == id then
              Enabled(x, step.event) && y == SessionProtocol.Step(x, step.event)
            else y.pc == x.pc
  {
    hide Inv, SessionProtocol.Step, Enabled, RequestStop;
    RequestKeepsPc();
    if step.SessionEvent? {
      StepInv(s.entries[step.id].session, step.event);
    }
  }

  /** After its stop request a session takes only a bounded number of further segments, in any run. */
  lemma {:induction false} StoppedSessionEnds(s: State, steps: seq<Step>, id: nat)
    requires Ok(s) && Runs(s, steps) && id in s.entries && s.entries[id].session.stopRequested
    ensures id in After(s, steps).entries
    ensures SegmentsLeft(After(s, steps).entries[id].session.pc) + SegmentsOf(steps, id)
         <= SegmentsLeft(s.entries[id].session.pc)
    decreases |steps|
  {
    hide Ok, SegmentsLeft, Segment, Apply, CanStep;
    if steps != [] {
      ApplyOk(s, steps[0]);
      StepOnSession(s, steps[0], id);
      SessionAdvances(s, steps[0], id);
      StoppedSessionEnds(Apply(s, steps[0]), steps[1..], id);
    }
  }

  lemma SessionAdvances(s: State, step: Step, id: nat)
    requires Ok(s) && CanStep(s, step) && id in s.entries && s.entries[id].session.stopRequested
    requires id in Apply(s, step).entries
    ensures SegmentsLeft(Apply(s, step).entries[id].session.pc)
            + (if step.SessionEvent? && step.id == id && Segment(step.event) then 1 else 0)
         <= SegmentsLeft(s.entries[id].session.pc)
  {
    hide SegmentsLeft, Segment, Inv, Apply, CanStep, SessionProtocol.Step;
    StepOnSession(s, step, id);
    if step.SessionEvent? && step.id == id {
      StoppedSessionAdvances(s.entries[id].session, step.event);
    }
  }

  /** The one gap: a stop before the start is forgotten, so the server then runs as if it had not been called. */
  lemma StopBeforeStartIsForgotten(s: State, steps: seq<Step>)
    requires !s.started && Runs(s, steps)
    ensures Runs(s, [CallStop] + steps) && After(s, [CallStop] + steps) == After(s, steps)
  {
    assert ([CallStop] + steps)[1..] == steps;
  }

  /** In every reachable state a stop is heard if and only if the server has been started. */
  lemma StopIsHeardIff(steps: seq<Step>)
    requires Runs(Initial(), steps)
    ensures var s := After(Initial(), steps);
            var t := Apply(s, CallStop);
            t.stopPosted || t.stopRan <==> s.started
  {
    ReachableOk(steps);
  }

  /** Whatever happens, a stop that was heard is not lost: it has been carried out, or begin_stop can run. */
  lemma {:induction false} StopIsKept(s: State, steps: seq<Step>)
    requires Ok(s) && (s.stopPosted || s.stopRan) && Runs(s, steps)
    ensures var t := After(s, steps); t.stopRan || (t.stopPosted && CanStep(t, RunBeginStop))
    decreases |steps|
  {
    hide Ok;
    if steps != [] {
      ApplyOk(s, steps[0]);
      StopIsKeptByStep(s, steps[0]);
      StopIsKept(Apply(s, steps[0]), steps[1..]);
    }
  }

  lemma StopIsKeptByStep(s: State, step: Step)
    requires Ok(s) && (s.stopPosted || s.stopRan) && CanStep(s, step)
    ensures Apply(s, step).stopPosted || Apply(s, step).stopRan
    ensures TimerStep(step) ==> s.stopRan
  {
    hide Inv, SessionProtocol.Step, Enabled, RequestStop;
  }

  /**
   A stop that was heard ends the server: in any run that follows, begin_stop has run or can run, and once
   four timer steps have been taken every session is complete or the context is stopped.
   */
  lemma {:induction false} HeardStopEnds(s: State, steps: seq<Step>)
    requires Ok(s) && (s.stopPosted || s.stopRan) && Runs(s, steps)
    ensures var t := After(s, steps);
            && (t.stopRan || CanStep(t, RunBeginStop))
            && (TimerSteps(steps) >= 4 ==> t.stopRan && (Incomplete(t) == {} || t.contextStopped))
    decreases |steps|
  {
    hide Ok, TimerStep, Apply, CanStep;
    StopIsKept(s, steps);
    if s.stopRan {
      ShutdownEnds(s, steps);
    } else if steps != [] {
      ApplyOk(s, steps[0]);
      StopIsKeptByStep(s, steps[0]);
      HeardStopEnds(Apply(s, steps[0]), steps[1..]);
    }
  }

  /** Stopping a started server, in whatever state it is, ends it. */
  lemma StopEndsStartedServer(before: seq<Step>, after: seq<Step>)
    requires Runs(Initial(), before) && After(Initial(), before).started
    requires Runs(Apply(After(Initial(), before), CallStop), after)
    ensures var t := After(Apply(After(Initial(), before), CallStop), after);
            && (t.stopRan || CanStep(t, RunBeginStop))
            && (TimerSteps(after) >= 4 ==> t.stopRan && (Incomplete(t) == {} || t.contextStopped))
  {
    hide Ok, Apply;
    ReachableOk(before);
    StopIsHeardIff(before);
    ApplyOk(After(Initial(), before), CallStop);
    HeardStopEnds(Apply(After(Initial(), before), CallStop), after);
  }
}
