/** The callbacks of the server, updating its fields, proved to take the steps of the shutdown protocol. */
module RawServer {
  import opened Sequences
  import opened SessionProtocol
  import opened ShutdownProtocol

  class Server {
    var started: bool
    var stopping: bool
    var stopPosted: bool
    var stopRan: bool
    var acceptorOpen: bool
    var accept: Accept
    var sessions: seq<nat>
    var activeSessions: nat
    var entries: map<nat, Entry>
    var graceful: Timer
    var force: Timer
    var contextStopped: bool

    ghost function View(): State
      reads this
    {
      State(started, stopping, stopPosted, stopRan, acceptorOpen, accept, sessions, activeSessions, entries, graceful,
            force, contextStopped)
    }

    ghost predicate Valid()
      reads this
    {
      Ok(View())
    }

    constructor ()
      ensures Valid() && View() == Initial()
    {
      started, stopping, stopPosted, stopRan := false, false, false, false;
      acceptorOpen, accept := true, NotSpawned;
      sessions, activeSessions, entries := [], 0, map[];
      graceful, force, contextStopped := Unset, Unset, false;
      new;
      InitialOk();
    }

    /** Starting twice is refused. */
    method Start() returns (refused: bool)
      requires Valid()
      modifies this
      ensures Valid() && refused == old(started)
      ensures View() == if refused then old(View()) else Apply(old(View()), CallStart)
    {
      if started {
        return true;
      }
      ApplyOk(View(), CallStart);
      started := true;
      accept := Posted;
      return false;
    }

    method Stop()
      requires Valid()
      modifies this
      ensures Valid() && View() == Apply(old(View()), CallStop)
    {
      ApplyOk(View(), CallStop);
      if !started || stopping {
        return;
      }
      stopping := true;
      stopPosted := true;
    }

    method SessionSnapshot() returns (result: seq<nat>)
      requires Counted(View())
      ensures result == Snapshot(View(), sessions) == sessions
    {
      hide Counted;
      result := [];
      ghost var s := View();
      assert sessions[0..] == sessions;
      EmptySnapshot(s, sessions);
      for index := 0 to |sessions|
        invariant result + Snapshot(s, sessions[index..]) == Snapshot(s, sessions)
      {
        SnapshotStep(s, sessions, index, result);
        if sessions[index] in entries && !entries[sessions[index]].completion.Complete? {
          result := result + [sessions[index]];
        }
      }
      assert sessions[|sessions|..] == [];
      assert result + [] == result;
      AllListed(s);
    }

    method RequestSessionStop(id: nat, forced: bool)
      requires id in entries
      modifies `entries
      ensures entries == old(entries)[id := old(entries)[id].(session := RequestStop(old(entries)[id].session, forced))]
    {
      var entry := entries[id];
      entries := entries[id := entry.(session := RequestStop(entry.session, forced))];
    }

    method RequestAll(snapshot: seq<nat>, forced: bool)
      requires NoDuplicates(snapshot) && forall id | id in snapshot :: id in entries
      modifies `entries
      ensures entries == AllAsked(old(entries), SetOf(snapshot), forced)
    {
      hide RequestStop;
      ghost var before := entries;
      NobodyAsked(entries, forced);
      for index := 0 to |snapshot|
        invariant entries == AllAsked(before, SetOf(snapshot[..index]), forced)
      {
        OneMoreAsked(before, snapshot, index, forced);
        RequestSessionStop(snapshot[index], forced);
      }
      assert snapshot[..|snapshot|] == snapshot;
    }

    method RunBeginStop()
      requires Valid() && stopPosted
      modifies this
      ensures Valid() && View() == Apply(old(View()), ShutdownProtocol.RunBeginStop)
    {
      hide Ok, AllAsked, Inv, RequestStop, SetOf, Counted, NoDuplicates, Snapshot, Locks, Apply, CanStep;
      ghost var s := View();
      CanBeginStop(s);
      ValidIsCounted(s);
      AllListed(s);
      BeginStopSpelledOut(s);
      var snapshot := SessionSnapshot();
      stopPosted, stopRan := false, true;
      if accept.Accepting? {
        accept := Resuming(AcceptAborted);
      }
      acceptorOpen := false;
      RequestAll(snapshot, false);
      if snapshot == [] {
        return;
      }
      graceful := Waiting;
    }

    method ForceStop()
      requires Counted(View())
      modifies this
      ensures View() == ShutdownProtocol.ForceStop(old(View()))
    {
      hide AllAsked, Counted;
      AllListed(View());
      var snapshot := SessionSnapshot();
      RequestAll(snapshot, true);
      if snapshot == [] {
        return;
      }
      force := Waiting;
    }

    /** The handler of the graceful wait: an aborted wait does nothing. */
    method RunGraceful()
      requires Valid() && (graceful.Expired? || graceful.Cancelled?)
      modifies this
      ensures Valid() && View() == Apply(old(View()), ShutdownProtocol.RunGraceful)
    {
      hide Inv;
      ghost var s := View();
      ApplyOk(s, ShutdownProtocol.RunGraceful);
      var expired := graceful.Expired?;
      graceful := Ran;
      SameSessions(s, View());
      if expired {
        ForceStop();
      }
    }

    method RunForce()
      requires Valid() && (force.Expired? || force.Cancelled?)
      modifies this
      ensures Valid() && View() == Apply(old(View()), ShutdownProtocol.RunForce)
    {
      ApplyOk(View(), ShutdownProtocol.RunForce);
      var expired := force.Expired?;
      force := Ran;
      if expired {
        contextStopped := true;
      }
    }

    method CancelTimer()
      modifies `graceful, `force
      ensures graceful == Cancel(old(graceful)) && force == Cancel(old(force))
    {
      if graceful.Waiting? {
        graceful := Cancelled;
      }
      if force.Waiting? {
        force := Cancelled;
      }
    }

    /** The counter cannot wrap around: the completing session is one of those it counts. */
    method RunSessionComplete(id: nat)
      requires Valid() && id in entries && entries[id].completion.Queued?
      modifies this
      ensures Valid() && View() == Apply(old(View()), ShutdownProtocol.RunSessionComplete(id))
    {
      hide Inv, Ok, RequestStop, AllAsked, Snapshot;
      ghost var s := View();
      ApplyOk(s, ShutdownProtocol.RunSessionComplete(id));
      CompletingIsCounted(s, id);
      EraseSession(id);
      activeSessions := activeSessions - 1;
      entries := entries[id := entries[id].(completion := Complete)];
      if stopping && sessions == [] {
        CancelTimer();
      }
    }

    method EraseSession(id: nat)
      modifies `sessions
      ensures sessions == Without(old(View()), old(sessions), id)
    {
      ghost var s := View();
      var kept: seq<nat> := [];
      assert sessions[0..] == sessions;
      EmptyWithout(s, sessions, id);
      for index := 0 to |sessions|
        invariant View() == s
        invariant kept + Without(s, sessions[index..], id) == Without(s, sessions, id)
      {
        WithoutStep(s, sessions, index, id, kept);
        var current := sessions[index];
        if current in entries && !entries[current].completion.Complete? && current != id {
          kept := kept + [current];
        }
      }
      assert sessions[|sessions|..] == [];
      assert kept + [] == kept;
      sessions := kept;
    }

    /** One round of the accept loop; `id` is the identity of the session it may spawn. */
    method ResumeAccept(id: nat)
      requires Valid() && accept.Resuming? && id !in entries
      modifies this
      ensures Valid() && View() == Apply(old(View()), RunAccept(id))
    {
      hide Ok, Inv, RequestStop, AllAsked, Snapshot;
      ApplyOk(View(), RunAccept(id));
      if accept.result.AcceptAborted? || !acceptorOpen {
        accept := Left;
        return;
      }
      if accept.result.AcceptFailed? {
        accept := Accepting;
        return;
      }
      sessions := sessions + [id];
      activeSessions := activeSessions + 1;
      entries := entries[id := Entry(NewSession(), Running)];
      accept := Accepting;
    }
  }

  // --- Facts the loops use ----------------------------------------------------------------

  lemma EmptySnapshot(s: State, ids: seq<nat>)
    ensures [] + Snapshot(s, ids) == Snapshot(s, ids)
  {
  }

  lemma SnapshotStep(s: State, ids: seq<nat>, index: nat, done: seq<nat>)
    requires index < |ids|
    ensures done + Snapshot(s, ids[index..])
         == (if Locks(s, ids[index]) then done + [ids[index]] else done) + Snapshot(s, ids[index + 1..])
  {
    assert ids[index..][0] == ids[index] && ids[index..][1..] == ids[index + 1..];
  }

  lemma EmptyWithout(s: State, ids: seq<nat>, id: nat)
    ensures [] + Without(s, ids, id) == Without(s, ids, id)
  {
  }

  lemma WithoutStep(s: State, ids: seq<nat>, index: nat, id: nat, kept: seq<nat>)
    requires index < |ids|
    ensures kept + Without(s, ids[index..], id)
         == (if Locks(s, ids[index]) && ids[index] != id then kept + [ids[index]] else kept)
            + Without(s, ids[index + 1..], id)
  {
    assert ids[index..][0] == ids[index] && ids[index..][1..] == ids[index + 1..];
  }

  lemma AllListed(s: State)
    requires Counted(s)
    ensures Snapshot(s, s.listed) == s.listed && NoDuplicates(s.listed)
    ensures forall id | id in s.listed :: id in s.entries
  {
    ListedLock(s);
    SnapshotIsAll(s, s.listed);
  }

  lemma CanBeginStop(s: State)
    requires Ok(s) && s.stopPosted
    ensures CanStep(s, ShutdownProtocol.RunBeginStop) && Ok(Apply(s, ShutdownProtocol.RunBeginStop))
  {
    hide Ok;
    ApplyOk(s, ShutdownProtocol.RunBeginStop);
  }

  lemma BeginStopSpelledOut(s: State)
    requires s.stopPosted && Snapshot(s, s.listed) == s.listed
    ensures CanStep(s, ShutdownProtocol.RunBeginStop)
    ensures Apply(s, ShutdownProtocol.RunBeginStop)
         == s.(acceptorOpen := false,
               accept := if s.accept.Accepting? then Resuming(AcceptAborted) else s.accept,
               entries := AllAsked(s.entries, SetOf(s.listed), false),
               graceful := if s.listed == [] then s.graceful else Waiting,
               stopPosted := false, stopRan := true)
  {
    hide AllAsked, Snapshot;
  }

  lemma ValidIsCounted(s: State)
    requires Ok(s)
    ensures Counted(s)
  {
  }

  lemma NobodyAsked(entries: map<nat, Entry>, forced: bool)
    ensures AllAsked(entries, SetOf([]), forced) == entries
  {
  }

  lemma OneMoreAsked(entries: map<nat, Entry>, ids: seq<nat>, index: nat, forced: bool)
    requires index < |ids| && NoDuplicates(ids) && ids[index] in entries
    ensures var id := ids[index];
            var asked := AllAsked(entries, SetOf(ids[..index]), forced);
            && id in asked
            && AllAsked(entries, SetOf(ids[..index + 1]), forced)
               == asked[id := asked[id].(session := RequestStop(asked[id].session, forced))]
  {
    hide RequestStop;
    assert ids[..index + 1] == ids[..index] + [ids[index]];
    assert ids[index] !in ids[..index];
  }

  lemma SameSessions(s: State, t: State)
    requires Ok(s) && t.listed == s.listed && t.active == s.active && t.entries == s.entries
    ensures Counted(t)
  {
    assert Incomplete(t) == Incomplete(s);
  }

  lemma CompletingIsCounted(s: State, id: nat)
    requires Ok(s) && id in s.entries && s.entries[id].completion.Queued?
    ensures s.active > 0
  {
    ListedLock(s);
    assert Locks(s, id);
  }
}
