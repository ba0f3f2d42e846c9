/**
 * The terminal session table of server/index.js: `sessions` maps a session id to
 * its pseudo-terminal, the WebSocket attached to it (none at first) and the idle
 * timer that kills a terminal no socket attaches to; beside it, the persisted map
 * from track name to Claude session token.
 *
 * Terminals, sockets and timers are opaque handles supplied by the caller (what
 * `spawn`, the upgrade and `setTimeout` return); the calls made on them are
 * returned as effects. Each operation is stated as a step function, and the
 * `SessionManager` class performs it on its fields.
 */
module Sessions {
  import opened Wrappers
  import T = Terminal
  import N = TrackNames

  datatype Session = Session(pty: nat, ws: Option<nat>, wsTimeout: nat)

  /** The foreign calls an operation makes, in order. */
  datatype Effect = Spawn(pty: nat, args: seq<string>) | KillPty(pty: nat) | CloseWs(ws: nat) | ClearTimer(timer: nat)

  datatype Table = Table(sessions: map<string, Session>, registry: map<string, string>)

  /** An operation's outcome: the new table, the reply and the effects. */
  datatype Step<R> = Step(next: Table, reply: R, effects: seq<Effect>)

  /** The route refused because the id is unknown (404 Session not found). */
  datatype NotFound = SessionNotFound

  /** Killing a session's terminal, then closing its socket if one is attached. */
  function Teardown(s: Session): seq<Effect> {
    [KillPty(s.pty)] + (if s.ws.Some? then [CloseWs(s.ws.value)] else [])
  }

  /** What shutdown does to each session: clear its timer, then tear it down. */
  function Shutdown(s: Session): seq<Effect> {
    [ClearTimer(s.wsTimeout)] + Teardown(s)
  }

  /** The table without `id`; the persisted map is untouched. */
  function Without(t: Table, id: string): (u: Table)
    ensures id !in u.sessions && u.registry == t.registry
    ensures forall k :: k in u.sessions <==> k in t.sessions && k != id
    ensures forall k :: k in u.sessions ==> u.sessions[k] == t.sessions[k]
  {
    t.(sessions := t.sessions - {id})
  }

  /** The create route failed because `spawn` threw (500). */
  datatype SpawnError = SpawnFailed

  /**
   * `POST /api/terminal/create`: choose the launch arguments (saving the token map
   * as they say), spawn the terminal `pty` with them, and enter the session
   * unattached with idle timer `timer`. When `spawn` throws (`spawnOk` false) the
   * route fails with no session entered, but the token map was already saved.
   */
  function CreateStep(t: Table, id: string, trackName: string, newToken: string, trackSize: Option<nat>,
                      spawnOk: bool, pty: nat, timer: nat): (o: Step<Result<string, SpawnError>>)
    ensures var l := T.SelectLaunch(t.registry, trackName, newToken, trackSize);
      o.next.registry == l.registry
    ensures spawnOk ==>
      && o.reply == Success(id)
      && o.next.sessions == t.sessions[id := Session(pty, None, timer)]
      && o.effects == [Spawn(pty, T.SelectLaunch(t.registry, trackName, newToken, trackSize).args)]
    ensures !spawnOk ==> o.reply == Failure(SpawnFailed) && o.next.sessions == t.sessions && o.effects == []
  {
    var l := T.SelectLaunch(t.registry, trackName, newToken, trackSize);
    if spawnOk then
      Step(Table(t.sessions[id := Session(pty, None, timer)], l.registry), Success(id), [Spawn(pty, l.args)])
    else
      Step(Table(t.sessions, l.registry), Failure(SpawnFailed), [])
  }

  /**
   * The WebSocket upgrade for `id`: refused (socket destroyed) for an unknown id;
   * otherwise `ws` is attached and the idle timer cleared.
   */
  function AttachStep(t: Table, id: string, ws: nat): (o: Step<bool>)
    ensures o.reply <==> id in t.sessions
    ensures !o.reply ==> o.next == t && o.effects == []
    ensures o.reply ==>
      && o.next.sessions == t.sessions[id := t.sessions[id].(ws := Some(ws))]
      && o.next.registry == t.registry
      && o.effects == [ClearTimer(t.sessions[id].wsTimeout)]
  {
    if id !in t.sessions then Step(t, false, [])
    else
      var s := t.sessions[id];
      Step(t.(sessions := t.sessions[id := s.(ws := Some(ws))]), true, [ClearTimer(s.wsTimeout)])
  }

  /** The idle timer of `id` runs: a session still without a socket is killed and removed. */
  function IdleTimeoutStep(t: Table, id: string): (o: Step<()>)
    ensures id in t.sessions && t.sessions[id].ws.None? ==>
      o.next == Without(t, id) && o.effects == [KillPty(t.sessions[id].pty)]
    ensures !(id in t.sessions && t.sessions[id].ws.None?) ==> o.next == t && o.effects == []
  {
    if id in t.sessions && t.sessions[id].ws.None? then
      Step(Without(t, id), (), [KillPty(t.sessions[id].pty)])
    else Step(t, (), [])
  }

  /** The terminal of `id` exits: its timer is cleared, its socket closed and the entry removed. */
  function PtyExitStep(t: Table, id: string): (o: Step<()>)
    ensures o.next == Without(t, id)
    ensures id in t.sessions ==>
      var s := t.sessions[id];
      o.effects == [ClearTimer(s.wsTimeout)] + (if s.ws.Some? then [CloseWs(s.ws.value)] else [])
    ensures id !in t.sessions ==> o.effects == []
  {
    if id in t.sessions then
      var s := t.sessions[id];
      Step(Without(t, id), (), [ClearTimer(s.wsTimeout)] + (if s.ws.Some? then [CloseWs(s.ws.value)] else []))
    else Step(Without(t, id), (), [])
  }

  /** The socket of `id` closes: its terminal is killed and the entry removed. */
  function WsCloseStep(t: Table, id: string): (o: Step<()>)
    ensures o.next == Without(t, id)
    ensures id in t.sessions ==> o.effects == [KillPty(t.sessions[id].pty)]
    ensures id !in t.sessions ==> o.effects == []
  {
    if id in t.sessions then Step(Without(t, id), (), [KillPty(t.sessions[id].pty)])
    else Step(t, (), [])
  }

  /** `DELETE /api/terminal/:id`: 404 for an unknown id, else tear down and remove. */
  function DeleteStep(t: Table, id: string): (o: Step<Result<(), NotFound>>)
    ensures o.reply.Success? <==> id in t.sessions
    ensures o.reply.Success? ==> o.next == Without(t, id) && o.effects == Teardown(t.sessions[id])
    ensures !o.reply.Success? ==> o.next == t && o.effects == []
  {
    if id !in t.sessions then Step(t, Failure(SessionNotFound), [])
    else Step(Without(t, id), Success(()), Teardown(t.sessions[id]))
  }

  /** `POST /api/terminal/:id/kill`: tear down and remove if present; always 204. */
  function KillStep(t: Table, id: string): (o: Step<()>)
    ensures o.next == Without(t, id)
    ensures o.effects == if id in t.sessions then Teardown(t.sessions[id]) else []
  {
    if id in t.sessions then Step(Without(t, id), (), Teardown(t.sessions[id]))
    else Step(t, (), [])
  }

  // ---------------------------------------------------------------------------
  // Lifecycle properties

  /** A created session that no socket attaches to is killed by its idle timer. */
  lemma UnattachedIsReaped(t: Table, id: string, trackName: string, token: string, size: Option<nat>, pty: nat, timer: nat)
    ensures var c := CreateStep(t, id, trackName, token, size, true, pty, timer).next;
      var o := IdleTimeoutStep(c, id);
      && o.effects == [KillPty(pty)]
      && id !in o.next.sessions
      && (forall k :: k in t.sessions && k != id ==> k in o.next.sessions && o.next.sessions[k] == t.sessions[k])
  {
  }

  /**
   * A failed spawn leaves no session behind, yet the fresh token for a valid track
   * is already saved, so the next create for that track resumes a session that was
   * never started.
   */
  lemma FailedSpawnKeepsToken(t: Table, id: string, trackName: string, token: string, size: Option<nat>,
                              pty: nat, timer: nat, id2: string, token2: string, size2: Option<nat>, pty2: nat, timer2: nat)
    requires N.IsValidName(trackName) && T.KnownToken(t.registry, trackName).None? && token != ""
    ensures var c := CreateStep(t, id, trackName, token, size, false, pty, timer);
      && c.reply.Failure? && c.next.sessions == t.sessions
      && CreateStep(c.next, id2, trackName, token2, size2, true, pty2, timer2).effects == [Spawn(pty2, ["--resume", token])]
  {
  }

  /** Attaching clears the idle timer, and even a late timer leaves an attached session alone. */
  lemma AttachedSurvivesTimeout(t: Table, id: string, ws: nat)
    requires id in t.sessions
    ensures var a := AttachStep(t, id, ws);
      && a.effects == [ClearTimer(t.sessions[id].wsTimeout)]
      && IdleTimeoutStep(a.next, id) == Step(a.next, (), [])
  {
  }

  /** DELETE and kill do the same to a known session; they differ only on unknown ids. */
  lemma DeleteMatchesKill(t: Table, id: string)
    ensures id in t.sessions ==>
      DeleteStep(t, id).next == KillStep(t, id).next && DeleteStep(t, id).effects == KillStep(t, id).effects
    ensures id !in t.sessions ==>
      DeleteStep(t, id) == Step(t, Failure(SessionNotFound), []) && KillStep(t, id) == Step(t, (), [])
  {
  }

  /** Kill is idempotent: a second kill of the same id does nothing. */
  lemma KillIdempotent(t: Table, id: string)
    ensures KillStep(KillStep(t, id).next, id) == Step(KillStep(t, id).next, (), [])
  {
  }

  /** After any removal, the other events for that id find nothing to do. */
  lemma RemovedStaysRemoved(t: Table, id: string, ws: nat)
    requires id !in t.sessions
    ensures IdleTimeoutStep(t, id).next == t && IdleTimeoutStep(t, id).effects == []
    ensures PtyExitStep(t, id).next == t && PtyExitStep(t, id).effects == []
    ensures WsCloseStep(t, id) == Step(t, (), [])
    ensures AttachStep(t, id, ws) == Step(t, false, [])
    ensures DeleteStep(t, id).reply == Failure(SessionNotFound)
  {
    assert t.sessions - {id} == t.sessions;
  }

  /** Removing a session never touches the persisted tokens. */
  lemma RemovalKeepsRegistry(t: Table, id: string)
    ensures IdleTimeoutStep(t, id).next.registry == t.registry
    ensures PtyExitStep(t, id).next.registry == t.registry
    ensures WsCloseStep(t, id).next.registry == t.registry
    ensures DeleteStep(t, id).next.registry == t.registry
    ensures KillStep(t, id).next.registry == t.registry
  {
  }

  // ---------------------------------------------------------------------------
  // The session manager

  class SessionManager {
    var sessions: map<string, Session>
    var registry: map<string, string>

    function Snapshot(): Table
      reads this
    {
      Table(sessions, registry)
    }

    /** An empty table over the persisted map read at start-up. */
    constructor (persisted: map<string, string>)
      ensures Snapshot() == Table(map[], persisted)
    {
      sessions := map[];
      registry := persisted;
    }

    /** `id` is the fresh session id the route draws. */
    method Create(id: string, trackName: string, newToken: string, trackSize: Option<nat>, spawnOk: bool, pty: nat, timer: nat)
      returns (r: Result<string, SpawnError>, effects: seq<Effect>)
      modifies this
      ensures Step(Snapshot(), r, effects) ==
        CreateStep(old(Snapshot()), id, trackName, newToken, trackSize, spawnOk, pty, timer)
    {
      var launch := T.SelectLaunch(registry, trackName, newToken, trackSize);
      registry := launch.registry;
      if !spawnOk {
        return Failure(SpawnFailed), [];
      }
      effects := [Spawn(pty, launch.args)];
      sessions := sessions[id := Session(pty, None, timer)];
      r := Success(id);
    }

    method Attach(id: string, ws: nat) returns (accepted: bool, effects: seq<Effect>)
      modifies this
      ensures Step(Snapshot(), accepted, effects) == AttachStep(old(Snapshot()), id, ws)
    {
      if id !in sessions {
        return false, [];
      }
      var session := sessions[id];
      sessions := sessions[id := session.(ws := Some(ws))];
      accepted, effects := true, [ClearTimer(session.wsTimeout)];
    }

    method IdleTimeout(id: string) returns (effects: seq<Effect>)
      modifies this
      ensures Step(Snapshot(), (), effects) == IdleTimeoutStep(old(Snapshot()), id)
    {
      effects := [];
      if id in sessions && sessions[id].ws.None? {
        effects := [KillPty(sessions[id].pty)];
        sessions := sessions - {id};
      }
    }

    method PtyExit(id: string) returns (effects: seq<Effect>)
      modifies this
      ensures Step(Snapshot(), (), effects) == PtyExitStep(old(Snapshot()), id)
    {
      effects := [];
      if id in sessions {
        var session := sessions[id];
        effects := [ClearTimer(session.wsTimeout)];
        if session.ws.Some? {
          effects := effects + [CloseWs(session.ws.value)];
        }
      }
      sessions := sessions - {id};
    }

    method WsClose(id: string) returns (effects: seq<Effect>)
      modifies this
      ensures Step(Snapshot(), (), effects) == WsCloseStep(old(Snapshot()), id)
    {
      effects := [];
      if id in sessions {
        var session := sessions[id].(ws := None);
        effects := [KillPty(session.pty)];
        sessions := sessions - {id};
      }
    }

    method Delete(id: string) returns (r: Result<(), NotFound>, effects: seq<Effect>)
      modifies this
      ensures Step(Snapshot(), r, effects) == DeleteStep(old(Snapshot()), id)
    {
      if id !in sessions {
        return Failure(SessionNotFound), [];
      }
      effects := Teardown(sessions[id]);
      sessions := sessions - {id};
      r := Success(());
    }

    method Kill(id: string) returns (effects: seq<Effect>)
      modifies this
      ensures Step(Snapshot(), (), effects) == KillStep(old(Snapshot()), id)
    {
      effects := [];
      if id in sessions {
        effects := Teardown(sessions[id]);
        sessions := sessions - {id};
      }
    }

    /**
     * `killAllSessions`: every session has its timer cleared and is torn down, in
     * some order, and the table ends empty.
     */
    method KillAll() returns (effects: seq<Effect>)
      modifies this
      ensures sessions == map[] && registry == old(registry)
      ensures forall id, e :: id in old(sessions) && e in Shutdown(old(sessions)[id]) ==> e in effects
      ensures forall e :: e in effects ==> exists id :: id in old(sessions) && e in Shutdown(old(sessions)[id])
    {
      effects := [];
      while sessions != map[]
        invariant registry == old(registry)
        invariant forall id :: id in sessions ==> id in old(sessions) && sessions[id] == old(sessions)[id]
        invariant forall id, e :: id in old(sessions) && id !in sessions && e in Shutdown(old(sessions)[id]) ==> e in effects
        invariant forall e :: e in effects ==> exists id :: id in old(sessions) && e in Shutdown(old(sessions)[id])
        decreases |sessions.Keys|
      {
        var id :| id in sessions;
        var session := sessions[id];
        effects := effects + Shutdown(session);
        ghost var before := sessions;
        sessions := sessions - {id};
        assert sessions.Keys == before.Keys - {id};
      }
    }
  }
}
