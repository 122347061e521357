/**
  The in-memory session map of the screen-control relay (backend/ws/vncRelay.js:16-213), which
  backend/ws/webrtcSignaling.js repeats: entries, sockets and timers, driven by events in any order.
  Sockets and timers are numbered as they are made; an entry is identified by its timer.
 */
module VncRelay {
  import opened Common

  datatype Role = AgentSide | ViewerSide

  /** `joined` is the timer of the entry that the connection was attached to. */
  datatype Socket = Socket(session: int, role: Role, joined: nat, open: bool, received: seq<string>)

  datatype Entry = Entry(agentSocket: Option<nat>, viewerSocket: Option<nat>, timer: nat)

  /** A message handed to the relay for one side of one session. */
  datatype Posted = Posted(session: int, to: Role, data: string)

  datatype Relay = Relay(
    sessions: map<int, Entry>,
    sockets: seq<Socket>,
    timers: map<nat, int>,
    nextTimer: nat,
    finalised: seq<nat>,
    log: seq<Posted>)

  /** `agent` is the authenticated agent, `owner` the agent of the stored session; None if there is none. */
  datatype Event =
    | AgentConnects(session: int, agent: Option<int>, owner: Option<int>)
    | ViewerConnects(session: int, tokenValid: bool, found: bool)
    | Message(socket: nat, data: string)
    | Drops(socket: nat)        // the connection is no longer open; its close event is yet to come
    | SocketGone(socket: nat)   // a close or error event, possibly repeated
    | TimerFires(timer: nat)

  const Empty := Relay(map[], [], map[], 0, [], [])

  function Other(role: Role): Role {
    if role.AgentSide? then ViewerSide else AgentSide
  }

  function Close(sockets: seq<Socket>, id: Option<nat>): seq<Socket> {
    if id.Some? && id.value < |sockets| then sockets[id.value := sockets[id.value].(open := false)] else sockets
  }

  function CloseSession(r: Relay, session: int): Relay {
    if session !in r.sessions then r
    else
      var entry := r.sessions[session];
      r.(sessions := r.sessions - {session},
         timers := r.timers - {entry.timer},
         sockets := Close(Close(r.sockets, entry.agentSocket), entry.viewerSocket),
         finalised := r.finalised + [entry.timer])
  }

  function GetOrCreateSession(r: Relay, session: int): Relay {
    if session in r.sessions then r
    else r.(sessions := r.sessions[session := Entry(None, None, r.nextTimer)],
            timers := r.timers[r.nextTimer := session],
            nextTimer := r.nextTimer + 1)
  }

  /** The new socket replaces the entry's socket of that side; the replaced one is left open. */
  function Attach(r: Relay, session: int, role: Role): Relay {
    var made := GetOrCreateSession(r, session);
    var entry := made.sessions[session];
    var id := |r.sockets|;
    made.(sockets := r.sockets + [Socket(session, role, entry.timer, true, [])],
          sessions := made.sessions[session :=
            if role.AgentSide? then entry.(agentSocket := Some(id)) else entry.(viewerSocket := Some(id))])
  }

  function SocketOf(entry: Entry, role: Role): Option<nat> {
    if role.AgentSide? then entry.agentSocket else entry.viewerSocket
  }

  /** Send to the session's socket on that side, if there is one and it is open. */
  function Post(r: Relay, session: int, to: Role, data: string): Relay {
    var logged := r.(log := r.log + [Posted(session, to, data)]);
    if session in r.sessions && SocketOf(r.sessions[session], to).Some? then
      var id := SocketOf(r.sessions[session], to).value;
      if id < |r.sockets| && r.sockets[id].open
      then logged.(sockets := r.sockets[id := r.sockets[id].(received := r.sockets[id].received + [data])])
      else logged
    else logged
  }

  /** Only the agent that the session was started for may attach. */
  predicate Admits(session: int, agent: Option<int>, owner: Option<int>) {
    session != 0 && agent.Some? && owner == agent
  }

  function Step(r: Relay, e: Event): Relay {
    match e
    case AgentConnects(session, agent, owner) =>
      if Admits(session, agent, owner) then Attach(r, session, AgentSide) else r
    case ViewerConnects(session, tokenValid, found) =>
      if tokenValid && found then Attach(r, session, ViewerSide) else r
    case Message(socket, data) =>
      if socket < |r.sockets| then Post(r, r.sockets[socket].session, Other(r.sockets[socket].role), data) else r
    case Drops(socket) => r.(sockets := Close(r.sockets, Some(socket)))
    case SocketGone(socket) =>
      if socket < |r.sockets| then CloseSession(r, r.sockets[socket].session) else r
    case TimerFires(timer) =>
      if timer in r.timers then CloseSession(r, r.timers[timer]) else r
  }

  function Run(r: Relay, es: seq<Event>): Relay {
    if es == [] then r else Step(Run(r, es[..|es| - 1]), es[|es| - 1])
  }

  // ------------------------------------------------------------ conservation

  ghost predicate EntriesArmed(r: Relay) {
    forall s :: s in r.sessions ==> r.sessions[s].timer in r.timers && r.timers[r.sessions[s].timer] == s
  }

  ghost predicate TimersUsed(r: Relay) {
    forall t :: t in r.timers ==> t < r.nextTimer && r.timers[t] in r.sessions && r.sessions[r.timers[t]].timer == t
  }

  ghost predicate FinalisedDisarmed(r: Relay) {
    NoDuplicates(r.finalised) &&
    forall i :: 0 <= i < |r.finalised| ==> r.finalised[i] < r.nextTimer && r.finalised[i] !in r.timers
  }

  /** Every live entry has exactly one armed timer, and no other timer is armed; every entry ever made is
      live or finalised, never both; nothing is finalised twice. */
  ghost predicate Conserved(r: Relay) {
    EntriesArmed(r) && TimersUsed(r) && FinalisedDisarmed(r) && r.nextTimer == |r.sessions| + |r.finalised|
  }

  ghost predicate SideWired(sockets: seq<Socket>, session: int, role: Role, id: Option<nat>) {
    id.Some? ==> id.value < |sockets| && sockets[id.value].session == session && sockets[id.value].role == role
  }

  /** An entry's sockets belong to its session and side. */
  ghost predicate Wired(r: Relay) {
    forall s :: s in r.sessions ==>
      SideWired(r.sockets, s, AgentSide, r.sessions[s].agentSocket) &&
      SideWired(r.sockets, s, ViewerSide, r.sessions[s].viewerSocket)
  }

  lemma CloseConserves(r: Relay, session: int)
    requires Conserved(r)
    ensures Conserved(CloseSession(r, session))
  {
    if session in r.sessions {
      var c := CloseSession(r, session);
      assert |r.sessions.Keys - {session}| == |r.sessions| - 1;
      assert c.sessions.Keys == r.sessions.Keys - {session};
    }
  }

  lemma NewTimerUsed(r: Relay, session: int)
    requires TimersUsed(r) && session !in r.sessions
    ensures TimersUsed(GetOrCreateSession(r, session))
  {
    var made := GetOrCreateSession(r, session);
    forall t | t in made.timers
      ensures t < made.nextTimer && made.timers[t] in made.sessions && made.sessions[made.timers[t]].timer == t
    {
      if t != r.nextTimer {
        assert t in r.timers && r.timers[t] != session;
      }
    }
  }

  lemma TimersBelowNext(r: Relay)
    requires TimersUsed(r)
    ensures r.nextTimer !in r.timers
  {
  }

  lemma NewEntryArmed(r: Relay, session: int)
    requires EntriesArmed(r) && r.nextTimer !in r.timers && session !in r.sessions
    ensures EntriesArmed(GetOrCreateSession(r, session))
  {
    var made := GetOrCreateSession(r, session);
    forall s | s in made.sessions
      ensures made.sessions[s].timer in made.timers && made.timers[made.sessions[s].timer] == s
    {
      if s != session {
        assert s in r.sessions && r.sessions[s].timer in r.timers;
      }
    }
  }

  lemma NewEntryCounted(r: Relay, session: int)
    requires session !in r.sessions
    ensures |GetOrCreateSession(r, session).sessions| == |r.sessions| + 1
  {
    var made := GetOrCreateSession(r, session);
    assert made.sessions.Keys == r.sessions.Keys + {session};
    assert |made.sessions| == |made.sessions.Keys| && |r.sessions| == |r.sessions.Keys|;
  }

  lemma GetOrCreateConserves(r: Relay, session: int)
    requires Conserved(r)
    ensures Conserved(GetOrCreateSession(r, session))
  {
    hide TimersUsed, EntriesArmed;
    if session !in r.sessions {
      TimersBelowNext(r);
      NewTimerUsed(r, session);
      NewEntryArmed(r, session);
      NewEntryCounted(r, session);
    }
  }

  /** Only the timer of an entry matters. */
  lemma ReplacingConserves(r: Relay, session: int, entry: Entry, q: Relay)
    requires Conserved(r) && session in r.sessions && entry.timer == r.sessions[session].timer
    requires q.sessions == r.sessions[session := entry] && q.timers == r.timers
    requires q.nextTimer == r.nextTimer && q.finalised == r.finalised
    ensures Conserved(q)
  {
    assert q.sessions.Keys == r.sessions.Keys;
    assert |q.sessions| == |q.sessions.Keys| && |r.sessions| == |r.sessions.Keys|;
  }

  lemma AttachConserves(r: Relay, session: int, role: Role)
    requires Conserved(r)
    ensures Conserved(Attach(r, session, role))
  {
    hide Conserved;
    GetOrCreateConserves(r, session);
    var a := Attach(r, session, role);
    ReplacingConserves(GetOrCreateSession(r, session), session, a.sessions[session], a);
  }

  lemma StepConserves(r: Relay, e: Event)
    requires Conserved(r)
    ensures Conserved(Step(r, e))
  {
    match e
    case AgentConnects(session, _, _) => AttachConserves(r, session, AgentSide);
    case ViewerConnects(session, _, _) => AttachConserves(r, session, ViewerSide);
    case Message(_, _) =>
    case Drops(_) =>
    case SocketGone(socket) => if socket < |r.sockets| { CloseConserves(r, r.sockets[socket].session); }
    case TimerFires(timer) => if timer in r.timers { CloseConserves(r, r.timers[timer]); }
  }

  /** Closing sockets keeps which session and side each one serves. */
  ghost predicate SameSeats(a: seq<Socket>, b: seq<Socket>) {
    |a| == |b| && forall i :: 0 <= i < |a| ==> a[i].session == b[i].session && a[i].role == b[i].role
  }

  lemma CloseWired(r: Relay, session: int)
    requires Wired(r)
    ensures Wired(CloseSession(r, session))
  {
    if session in r.sessions {
      var c := CloseSession(r, session);
      assert SameSeats(r.sockets, c.sockets);
      forall s | s in c.sessions
        ensures SideWired(c.sockets, s, AgentSide, c.sessions[s].agentSocket)
        ensures SideWired(c.sockets, s, ViewerSide, c.sessions[s].viewerSocket)
      {
        assert s in r.sessions && c.sessions[s] == r.sessions[s];
      }
    }
  }

  lemma AttachWired(r: Relay, session: int, role: Role)
    requires Wired(r)
    ensures Wired(Attach(r, session, role))
  {
    var made := GetOrCreateSession(r, session);
    assert Wired(made);
    var a := Attach(r, session, role);
    assert a.sockets[..|r.sockets|] == r.sockets;
    forall s | s in a.sessions
      ensures SideWired(a.sockets, s, AgentSide, a.sessions[s].agentSocket)
      ensures SideWired(a.sockets, s, ViewerSide, a.sessions[s].viewerSocket)
    {
      assert s in made.sessions;
    }
  }

  lemma PostWired(r: Relay, session: int, to: Role, data: string)
    requires Wired(r)
    ensures Wired(Post(r, session, to, data))
  {
    assert SameSeats(r.sockets, Post(r, session, to, data).sockets);
  }

  lemma PostConserves(r: Relay, session: int, to: Role, data: string)
    requires Conserved(r)
    ensures Conserved(Post(r, session, to, data))
  {
  }

  lemma StepWired(r: Relay, e: Event)
    requires Wired(r)
    ensures Wired(Step(r, e))
  {
    hide CloseSession, Attach, Post;
    match e
    case AgentConnects(session, _, _) => AttachWired(r, session, AgentSide);
    case ViewerConnects(session, _, _) => AttachWired(r, session, ViewerSide);
    case Message(socket, data) =>
      if socket < |r.sockets| { PostWired(r, r.sockets[socket].session, Other(r.sockets[socket].role), data); }
    case Drops(_) => assert SameSeats(r.sockets, Step(r, e).sockets);
    case SocketGone(socket) => if socket < |r.sockets| { CloseWired(r, r.sockets[socket].session); }
    case TimerFires(timer) => if timer in r.timers { CloseWired(r, r.timers[timer]); }
  }

  /** Over any order and repetition of events: entries created equal live plus finalised ones, each is
      finalised at most once, and every live entry has exactly one armed timer. */
  lemma {:induction false} EveryRunIsConserved(es: seq<Event>)
    ensures Conserved(Run(Empty, es)) && Wired(Run(Empty, es))
  {
    if es != [] {
      EveryRunIsConserved(es[..|es| - 1]);
      StepConserves(Run(Empty, es[..|es| - 1]), es[|es| - 1]);
      StepWired(Run(Empty, es[..|es| - 1]), es[|es| - 1]);
    }
  }

  /** A timer finalises its own entry and no other. */
  lemma TimerEndsItsOwnEntry(es: seq<Event>, timer: nat)
    requires timer in Run(Empty, es).timers
    ensures var r := Run(Empty, es);
      var after := Step(r, TimerFires(timer));
      && after.finalised == r.finalised + [timer]
      && after.sessions == r.sessions - {r.timers[timer]} && after.timers == r.timers - {timer}
  {
    hide Run, Wired, FinalisedDisarmed, Close;
    EveryRunIsConserved(es);
    assert TimersUsed(Run(Empty, es));
  }

  // ------------------------------------------------------------- the handlers

  /** A new open socket is the session's socket on its side; the other side keeps its own, and every other
      session is as it was. If the session had no entry, it has a new one with a new timer. */
  ghost predicate Attached(before: Relay, after: Relay, session: int, role: Role) {
    && after.finalised == before.finalised && session in after.sessions
    && after.sessions.Keys == before.sessions.Keys + {session}
    && (forall s :: s in before.sessions && s != session ==> after.sessions[s] == before.sessions[s])
    && (session in before.sessions ==>
          && after.timers == before.timers && after.nextTimer == before.nextTimer
          && after.sessions[session].timer == before.sessions[session].timer)
    && (session !in before.sessions ==>
          && after.timers == before.timers[before.nextTimer := session] && after.nextTimer == before.nextTimer + 1
          && after.sessions[session].timer == before.nextTimer)
    && (var mine := Some(|before.sockets|);
        var entry := after.sessions[session];
        var others := if session in before.sessions then before.sessions[session] else Entry(None, None, 0);
        if role == AgentSide
        then entry.agentSocket == mine && entry.viewerSocket == others.viewerSocket
        else entry.viewerSocket == mine && entry.agentSocket == others.agentSocket)
    && after.sockets == before.sockets + [Socket(session, role, after.sessions[session].timer, true, [])]
  }

  /** The data is added to what the session's open socket on that side has received, if there is one, and
      nothing else changes. */
  ghost predicate Delivered(before: Relay, after: Relay, session: int, to: Role, data: string) {
    && after.sessions == before.sessions && after.timers == before.timers && after.nextTimer == before.nextTimer
    && after.finalised == before.finalised && |after.sockets| == |before.sockets|
    && forall v: nat :: v < |before.sockets| ==>
         var mine := session in before.sessions &&
                     (if to == AgentSide then before.sessions[session].agentSocket
                      else before.sessions[session].viewerSocket) == Some(v);
         after.sockets[v] == if mine && before.sockets[v].open
                             then before.sockets[v].(received := before.sockets[v].received + [data])
                             else before.sockets[v]
  }

  class RelayServer {
    var sessions: map<int, Entry>
    var sockets: seq<Socket>
    var timers: map<nat, int>
    var nextTimer: nat
    var finalised: seq<nat>
    ghost var log: seq<Posted>

    constructor ()
      ensures State() == Empty
    {
      sessions, sockets, timers, nextTimer, finalised, log := map[], [], map[], 0, [], [];
    }

    ghost function State(): Relay reads this {
      Relay(sessions, sockets, timers, nextTimer, finalised, log)
    }

    method CloseEntry(session: int)
      modifies this
      ensures State() == CloseSession(old(State()), session)
      ensures session !in old(sessions) ==> State() == old(State())
      ensures session in old(sessions) ==>
                var entry := old(sessions)[session];
                && sessions == old(sessions) - {session} && timers == old(timers) - {entry.timer}
                && finalised == old(finalised) + [entry.timer] && |sockets| == |old(sockets)|
                && forall v: nat :: v < |sockets| ==>
                     sockets[v] == if entry.agentSocket == Some(v) || entry.viewerSocket == Some(v)
                                   then old(sockets)[v].(open := false) else old(sockets)[v]
    {
      if session !in sessions {
        return;
      }
      var entry := sessions[session];
      sessions := sessions - {session};
      timers := timers - {entry.timer};
      sockets := Close(sockets, entry.agentSocket);
      sockets := Close(sockets, entry.viewerSocket);
      finalised := finalised + [entry.timer];
    }

    method GetOrCreate(session: int) returns (entry: Entry)
      modifies this
      ensures State() == GetOrCreateSession(old(State()), session)
      ensures session in sessions && entry == sessions[session]
      ensures session in old(sessions) ==> State() == old(State())
      ensures session !in old(sessions) ==>
                && sessions == old(sessions)[session := Entry(None, None, old(nextTimer))]
                && timers == old(timers)[old(nextTimer) := session] && nextTimer == old(nextTimer) + 1
                && sockets == old(sockets) && finalised == old(finalised)
    {
      if session !in sessions {
        entry := Entry(None, None, nextTimer);
        timers := timers[nextTimer := session];
        nextTimer := nextTimer + 1;
        sessions := sessions[session := entry];
      } else {
        entry := sessions[session];
      }
    }

    method OnAgentUpgrade(session: int, agent: Option<int>, owner: Option<int>)
      modifies this
      ensures State() == Step(old(State()), AgentConnects(session, agent, owner))
      ensures session == 0 || agent.None? || owner.None? || owner != agent ==> State() == old(State())
      ensures session != 0 && agent.Some? && owner == agent ==>
                Attached(old(State()), State(), session, AgentSide)
    {
      if session == 0 || agent.None? || owner != agent {
        return;
      }
      var entry := GetOrCreate(session);
      sessions := sessions[session := entry.(agentSocket := Some(|sockets|))];
      sockets := sockets + [Socket(session, AgentSide, entry.timer, true, [])];
    }

    method OnViewerUpgrade(session: int, tokenValid: bool, found: bool)
      modifies this
      ensures State() == Step(old(State()), ViewerConnects(session, tokenValid, found))
      ensures !tokenValid || !found ==> State() == old(State())
      ensures tokenValid && found ==> Attached(old(State()), State(), session, ViewerSide)
    {
      if !tokenValid || !found {
        return;
      }
      var entry := GetOrCreate(session);
      sessions := sessions[session := entry.(viewerSocket := Some(|sockets|))];
      sockets := sockets + [Socket(session, ViewerSide, entry.timer, true, [])];
    }

    method OnMessage(socket: nat, data: string)
      requires socket < |sockets|
      modifies this
      ensures State() == Step(old(State()), Message(socket, data))
      ensures Delivered(old(State()), State(), old(sockets)[socket].session,
                        if old(sockets)[socket].role.AgentSide? then ViewerSide else AgentSide, data)
    {
      Send(sockets[socket].session, Other(sockets[socket].role), data);
    }

    method Send(session: int, to: Role, data: string)
      modifies this
      ensures State() == Post(old(State()), session, to, data)
      ensures Delivered(old(State()), State(), session, to, data)
    {
      log := log + [Posted(session, to, data)];
      if session in sessions {
        var peer := SocketOf(sessions[session], to);
        if peer.Some? && peer.value < |sockets| && sockets[peer.value].open {
          sockets := sockets[peer.value := sockets[peer.value].(received := sockets[peer.value].received + [data])];
        }
      }
    }

    method OnSocketGone(socket: nat)
      requires socket < |sockets|
      modifies this
      ensures State() == Step(old(State()), SocketGone(socket))
      ensures State() == CloseSession(old(State()), old(sockets)[socket].session)
    {
      CloseEntry(sockets[socket].session);
    }

    method OnTimeout(timer: nat)
      requires timer in timers
      modifies this
      ensures State() == Step(old(State()), TimerFires(timer))
      ensures State() == CloseSession(old(State()), old(timers)[timer])
    {
      CloseEntry(timers[timer]);
    }
  }
}
