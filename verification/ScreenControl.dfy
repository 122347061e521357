/**
  Screen control as a whole: the stored sessions, the RFB relay (backend/ws/vncRelay.js) and the WebRTC
  signaling map (backend/ws/webrtcSignaling.js) under every interleaving. A handler that awaits a database
  statement leaves it in flight. At some later event the statement lands or fails; what the handler does
  after the await, the next statement or a message, comes after that.
 */
module ScreenControl {
  import opened Common
  import opened VncSessions
  import R = VncRelay
  import D = RelayDelivery

  /** What JSON.parse makes of a signaling message. */
  datatype Kind = NotJson | JsonNull | Failed | OtherJson

  /** `fallback` tells the job of a fallback from the one that a new session starts with. */
  datatype Statement =
    | NewRow(agentId: int, requestedBy: int, transport: Transport)
    | SetRow(id: int, change: Change)
    | AddJob(job: BridgeJob, fallback: bool)

  datatype System = System(
    table: Table,
    relay: R.Relay,
    signaling: R.Relay,
    inFlight: seq<Statement>,
    notices: seq<int>)   // sessions whose fallback service has returned or thrown, and is not yet announced

  datatype Event =
    | Start(agentId: int, requestedBy: int, transport: Transport)
    | EndRequest(id: int)
    | BridgeJobFailed(id: int)   // the agent reports a failed start_webrtc_bridge job
    | OnRelay(event: R.Event)
    | OnSignaling(event: R.Event, kind: Kind)
    | Lands(k: nat)
    | Fails(k: nat)
    | Notifies(k: nat)

  const FALLBACK := "{\"type\":\"fallback\"}"
  const STOP := "{\"type\":\"stop\"}"

  const Initial := System(Table([], []), R.Empty, R.Empty, [], [])

  // ---------------------------------------------------------- the statements

  function Execute(t: Table, st: Statement): Table {
    match st
    case NewRow(agentId, requestedBy, transport) =>
      t.(rows := t.rows + [Session(agentId, requestedBy, Pending, transport)])
    case SetRow(id, change) => if Has(t, id) then t.(rows := t.rows[id - 1 := Changed(t.rows[id - 1], change)]) else t
    case AddJob(job, _) => t.(jobs := t.jobs + [job])
  }

  /** The job that a fallback of the session owes it. */
  function FallbackJob(t: Table, id: int): Statement
    requires Has(t, id)
  {
    AddJob(BridgeJob(t.rows[id - 1].agentId, StartVncBridge, id, t.rows[id - 1].requestedBy), true)
  }

  /** The statement that is awaited once this one has landed. */
  function Following(t: Table, st: Statement): seq<Statement> {
    match st
    case NewRow(agentId, requestedBy, transport) =>
      [AddJob(BridgeJob(agentId, BridgeFor(transport), |t.rows| + 1, requestedBy), false)]
    case SetRow(id, change) => if change.FallBack? && Has(t, id) then [FallbackJob(t, id)] else []
    case AddJob(_, _) => []
  }

  /** The session whose fallback service ends when the statement lands (or fails, see `failed`): triggerFallback
      goes on to the notices in either case, because it catches every error. */
  function Returns(st: Statement, failed: bool): seq<int> {
    match st
    case NewRow(_, _, _) => []
    case SetRow(id, change) => if failed && change.FallBack? then [id] else []
    case AddJob(job, fallback) => if fallback then [job.session] else []
  }

  // --------------------------------------------------------------- the events

  /** A connection is admitted by what the table says of its session. */
  function LookedUp(t: Table, e: R.Event): R.Event {
    match e
    case AgentConnects(session, agent, _) =>
      R.AgentConnects(session, agent, if Has(t, session) then Some(t.rows[session - 1].agentId) else None)
    case ViewerConnects(session, tokenValid, _) => R.ViewerConnects(session, tokenValid, Has(t, session))
    case _ => e
  }

  /** The updates the relay's handlers issue: an agent that attaches activates its session, and
      finalising an entry ends it. */
  function Updates(r: R.Relay, e: R.Event): seq<Statement> {
    match e
    case AgentConnects(session, agent, owner) =>
      if R.Admits(session, agent, owner) then [SetRow(session, Activate)] else []
    case ViewerConnects(_, _, _) => []
    case Message(_, _) => []
    case Drops(_) => []
    case SocketGone(socket) =>
      if socket < |r.sockets| && r.sockets[socket].session in r.sessions
      then [SetRow(r.sockets[socket].session, Finish)]
      else []
    case TimerFires(timer) =>
      if timer in r.timers && r.timers[timer] in r.sessions then [SetRow(r.timers[timer], Finish)] else []
  }

  /** An update is asked only for a session that the service has found; a lookup that is rejected counts as an
      update that fails. */
  function Asked(t: Table, id: int, change: Change): seq<Statement> {
    if Has(t, id) then [SetRow(id, change)] else []
  }

  /** A message that says "failed" asks for the fallback of its session. */
  function AskedBy(sys: System, e: R.Event, kind: Kind): seq<Statement> {
    if e.Message? && e.socket < |sys.signaling.sockets| && kind.Failed?
    then Asked(sys.table, sys.signaling.sockets[e.socket].session, FallBack)
    else []
  }

  /** Everything an event issues. */
  function Issued(sys: System, e: Event): seq<Statement> {
    match e
    case Start(agentId, requestedBy, transport) => [NewRow(agentId, requestedBy, transport)]
    case EndRequest(id) => Asked(sys.table, id, Finish)
    case BridgeJobFailed(id) => Asked(sys.table, id, FallBack)
    case OnRelay(event) => Updates(sys.relay, LookedUp(sys.table, event))
    case OnSignaling(event, kind) => AskedBy(sys, event, kind)
    case Lands(k) => if k < |sys.inFlight| then Following(sys.table, sys.inFlight[k]) else []
    case Fails(_) => []
    case Notifies(_) => []
  }

  /** "failed" from either side is not forwarded; of the rest, an agent's message is only when it is JSON
      (and not null), a viewer's always. */
  function OnSignalingEvent(signaling: R.Relay, e: R.Event, kind: Kind): R.Relay {
    if e.Message? && e.socket < |signaling.sockets| &&
       (kind.Failed? || (signaling.sockets[e.socket].role.AgentSide? && !kind.OtherJson?))
    then signaling
    else R.Step(signaling, e)
  }

  function Without<T>(s: seq<T>, k: nat): seq<T>
    requires k < |s|
  {
    s[..k] + s[k + 1..]
  }

  function Announced(signaling: R.Relay, id: int): R.Relay {
    R.Post(R.Post(signaling, id, R.ViewerSide, FALLBACK), id, R.AgentSide, STOP)
  }

  function Step(sys: System, e: Event): System {
    var issued := Issued(sys, e);
    match e
    case OnRelay(event) =>
      sys.(relay := R.Step(sys.relay, LookedUp(sys.table, event)), inFlight := sys.inFlight + issued)
    case OnSignaling(event, kind) =>
      sys.(signaling := OnSignalingEvent(sys.signaling, LookedUp(sys.table, event), kind),
           inFlight := sys.inFlight + issued)
    case Lands(k) =>
      if k < |sys.inFlight| then
        sys.(table := Execute(sys.table, sys.inFlight[k]),
             inFlight := Without(sys.inFlight, k) + issued,
             notices := sys.notices + Returns(sys.inFlight[k], false))
      else sys
    case Fails(k) =>
      if k < |sys.inFlight| then
        sys.(inFlight := Without(sys.inFlight, k), notices := sys.notices + Returns(sys.inFlight[k], true))
      else sys
    case Notifies(k) =>
      if k < |sys.notices|
      then sys.(signaling := Announced(sys.signaling, sys.notices[k]), notices := Without(sys.notices, k))
      else sys
    case _ => sys.(inFlight := sys.inFlight + issued)
  }

  function Run(es: seq<Event>): System {
    if es == [] then Initial else Step(Run(es[..|es| - 1]), es[|es| - 1])
  }

  lemma RunOne(es: seq<Event>, e: Event)
    ensures Run(es + [e]) == Step(Run(es), e)
  {
    assert (es + [e])[..|es|] == es;
  }

  // --------------------------------------------------------------- the relay

  function RelayEvents(es: seq<Event>): seq<R.Event> {
    if es == [] then []
    else
      var front, e := es[..|es| - 1], es[|es| - 1];
      if e.OnRelay? then RelayEvents(front) + [LookedUp(Run(front).table, e.event)] else RelayEvents(front)
  }

  /** The relay inside the system runs as it does alone, so all that holds of every run of the relay
      holds of it here. */
  lemma {:induction false} RelayRunsAlone(es: seq<Event>)
    ensures Run(es).relay == R.Run(R.Empty, RelayEvents(es))
  {
    if es != [] {
      hide R.Step;
      var front, e := es[..|es| - 1], es[|es| - 1];
      RelayRunsAlone(front);
      var earlier := RelayEvents(front);
      if e.OnRelay? {
        assert (earlier + [LookedUp(Run(front).table, e.event)])[..|earlier|] == earlier;
      }
    }
  }

  // ------------------------------------------------------------ the signaling

  ghost predicate SignalingSound(r: R.Relay) {
    R.Conserved(r) && R.Wired(r) && D.Isolated(r)
  }

  lemma PostSound(r: R.Relay, session: int, to: R.Role, data: string)
    requires SignalingSound(r)
    ensures SignalingSound(R.Post(r, session, to, data))
  {
    hide R.Post, R.Conserved, R.Wired, D.Isolated;
    R.PostConserves(r, session, to, data);
    R.PostWired(r, session, to, data);
    D.PostIsolates(r, session, to, data);
  }

  /** The signaling map keeps the relay's guarantees, also when the server itself announces a fallback:
      one armed timer per live entry, and no socket receives what was not posted to its session and side. */
  lemma {:induction false} SignalingIsSound(es: seq<Event>)
    ensures SignalingSound(Run(es).signaling)
  {
    hide R.Conserved, R.Wired, D.Isolated, R.Step, R.Post;
    if es == [] {
      InitialSound();
    } else {
      var front, e := es[..|es| - 1], es[|es| - 1];
      SignalingIsSound(front);
      var sys := Run(front);
      if e.OnSignaling? {
        R.StepConserves(sys.signaling, LookedUp(sys.table, e.event));
        R.StepWired(sys.signaling, LookedUp(sys.table, e.event));
        D.StepIsolates(sys.signaling, LookedUp(sys.table, e.event));
      } else if e.Notifies? && e.k < |sys.notices| {
        PostSound(sys.signaling, sys.notices[e.k], R.ViewerSide, FALLBACK);
        PostSound(R.Post(sys.signaling, sys.notices[e.k], R.ViewerSide, FALLBACK), sys.notices[e.k], R.AgentSide, STOP);
      }
    }
  }

  lemma InitialSound()
    ensures SignalingSound(R.Empty)
  {
  }

  /** What an event makes known to one side of a session: the other side's message, unless it says "failed"
      or is an agent's that is no JSON, or the announcement of a stored fallback. */
  function HeardNow(sys: System, e: Event, session: int, role: R.Role): seq<string> {
    if e.OnSignaling? && e.event.Message? && e.event.socket < |sys.signaling.sockets| then
      var from := sys.signaling.sockets[e.event.socket];
      if from.session == session && from.role == R.Other(role) && !e.kind.Failed? &&
         (role.AgentSide? || e.kind.OtherJson?)
      then [e.event.data] else []
    else if e.Notifies? && e.k < |sys.notices| && sys.notices[e.k] == session then
      [if role.ViewerSide? then FALLBACK else STOP]
    else []
  }

  function Heard(es: seq<Event>, session: int, role: R.Role): seq<string> {
    if es == [] then []
    else Heard(es[..|es| - 1], session, role) + HeardNow(Run(es[..|es| - 1]), es[|es| - 1], session, role)
  }

  lemma HeardGrows(es: seq<Event>, session: int, role: R.Role)
    requires es != []
    ensures Heard(es, session, role) ==
            Heard(es[..|es| - 1], session, role) + HeardNow(Run(es[..|es| - 1]), es[|es| - 1], session, role)
  {
  }

  lemma AnnouncedAndCurrent(r: R.Relay, id: int, session: int, role: R.Role, v: nat)
    requires SignalingSound(r) && D.Current(Announced(r, id), session, role, v)
    ensures D.Current(r, session, role, v)
    ensures Announced(r, id).sockets[v].received ==
            r.sockets[v].received + if id == session then [if role.ViewerSide? then FALLBACK else STOP] else []
  {
    hide R.Post, D.Current, R.Conserved, R.Wired, D.Isolated;
    var told := R.Post(r, id, R.ViewerSide, FALLBACK);
    PostSound(r, id, R.ViewerSide, FALLBACK);
    D.PostAndCurrent(told, id, R.AgentSide, STOP, session, role, v);
    D.PostAndCurrent(r, id, R.ViewerSide, FALLBACK, session, role, v);
  }

  lemma OneLogged(r: R.Relay, e: R.Event, session: int, role: R.Role)
    ensures D.PostedTo(D.Logged(r, e), session, role) ==
            if e.Message? && e.socket < |r.sockets| && r.sockets[e.socket].session == session &&
               r.sockets[e.socket].role == R.Other(role)
            then [e.data] else []
  {
    var l := D.Logged(r, e);
    if l != [] {
      assert l[..0] == [];
    }
  }

  lemma SignalAndCurrent(sys: System, e: Event, session: int, role: R.Role, v: nat)
    requires SignalingSound(sys.signaling) && v < |sys.signaling.sockets|
    requires D.Current(Step(sys, e).signaling, session, role, v)
    ensures D.Current(sys.signaling, session, role, v)
    ensures Step(sys, e).signaling.sockets[v].received ==
              sys.signaling.sockets[v].received + HeardNow(sys, e, session, role)
  {
    hide R.Step, R.Post, D.Current, D.Logged, D.PostedTo, R.Conserved, D.Isolated, R.Wired, Announced, Apply;
    if e.OnSignaling? {
      var le := LookedUp(sys.table, e.event);
      OneLogged(sys.signaling, le, session, role);
      if Step(sys, e).signaling == R.Step(sys.signaling, le) {
        StepHeard(sys, e, session, role, v);
      }
    } else if e.Notifies? && e.k < |sys.notices| {
      AnnouncedAndCurrent(sys.signaling, sys.notices[e.k], session, role, v);
    }
  }

  lemma StepHeard(sys: System, e: Event, session: int, role: R.Role, v: nat)
    requires SignalingSound(sys.signaling) && v < |sys.signaling.sockets| && e.OnSignaling?
    requires Step(sys, e).signaling == R.Step(sys.signaling, LookedUp(sys.table, e.event))
    requires D.Current(Step(sys, e).signaling, session, role, v)
    ensures D.Current(sys.signaling, session, role, v)
    ensures Step(sys, e).signaling.sockets[v].received ==
              sys.signaling.sockets[v].received + HeardNow(sys, e, session, role)
  {
    hide R.Step, R.Post, D.Current, D.Logged, D.PostedTo, R.Conserved, D.Isolated, R.Wired;
    var le := LookedUp(sys.table, e.event);
    OneLogged(sys.signaling, le, session, role);
    D.StepAndCurrent(sys.signaling, le, session, role, v);
    D.StepLogs(sys.signaling, le);
  }

  /** Nothing is lost on the signaling channel either: a socket that is still open and in its entry has
      received, since any earlier moment, every forwardable message of the other side and every
      announcement for its session, in order. */
  lemma {:induction false} SignalingHearsEverything(es: seq<Event>, k: nat, session: int, role: R.Role, v: nat)
    requires k <= |es| && v < |Run(es[..k]).signaling.sockets| && D.Current(Run(es).signaling, session, role, v)
    ensures Heard(es[..k], session, role) <= Heard(es, session, role)
    ensures Run(es).signaling.sockets[v].received ==
            Run(es[..k]).signaling.sockets[v].received + Heard(es, session, role)[|Heard(es[..k], session, role)|..]
  {
    hide Step, Heard, HeardNow, D.Current, R.Conserved, D.Isolated, R.Wired;
    if k == |es| {
      assert es[..k] == es;
    } else {
      HeardGrows(es, session, role);
      var front, e := es[..|es| - 1], es[|es| - 1];
      assert front[..k] == es[..k];
      SignalingIsSound(front);
      SignalingSocketsStay(front, k);
      SignalAndCurrent(Run(front), e, session, role, v);
      SignalingHearsEverything(front, k, session, role, v);
      D.Extended(Heard(front, session, role), HeardNow(Run(front), e, session, role), |Heard(es[..k], session, role)|);
    }
  }

  lemma StepKeepsSignalingSockets(sys: System, e: Event)
    ensures |Step(sys, e).signaling.sockets| >= |sys.signaling.sockets|
  {
    hide R.Step, R.Post;
    if e.OnSignaling? {
      D.StepKeepsSockets(sys.signaling, LookedUp(sys.table, e.event));
    } else if e.Notifies? && e.k < |sys.notices| {
      D.PostAddsNoSocket(sys.signaling, sys.notices[e.k], R.ViewerSide, FALLBACK);
      D.PostAddsNoSocket(R.Post(sys.signaling, sys.notices[e.k], R.ViewerSide, FALLBACK), sys.notices[e.k],
                         R.AgentSide, STOP);
    }
  }

  lemma {:induction false} SignalingSocketsStay(es: seq<Event>, k: nat)
    requires k <= |es|
    ensures |Run(es).signaling.sockets| >= |Run(es[..k]).signaling.sockets|
  {
    if k == |es| {
      assert es[..k] == es;
    } else {
      hide Step;
      assert es[..|es| - 1][..k] == es[..k];
      SignalingSocketsStay(es[..|es| - 1], k);
      StepKeepsSignalingSockets(Run(es[..|es| - 1]), es[|es| - 1]);
    }
  }
}
