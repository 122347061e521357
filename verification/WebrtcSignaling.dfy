/** The message handlers of the signaling map (backend/ws/webrtcSignaling.js:184-233), each run to its end. */
module WebrtcSignaling {
  import opened Common
  import opened VncSessions
  import opened ScreenControl
  import opened ScreenUpdates
  import R = VncRelay

  /** What an agent's message does to the table and to the sockets. */
  function AgentHandled(
    t: Table, r: R.Relay, session: int, raw: string, kind: Kind, outcome: FallbackOutcome): (Table, R.Relay) {
    match kind
    case Failed => (FallenBack(t, session, outcome), Announced(r, session))
    case OtherJson => (t, R.Post(r, session, R.ViewerSide, raw))
    case _ => (t, r)
  }

  function ViewerHandled(
    t: Table, r: R.Relay, session: int, raw: string, kind: Kind, outcome: FallbackOutcome): (Table, R.Relay) {
    if kind.Failed? then (FallenBack(t, session, outcome), Announced(r, session))
    else (t, R.Post(r, session, R.AgentSide, raw))
  }

  // ---------------------------------------------------- against the machine

  /** What the source's handler for the socket's side does. */
  function Handled(sys: System, socket: nat, data: string, kind: Kind, outcome: FallbackOutcome): (Table, R.Relay)
    requires socket < |sys.signaling.sockets|
  {
    var from := sys.signaling.sockets[socket];
    if from.role.AgentSide? then AgentHandled(sys.table, sys.signaling, from.session, data, kind, outcome)
    else ViewerHandled(sys.table, sys.signaling, from.session, data, kind, outcome)
  }

  /** A message other than "failed" is handled in the one step of the machine that takes it. */
  lemma ForwardingIsOneStep(sys: System, socket: nat, data: string, kind: Kind, outcome: FallbackOutcome)
    requires socket < |sys.signaling.sockets| && !kind.Failed?
    ensures var after := Step(sys, OnSignaling(R.Message(socket, data), kind));
      && (after.table, after.signaling) == Handled(sys, socket, data, kind, outcome)
      && after.inFlight == sys.inFlight && after.notices == sys.notices && after.relay == sys.relay
  {
    hide R.Post;
  }

  /** The steps of a fallback that nothing interrupts, from the message to the notices. */
  function FallbackSteps(sys: System, socket: nat, data: string, outcome: FallbackOutcome): seq<Event> {
    var n := |sys.inFlight|;
    [OnSignaling(R.Message(socket, data), Failed)]
    + (match outcome
       case Stored => [Lands(n), Lands(n)]
       case UpdateFails => [Fails(n)]
       case InsertFails => [Lands(n), Fails(n)])
    + [Notifies(|sys.notices|)]
  }

  function StepAll(sys: System, es: seq<Event>): System {
    if es == [] then sys else Step(StepAll(sys, es[..|es| - 1]), es[|es| - 1])
  }

  lemma StepAllGrows(sys: System, es: seq<Event>, e: Event)
    ensures StepAll(sys, es + [e]) == Step(StepAll(sys, es), e)
  {
    assert (es + [e])[..|es|] == es;
  }

  lemma LastRemoved<T>(s: seq<T>, x: T)
    ensures Without(s + [x], |s|) == s
  {
  }

  lemma FallbackAsked(sys: System, socket: nat, data: string)
    requires socket < |sys.signaling.sockets| && Has(sys.table, sys.signaling.sockets[socket].session)
    ensures Step(sys, OnSignaling(R.Message(socket, data), Failed)) ==
            sys.(inFlight := sys.inFlight + [SetRow(sys.signaling.sockets[socket].session, FallBack)])
  {
  }

  /** The last statement in flight lands: what follows it, or the notice it leads to, is last in line then. */
  lemma UpdateLands(sys: System, before: seq<Statement>, id: int)
    requires sys.inFlight == before + [SetRow(id, FallBack)] && Has(sys.table, id)
    ensures Step(sys, Lands(|before|)) ==
            sys.(table := sys.table.(rows := Apply(sys.table, Touch(id, FallBack)).rows),
                 inFlight := before + [FallbackJob(sys.table, id)])
  {
    LastRemoved(before, SetRow(id, FallBack));
    assert sys.notices + [] == sys.notices;
  }

  lemma JobLands(sys: System, before: seq<Statement>, job: BridgeJob)
    requires sys.inFlight == before + [AddJob(job, true)]
    ensures Step(sys, Lands(|before|)) ==
            sys.(table := sys.table.(jobs := sys.table.jobs + [job]), inFlight := before,
                 notices := sys.notices + [job.session])
  {
    LastRemoved(before, AddJob(job, true));
    assert before + [] == before;
  }

  lemma LastFails(sys: System, before: seq<Statement>, st: Statement, id: int)
    requires sys.inFlight == before + [st] && Returns(st, true) == [id]
    ensures Step(sys, Fails(|before|)) == sys.(inFlight := before, notices := sys.notices + [id])
  {
    LastRemoved(before, st);
  }

  lemma LastNotice(sys: System, before: seq<int>, id: int)
    requires sys.notices == before + [id]
    ensures Step(sys, Notifies(|before|)) == sys.(signaling := Announced(sys.signaling, id), notices := before)
  {
    LastRemoved(before, id);
  }

  lemma OneStep(sys: System, e: Event)
    ensures StepAll(sys, [e]) == Step(sys, e)
  {
    StepAllGrows(sys, [], e);
    assert [] + [e] == [e];
  }

  lemma StoredFallback(sys: System, socket: nat, data: string)
    requires socket < |sys.signaling.sockets| && Has(sys.table, sys.signaling.sockets[socket].session)
    ensures StepAll(sys, FallbackSteps(sys, socket, data, Stored)) ==
            sys.(table := FallenBack(sys.table, sys.signaling.sockets[socket].session, Stored),
                 signaling := Announced(sys.signaling, sys.signaling.sockets[socket].session))
  {
    hide Step, Announced, StepAll;
    var id, n, e := sys.signaling.sockets[socket].session, |sys.inFlight|, OnSignaling(R.Message(socket, data), Failed);
    FallbackAsked(sys, socket, data);
    var asked := Step(sys, e);
    OneStep(sys, e);
    UpdateLands(asked, sys.inFlight, id);
    var updated := Step(asked, Lands(n));
    JobLands(updated, sys.inFlight, FallbackJob(sys.table, id).job);
    StepAllGrows(sys, [e], Lands(n));
    StepAllGrows(sys, [e] + [Lands(n)], Lands(n));
    assert [e] + [Lands(n), Lands(n)] == [e] + [Lands(n)] + [Lands(n)];
    StepAllGrows(sys, [e] + [Lands(n), Lands(n)], Notifies(|sys.notices|));
    LastNotice(Step(updated, Lands(n)), sys.notices, id);
  }

  lemma FallbackWithFailingUpdate(sys: System, socket: nat, data: string)
    requires socket < |sys.signaling.sockets| && Has(sys.table, sys.signaling.sockets[socket].session)
    ensures StepAll(sys, FallbackSteps(sys, socket, data, UpdateFails)) ==
            sys.(table := FallenBack(sys.table, sys.signaling.sockets[socket].session, UpdateFails),
                 signaling := Announced(sys.signaling, sys.signaling.sockets[socket].session))
  {
    hide Step, Announced, StepAll;
    var id, n, e := sys.signaling.sockets[socket].session, |sys.inFlight|, OnSignaling(R.Message(socket, data), Failed);
    FallbackAsked(sys, socket, data);
    var asked := Step(sys, e);
    OneStep(sys, e);
    LastFails(asked, sys.inFlight, SetRow(id, FallBack), id);
    StepAllGrows(sys, [e], Fails(n));
    StepAllGrows(sys, [e] + [Fails(n)], Notifies(|sys.notices|));
    LastNotice(Step(asked, Fails(n)), sys.notices, id);
  }

  lemma FallbackWithFailingInsert(sys: System, socket: nat, data: string)
    requires socket < |sys.signaling.sockets| && Has(sys.table, sys.signaling.sockets[socket].session)
    ensures StepAll(sys, FallbackSteps(sys, socket, data, InsertFails)) ==
            sys.(table := FallenBack(sys.table, sys.signaling.sockets[socket].session, InsertFails),
                 signaling := Announced(sys.signaling, sys.signaling.sockets[socket].session))
  {
    hide Step, Announced, StepAll;
    var id, n, e := sys.signaling.sockets[socket].session, |sys.inFlight|, OnSignaling(R.Message(socket, data), Failed);
    FallbackAsked(sys, socket, data);
    var asked := Step(sys, e);
    OneStep(sys, e);
    UpdateLands(asked, sys.inFlight, id);
    var updated := Step(asked, Lands(n));
    LastFails(updated, sys.inFlight, FallbackJob(sys.table, id), id);
    StepAllGrows(sys, [e], Lands(n));
    StepAllGrows(sys, [e] + [Lands(n)], Fails(n));
    assert [e] + [Lands(n), Fails(n)] == [e] + [Lands(n)] + [Fails(n)];
    StepAllGrows(sys, [e] + [Lands(n), Fails(n)], Notifies(|sys.notices|));
    LastNotice(Step(updated, Fails(n)), sys.notices, id);
  }

  /** A "failed" message in any run, whose handler is then not interrupted: the machine's steps leave what the
      handler leaves, whichever statement fails, and nothing new in flight. */
  lemma FallbackIsItsSteps(es: seq<Event>, socket: nat, data: string, outcome: FallbackOutcome)
    requires socket < |Run(es).signaling.sockets|
    ensures var sys := Run(es);
      var after := StepAll(sys, FallbackSteps(sys, socket, data, outcome));
      && (after.table, after.signaling) == Handled(sys, socket, data, Failed, outcome)
      && after.inFlight == sys.inFlight && after.notices == sys.notices && after.relay == sys.relay
  {
    EveryRunSocketsStored(es);
    hide Run, StepAll, FallbackSteps, Announced;
    match outcome
    case Stored => StoredFallback(Run(es), socket, data);
    case UpdateFails => FallbackWithFailingUpdate(Run(es), socket, data);
    case InsertFails => FallbackWithFailingInsert(Run(es), socket, data);
  }

  // ------------------------------------------------------------ the handlers

  class Signaling {
    const relays: R.RelayServer
    const store: SessionStore

    constructor (relays: R.RelayServer, store: SessionStore)
      ensures this.relays == relays && this.store == store
    {
      this.relays := relays;
      this.store := store;
    }

    /** The notices go out whether or not the service has thrown. */
    method TriggerFallback(session: int, outcome: FallbackOutcome)
      modifies relays, store
      ensures store.Contents() == FallenBack(old(store.Contents()), session, outcome)
      ensures relays.State() == Announced(old(relays.State()), session)
    {
      var stored, swallowed := store.FallbackVncSessionToRfb(session, outcome);
      relays.Send(session, R.ViewerSide, FALLBACK);
      relays.Send(session, R.AgentSide, STOP);
    }

    method HandleAgentMessage(session: int, raw: string, kind: Kind, outcome: FallbackOutcome)
      modifies relays, store
      ensures (store.Contents(), relays.State()) ==
              AgentHandled(old(store.Contents()), old(relays.State()), session, raw, kind, outcome)
      ensures !kind.Failed? ==> store.Contents() == old(store.Contents())
      ensures kind.NotJson? || kind.JsonNull? ==> relays.State() == old(relays.State())
      ensures kind.OtherJson? ==> R.Delivered(old(relays.State()), relays.State(), session, R.ViewerSide, raw)
    {
      if kind == NotJson || kind == JsonNull {
        return;
      }
      if kind == Failed {
        TriggerFallback(session, outcome);
        return;
      }
      relays.Send(session, R.ViewerSide, raw);
    }

    method HandleViewerMessage(session: int, raw: string, kind: Kind, outcome: FallbackOutcome)
      modifies relays, store
      ensures (store.Contents(), relays.State()) ==
              ViewerHandled(old(store.Contents()), old(relays.State()), session, raw, kind, outcome)
      ensures !kind.Failed? ==> store.Contents() == old(store.Contents())
      ensures !kind.Failed? ==> R.Delivered(old(relays.State()), relays.State(), session, R.AgentSide, raw)
    {
      if kind == Failed {
        TriggerFallback(session, outcome);
        return;
      }
      relays.Send(session, R.AgentSide, raw);
    }
  }
}
