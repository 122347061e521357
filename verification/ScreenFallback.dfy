/**
  The fallback from WebRTC to RFB over whole runs (backend/services/vncSessions.service.js:83-100,
  backend/ws/webrtcSignaling.js:165-213): the bridge job each stored fallback owes its session, and the
  notice to the viewer, when any of the statements may fail.
 */
module ScreenFallback {
  import opened Common
  import opened VncSessions
  import opened ScreenControl
  import opened ScreenUpdates
  import R = VncRelay
  import D = RelayDelivery

  function FallbackUpdate(id: int): Statement { SetRow(id, FallBack) }

  // ---------------------------------------------------------- the bridge jobs

  /** The session's owner decides the jobs that are in flight for it. */
  ghost predicate JobsFit(sys: System) {
    forall st :: st in sys.inFlight && st.AddJob? ==>
      Has(sys.table, st.job.session) &&
      (st.fallback ==> st == FallbackJob(sys.table, st.job.session)) &&
      (!st.fallback ==> st == StartJob(sys.table, st.job.session, st.job.command))
  }

  /** The job that a session starts with. */
  function StartJob(t: Table, id: int, command: Command): Statement
    requires Has(t, id)
  {
    AddJob(BridgeJob(t.rows[id - 1].agentId, command, id, t.rows[id - 1].requestedBy), false)
  }

  lemma IssuedJobFits(sys: System, e: Event, st: Statement)
    requires st in Issued(sys, e) && st.AddJob?
    ensures Has(Step(sys, e).table, st.job.session)
    ensures st.fallback ==> st == FallbackJob(Step(sys, e).table, st.job.session)
    ensures !st.fallback ==> st == StartJob(Step(sys, e).table, st.job.session, st.job.command)
  {
    hide R.Step, OnSignalingEvent, Announced, Returns;
  }

  lemma StepJobsFit(sys: System, e: Event)
    requires JobsFit(sys)
    ensures JobsFit(Step(sys, e))
  {
    var after := Step(sys, e);
    hide Step, Issued;
    forall st | st in after.inFlight && st.AddJob?
      ensures Has(after.table, st.job.session)
      ensures st.fallback ==> st == FallbackJob(after.table, st.job.session)
      ensures !st.fallback ==> st == StartJob(after.table, st.job.session, st.job.command)
    {
      NothingNew(sys, e, st);
      if st in Issued(sys, e) {
        IssuedJobFits(sys, e, st);
      } else {
        StepKeepsRows(sys, e, st.job.session);
      }
    }
  }

  lemma {:induction false} EveryRunJobsFit(es: seq<Event>)
    ensures JobsFit(Run(es))
  {
    if es != [] {
      hide Step, JobsFit;
      EveryRunJobsFit(es[..|es| - 1]);
      StepJobsFit(Run(es[..|es| - 1]), es[|es| - 1]);
    } else {
      assert JobsFit(Initial);
    }
  }

  lemma SameJobs(sys: System, e: Event, id: int)
    requires Has(sys.table, id)
    ensures Has(Step(sys, e).table, id)
    ensures FallbackJob(Step(sys, e).table, id) == FallbackJob(sys.table, id)
    ensures forall command :: StartJob(Step(sys, e).table, id, command) == StartJob(sys.table, id, command)
  {
    StepKeepsRows(sys, e, id);
    hide Step;
  }

  /** A landing fallback update issues its job, and nothing else does. */
  lemma JobIssuedWhenLanded(sys: System, e: Event, id: int)
    requires Has(sys.table, id)
    ensures CountOf(Issued(sys, e), FallbackJob(sys.table, id)) == if LandsNow(sys, e, FallbackUpdate(id)) then 1 else 0
  {
    hide R.Step, OnSignalingEvent, Announced, Returns, Step;
  }

  /** What is issued is not issued for a session before it is stored. */
  lemma NothingBeforeTheRow(sys: System, e: Event, id: int)
    requires OnlyStored(sys) && !Has(sys.table, id)
    ensures CountOf(Issued(sys, e), FallbackUpdate(id)) == 0
    ensures forall st :: st in Issued(sys, e) && st.AddJob? && st.fallback ==> st.job.session != id
    ensures !LandsNow(sys, e, FallbackUpdate(id))
  {
    hide R.Step, OnSignalingEvent, Announced, Returns, Step;
  }

  /** A stored fallback issues exactly one job. */
  lemma {:induction false} OneJobForEachFallback(es: seq<Event>, id: int, job: Statement)
    requires job.AddJob? && job.fallback && job.job.session == id
    requires Has(Run(es).table, id) ==> job == FallbackJob(Run(es).table, id)
    ensures Has(Run(es).table, id) ==> IssuedCount(es, job) == LandedCount(es, FallbackUpdate(id))
    ensures !Has(Run(es).table, id) ==> IssuedCount(es, job) == 0 && LandedCount(es, FallbackUpdate(id)) == 0
  {
    if es != [] {
      hide Step, Issued, LandsNow;
      var front, e := es[..|es| - 1], es[|es| - 1];
      var sys := Run(front);
      EveryRunOnlyStored(front);
      if Has(sys.table, id) {
        SameJobs(sys, e, id);
        OneJobForEachFallback(front, id, job);
        JobIssuedWhenLanded(sys, e, id);
      } else {
        OneJobForEachFallback(front, id, job);
        NothingBeforeTheRow(sys, e, id);
        hide OnlyStored, FallbackUpdate;
        assert CountOf(Issued(sys, e), job) == 0;
      }
    }
  }

  lemma JobsGrow(jobs: seq<BridgeJob>, job: BridgeJob, id: int, command: Command)
    ensures JobsOf(jobs + [job], id, command) ==
            JobsOf(jobs, id, command) + if job.session == id && job.command == command then 1 else 0
  {
    assert (jobs + [job])[..|jobs|] == jobs;
  }

  lemma StepAddsJobs(sys: System, e: Event, id: int)
    requires JobsFit(sys) && Has(sys.table, id)
    ensures JobsOf(Step(sys, e).table.jobs, id, StartVncBridge) ==
            JobsOf(sys.table.jobs, id, StartVncBridge)
            + (if LandsNow(sys, e, FallbackJob(sys.table, id)) then 1 else 0)
            + (if LandsNow(sys, e, StartJob(sys.table, id, StartVncBridge)) then 1 else 0)
  {
    hide R.Step, OnSignalingEvent, Announced, Returns, Issued, LookedUp, JobsOf;
    if e.Lands? && e.k < |sys.inFlight| && sys.inFlight[e.k].AddJob? {
      var st := sys.inFlight[e.k];
      assert st in sys.inFlight;
      JobsGrow(sys.table.jobs, st.job, id, StartVncBridge);
    }
  }

  lemma NoJobsBeforeTheRow(sys: System, e: Event, id: int)
    requires JobsFit(sys) && !Has(sys.table, id)
    ensures JobsOf(Step(sys, e).table.jobs, id, StartVncBridge) == JobsOf(sys.table.jobs, id, StartVncBridge)
    ensures forall st: Statement :: st.AddJob? && st.job.session == id ==> !LandsNow(sys, e, st)
  {
    hide R.Step, OnSignalingEvent, Announced, Returns, Issued, LookedUp, JobsOf;
    if e.Lands? && e.k < |sys.inFlight| && sys.inFlight[e.k].AddJob? {
      assert sys.inFlight[e.k] in sys.inFlight;
      JobsGrow(sys.table.jobs, sys.inFlight[e.k].job, id, StartVncBridge);
    }
  }

  /** The RFB bridge jobs of a session are those that have landed: its first, and those of fallbacks. */
  lemma {:induction false} BridgesAreLanded(es: seq<Event>, id: int, fallback: Statement, first: Statement)
    requires fallback.AddJob? && fallback.job.session == id && first.AddJob? && first.job.session == id
    requires Has(Run(es).table, id) ==>
               fallback == FallbackJob(Run(es).table, id) && first == StartJob(Run(es).table, id, StartVncBridge)
    ensures JobsOf(Run(es).table.jobs, id, StartVncBridge) == LandedCount(es, fallback) + LandedCount(es, first)
  {
    if es != [] {
      hide Step, LandsNow, JobsOf;
      var front, e := es[..|es| - 1], es[|es| - 1];
      var sys := Run(front);
      EveryRunJobsFit(front);
      if Has(sys.table, id) {
        SameJobs(sys, e, id);
        BridgesAreLanded(front, id, fallback, first);
        StepAddsJobs(sys, e, id);
      } else {
        BridgesAreLanded(front, id, fallback, first);
        NoJobsBeforeTheRow(sys, e, id);
      }
    } else {
      assert Run(es).table.jobs == [];
    }
  }

  /** Every stored fallback has its bridge job, or that job's INSERT is in flight, if and only if none of
      these INSERTs has failed: the bridges of a session, its first one aside, and those on their way are as
      many as its stored fallbacks, less the failed ones. */
  lemma FallbackHasItsBridgeExactlyWhen(es: seq<Event>, id: int)
    requires Has(Run(es).table, id)
    ensures var fallback := FallbackJob(Run(es).table, id);
      var first := StartJob(Run(es).table, id, StartVncBridge);
      var bridges := JobsOf(Run(es).table.jobs, id, StartVncBridge) - LandedCount(es, first);
      var stored := LandedCount(es, FallbackUpdate(id));
      && bridges + InFlightCount(es, fallback) + FailedCount(es, fallback) == stored
      && (bridges + InFlightCount(es, fallback) == stored <==> FailedCount(es, fallback) == 0)
  {
    hide Run, IssuedCount, LandedCount, FailedCount, InFlightCount, JobsOf, FallbackUpdate;
    var fallback := FallbackJob(Run(es).table, id);
    var first := StartJob(Run(es).table, id, StartVncBridge);
    StatementsAreConserved(es, fallback);
    OneJobForEachFallback(es, id, fallback);
    BridgesAreLanded(es, id, fallback, first);
  }

  // --------------------------------------------------------- the row it leaves

  ghost predicate OnRfbOrOver(t: Table, id: int) {
    Has(t, id) && (t.rows[id - 1].status.Ended? || t.rows[id - 1].transport.Rfb?)
  }

  lemma StepOnRfb(sys: System, e: Event, id: int)
    requires Has(sys.table, id)
    requires OnRfbOrOver(sys.table, id) || LandsNow(sys, e, FallbackUpdate(id))
    ensures OnRfbOrOver(Step(sys, e).table, id)
  {
    hide R.Step, OnSignalingEvent, Announced, Returns, Issued, LookedUp;
  }

  /** A stored fallback has moved its session to RFB, or the session is over. */
  lemma {:induction false} StoredFallbackMovesTheRow(es: seq<Event>, id: int)
    requires LandedCount(es, FallbackUpdate(id)) > 0
    ensures OnRfbOrOver(Run(es).table, id)
  {
    hide Step, LandsNow, OnRfbOrOver;
    var front, e := es[..|es| - 1], es[|es| - 1];
    EveryRunOnlyStored(front);
    if LandsNow(Run(front), e, FallbackUpdate(id)) {
      LandingIsStored(Run(front), e, id);
    } else {
      StoredFallbackMovesTheRow(front, id);
      MovedIsStored(Run(front).table, id);
    }
    StepOnRfb(Run(front), e, id);
  }

  lemma LandingIsStored(sys: System, e: Event, id: int)
    requires OnlyStored(sys) && LandsNow(sys, e, FallbackUpdate(id))
    ensures Has(sys.table, id)
  {
  }

  lemma MovedIsStored(t: Table, id: int)
    requires OnRfbOrOver(t, id)
    ensures Has(t, id)
  {
  }

  // ------------------------------------------------------------- the notices

  /** What the session's agent itself has said on the signaling channel. */
  function AgentTexts(es: seq<Event>, session: int): seq<string> {
    if es == [] then []
    else AgentTexts(es[..|es| - 1], session) + AgentSays(Run(es[..|es| - 1]), es[|es| - 1], session)
  }

  function AgentSays(sys: System, e: Event, session: int): seq<string> {
    var sockets := sys.signaling.sockets;
    if e.OnSignaling? && e.event.Message? && e.event.socket < |sockets| &&
       sockets[e.event.socket].session == session && sockets[e.event.socket].role.AgentSide?
    then [e.event.data]
    else []
  }

  function Settled(es: seq<Event>, id: int): nat {
    LandedCount(es, FallbackUpdate(id)) + FailedCount(es, FallbackUpdate(id))
  }

  predicate AnnouncesNow(sys: System, e: Event, id: int) {
    e.Notifies? && e.k < |sys.notices| && sys.notices[e.k] == id
  }

  /** How often the fallback of the session has been announced, and how often it is still to be. */
  function AnnouncedCount(es: seq<Event>, id: int): nat {
    if es == [] then 0
    else AnnouncedCount(es[..|es| - 1], id) + if AnnouncesNow(Run(es[..|es| - 1]), es[|es| - 1], id) then 1 else 0
  }

  function Due(notices: seq<int>, id: int): nat {
    multiset(notices)[id]
  }

  lemma DueWithout(notices: seq<int>, k: nat, id: int)
    requires k < |notices|
    ensures Due(Without(notices, k), id) + (if notices[k] == id then 1 else 0) == Due(notices, id)
  {
    assert notices == notices[..k] + [notices[k]] + notices[k + 1..];
  }

  lemma DueGrows(notices: seq<int>, more: seq<int>, id: int)
    requires |more| <= 1
    ensures Due(notices + more, id) == Due(notices, id) + if more == [id] then 1 else 0
  {
  }

  /** A notice becomes due when an update fails, or when the job that follows it has landed or failed. */
  lemma NoticeDue(sys: System, e: Event, id: int, job: Statement)
    requires job.AddJob? && job.fallback && job.job.session == id && (e.Lands? || e.Fails?) && e.k < |sys.inFlight|
    requires JobsFit(sys) && (Has(sys.table, id) ==> job == FallbackJob(sys.table, id))
    ensures Returns(sys.inFlight[e.k], e.Fails?) == [id] <==>
            FailsNow(sys, e, FallbackUpdate(id)) || LandsNow(sys, e, job) || FailsNow(sys, e, job)
    ensures |Returns(sys.inFlight[e.k], e.Fails?)| <= 1
  {
    assert sys.inFlight[e.k] in sys.inFlight;
  }

  lemma StepConservesNotices(sys: System, e: Event, id: int, job: Statement)
    requires job.AddJob? && job.fallback && job.job.session == id
    requires JobsFit(sys) && (Has(sys.table, id) ==> job == FallbackJob(sys.table, id))
    ensures Due(Step(sys, e).notices, id) + (if AnnouncesNow(sys, e, id) then 1 else 0) ==
            Due(sys.notices, id) + (if FailsNow(sys, e, FallbackUpdate(id)) then 1 else 0)
            + (if LandsNow(sys, e, job) then 1 else 0) + (if FailsNow(sys, e, job) then 1 else 0)
  {
    hide R.Step, OnSignalingEvent, Announced, Execute, Issued, LookedUp, Returns, JobsFit, Due, Without;
    if (e.Lands? || e.Fails?) && e.k < |sys.inFlight| {
      NoticeDue(sys, e, id, job);
      DueGrows(sys.notices, Returns(sys.inFlight[e.k], e.Fails?), id);
    } else if e.Notifies? && e.k < |sys.notices| {
      DueWithout(sys.notices, e.k, id);
    }
  }

  lemma {:induction false} NoticesAreConserved(es: seq<Event>, id: int, job: Statement)
    requires job.AddJob? && job.fallback && job.job.session == id
    requires Has(Run(es).table, id) ==> job == FallbackJob(Run(es).table, id)
    ensures AnnouncedCount(es, id) + Due(Run(es).notices, id) ==
            FailedCount(es, FallbackUpdate(id)) + LandedCount(es, job) + FailedCount(es, job)
  {
    if es != [] {
      hide Step, AnnouncesNow, LandsNow, FailsNow, FallbackUpdate, Due, JobsFit;
      var front, e := es[..|es| - 1], es[|es| - 1];
      EveryRunJobsFit(front);
      if Has(Run(front).table, id) {
        SameJobs(Run(front), e, id);
      }
      NoticesAreConserved(front, id, job);
      StepConservesNotices(Run(front), e, id, job);
    } else {
      assert Run(es).notices == [];
    }
  }

  /** Every announcement, made or pending, belongs to one update that has landed or failed; all of them are
      backed by a stored fallback if and only if no update of the session has failed. */
  lemma EveryNoticeHasItsUpdate(es: seq<Event>, id: int)
    requires Has(Run(es).table, id)
    ensures var notices := AnnouncedCount(es, id) + Due(Run(es).notices, id);
      var waiting := InFlightCount(es, FallbackJob(Run(es).table, id));
      var update := FallbackUpdate(id);
      && notices + waiting == LandedCount(es, update) + FailedCount(es, update)
      && (notices + waiting == LandedCount(es, update) <==> FailedCount(es, update) == 0)
  {
    hide Run, IssuedCount, LandedCount, FailedCount, InFlightCount, AnnouncedCount, Due, FallbackUpdate;
    var job := FallbackJob(Run(es).table, id);
    NoticesAreConserved(es, id, job);
    StatementsAreConserved(es, job);
    OneJobForEachFallback(es, id, job);
  }

  /** An announcement is pending only for a session of which a fallback update has landed or failed. */
  lemma NoticeMeansSettled(es: seq<Event>, id: int)
    requires id in Run(es).notices
    ensures Settled(es, id) > 0
  {
    hide Run, IssuedCount, LandedCount, FailedCount, InFlightCount, AnnouncedCount, FallbackUpdate;
    assert Due(Run(es).notices, id) > 0;
    var job := if Has(Run(es).table, id) then FallbackJob(Run(es).table, id)
               else AddJob(BridgeJob(0, StartVncBridge, id, 0), true);
    NoticesAreConserved(es, id, job);
    StatementsAreConserved(es, job);
    OneJobForEachFallback(es, id, job);
  }

  /** Socket v is a viewer's and has received the fallback text. */
  ghost predicate Told(es: seq<Event>, v: nat) {
    v < |Run(es).signaling.sockets| && Run(es).signaling.sockets[v].role.ViewerSide? &&
    FALLBACK in Run(es).signaling.sockets[v].received
  }

  function SessionOf(es: seq<Event>, v: nat): int
    requires v < |Run(es).signaling.sockets|
  {
    Run(es).signaling.sockets[v].session
  }

  /** The event announces the fallback of v's session while v is the viewer's current socket. */
  ghost predicate Announces(sys: System, e: Event, v: nat) {
    && e.Notifies? && e.k < |sys.notices| && v < |sys.signaling.sockets|
    && sys.signaling.sockets[v].session == sys.notices[e.k]
    && D.Current(sys.signaling, sys.notices[e.k], R.ViewerSide, v)
  }

  /** What a socket receives from one post is that post. */
  lemma PostReaches(r: R.Relay, id: int, to: R.Role, data: string, v: nat)
    requires R.Wired(r) && v < |r.sockets|
    ensures |R.Post(r, id, to, data).sockets| == |r.sockets|
    ensures var q := R.Post(r, id, to, data);
      && q.sockets[v].session == r.sockets[v].session && q.sockets[v].role == r.sockets[v].role
      && (q.sockets[v].received == r.sockets[v].received ||
          (&& q.sockets[v].received == r.sockets[v].received + [data]
           && D.Current(r, id, to, v) && r.sockets[v].session == id && r.sockets[v].role == to))
      && (D.Current(r, id, to, v) ==> q.sockets[v].received == r.sockets[v].received + [data])
  {
  }

  lemma AnnouncementReaches(r: R.Relay, id: int, v: nat)
    requires SignalingSound(r) && v < |r.sockets| && r.sockets[v].role.ViewerSide?
    ensures v < |Announced(r, id).sockets|
    ensures var q := Announced(r, id);
      && q.sockets[v].session == r.sockets[v].session && q.sockets[v].role.ViewerSide?
      && (FALLBACK in q.sockets[v].received && FALLBACK !in r.sockets[v].received ==>
            D.Current(r, id, R.ViewerSide, v) && r.sockets[v].session == id)
      && (D.Current(r, id, R.ViewerSide, v) ==> FALLBACK in q.sockets[v].received)
  {
    var told := R.Post(r, id, R.ViewerSide, FALLBACK);
    PostSound(r, id, R.ViewerSide, FALLBACK);
    hide R.Post, D.Current, R.Conserved, D.Isolated;
    PostReaches(r, id, R.ViewerSide, FALLBACK, v);
    PostReaches(told, id, R.AgentSide, STOP, v);
  }

  /** Apart from announcements, only the agent's own words reach a viewer. */
  lemma SignalReaches(r: R.Relay, e: R.Event, v: nat)
    requires R.Wired(r) && v < |R.Step(r, e).sockets|
    ensures var q := R.Step(r, e);
      && (v < |r.sockets| ==> q.sockets[v].session == r.sockets[v].session && q.sockets[v].role == r.sockets[v].role)
      && (FALLBACK in q.sockets[v].received && q.sockets[v].role.ViewerSide? ==>
            v < |r.sockets| &&
            (FALLBACK in r.sockets[v].received ||
             (e.Message? && e.data == FALLBACK && e.socket < |r.sockets| && r.sockets[e.socket].role.AgentSide? &&
              r.sockets[e.socket].session == r.sockets[v].session)))
  {
    hide R.CloseSession, R.Attach, R.Post;
    match e
    case AgentConnects(session, agent, owner) =>
      if R.Admits(session, agent, owner) { OldSocketsStay(r, session, R.AgentSide, v); }
    case ViewerConnects(session, tokenValid, known) =>
      if tokenValid && known { OldSocketsStay(r, session, R.ViewerSide, v); }
    case Message(socket, data) =>
      if socket < |r.sockets| {
        var from := r.sockets[socket];
        D.PostAddsNoSocket(r, from.session, R.Other(from.role), data);
        PostReaches(r, from.session, R.Other(from.role), data, v);
      }
    case Drops(_) =>
    case SocketGone(socket) => if socket < |r.sockets| { ClosedKeepWords(r, r.sockets[socket].session, v); }
    case TimerFires(timer) => if timer in r.timers { ClosedKeepWords(r, r.timers[timer], v); }
  }

  lemma OldSocketsStay(r: R.Relay, session: int, role: R.Role, v: nat)
    requires v < |R.Attach(r, session, role).sockets|
    ensures var a := R.Attach(r, session, role);
      if v < |r.sockets| then a.sockets[v] == r.sockets[v] else a.sockets[v].received == []
  {
  }

  lemma ClosedKeepWords(r: R.Relay, session: int, v: nat)
    requires v < |R.CloseSession(r, session).sockets|
    ensures v < |r.sockets|
    ensures var c := R.CloseSession(r, session);
      && c.sockets[v].received == r.sockets[v].received
      && c.sockets[v].session == r.sockets[v].session && c.sockets[v].role == r.sockets[v].role
  {
  }

  /** A viewer is told by an announcement of its session, or by its agent's own words. */
  lemma ToldBy(sys: System, e: Event, v: nat)
    requires SignalingSound(sys.signaling) && v < |Step(sys, e).signaling.sockets|
    requires Step(sys, e).signaling.sockets[v].role.ViewerSide? &&
             FALLBACK in Step(sys, e).signaling.sockets[v].received
    ensures v < |sys.signaling.sockets|
    ensures sys.signaling.sockets[v].session == Step(sys, e).signaling.sockets[v].session
    ensures sys.signaling.sockets[v].role.ViewerSide?
    ensures || FALLBACK in sys.signaling.sockets[v].received
            || Announces(sys, e, v)
            || FALLBACK in AgentSays(sys, e, sys.signaling.sockets[v].session)
  {
    hide R.Step, Announced, Execute, Issued, Returns, R.Conserved, D.Isolated;
    if e.OnSignaling? {
      SignalOnly(sys, e.event, e.kind, v);
    } else if e.Notifies? && e.k < |sys.notices| {
      AnnouncedSeats(sys.signaling, sys.notices[e.k]);
      AnnouncementReaches(sys.signaling, sys.notices[e.k], v);
    }
  }

  lemma AnnouncedSeats(r: R.Relay, id: int)
    ensures R.SameSeats(r.sockets, Announced(r, id).sockets)
  {
  }

  lemma SignalOnly(sys: System, event: R.Event, kind: Kind, v: nat)
    requires R.Wired(sys.signaling)
    requires var q := OnSignalingEvent(sys.signaling, LookedUp(sys.table, event), kind);
      v < |q.sockets| && q.sockets[v].role.ViewerSide? && FALLBACK in q.sockets[v].received
    ensures var q := OnSignalingEvent(sys.signaling, LookedUp(sys.table, event), kind);
      && v < |sys.signaling.sockets| && sys.signaling.sockets[v].session == q.sockets[v].session
      && sys.signaling.sockets[v].role.ViewerSide?
      && (|| FALLBACK in sys.signaling.sockets[v].received
          || FALLBACK in AgentSays(sys, OnSignaling(event, kind), sys.signaling.sockets[v].session))
  {
    hide R.Step;
    var le := LookedUp(sys.table, event);
    if OnSignalingEvent(sys.signaling, le, kind) == R.Step(sys.signaling, le) {
      SignalReaches(sys.signaling, le, v);
    }
  }

  /** Behind every viewer that was told, while its agent has not said so itself, there is a fallback update of
      its session that has landed or failed. */
  lemma {:induction false} ToldMeansSettled(es: seq<Event>, v: nat)
    requires Told(es, v) && FALLBACK !in AgentTexts(es, SessionOf(es, v))
    ensures LandedCount(es, FallbackUpdate(SessionOf(es, v))) + FailedCount(es, FallbackUpdate(SessionOf(es, v))) > 0
  {
    hide Step, AgentSays, Announces, LandsNow, FailsNow, FallbackUpdate;
    if es != [] {
      var front, e := es[..|es| - 1], es[|es| - 1];
      SignalingIsSound(front);
      ToldBy(Run(front), e, v);
      if Told(front, v) {
        ToldMeansSettled(front, v);
      } else {
        AnnouncedSettled(front, e, v);
      }
    }
  }

  lemma AnnouncedSettled(front: seq<Event>, e: Event, v: nat)
    requires Announces(Run(front), e, v)
    ensures Settled(front, Run(front).signaling.sockets[v].session) > 0
  {
    hide Run;
    NoticeMeansSettled(front, Run(front).notices[e.k]);
  }

  /** Before event k the viewer has been told although no fallback of its session is stored. */
  ghost predicate UnbackedNotice(es: seq<Event>, k: nat, v: nat) {
    k <= |es| && Told(es[..k], v) &&
    FALLBACK !in AgentTexts(es[..k], SessionOf(es[..k], v)) &&
    LandedCount(es[..k], FallbackUpdate(SessionOf(es[..k], v))) == 0
  }

  /** Event k announces to the viewer a fallback of which every update that has finished failed. */
  ghost predicate FailedNotice(es: seq<Event>, k: nat, v: nat) {
    k < |es| && v < |Run(es[..k]).signaling.sockets| && Announces(Run(es[..k]), es[k], v) &&
    FALLBACK !in AgentTexts(es[..k], SessionOf(es[..k], v)) &&
    FailedCount(es[..k], FallbackUpdate(SessionOf(es[..k], v))) > 0 &&
    LandedCount(es[..k], FallbackUpdate(SessionOf(es[..k], v))) == 0
  }

  lemma FailedNoticeIsUnbacked(es: seq<Event>, k: nat, v: nat)
    requires FailedNotice(es, k, v)
    ensures UnbackedNotice(es, k + 1, v)
  {
    var front, e := es[..k], es[k];
    assert es[..k + 1] == front + [e] && (front + [e])[..|front|] == front;
    SignalingIsSound(front);
    RunOne(front, e);
    hide Run, R.Conserved, D.Isolated, D.Current;
    NotifyStep(Run(front), e, v);
    CurrentIsViewer(Run(front), e, v);
    AnnouncementReaches(Run(front).signaling, Run(front).notices[e.k], v);
  }

  lemma NotifyStep(sys: System, e: Event, v: nat)
    requires Announces(sys, e, v)
    ensures Step(sys, e).signaling == Announced(sys.signaling, sys.notices[e.k])
  {
  }

  lemma CurrentIsViewer(sys: System, e: Event, v: nat)
    requires Announces(sys, e, v) && R.Wired(sys.signaling)
    ensures sys.signaling.sockets[v].role.ViewerSide?
  {
  }

  lemma NobodyAtTheStart(es: seq<Event>)
    ensures Run(es[..0]).signaling.sockets == []
  {
  }

  lemma {:induction false} UnbackedHasAFailedNotice(es: seq<Event>, k: nat, v: nat) returns (m: nat)
    requires UnbackedNotice(es, k, v)
    ensures m < k && FailedNotice(es, m, v)
    decreases k
  {
    NobodyAtTheStart(es);
    m := k - 1;
    var front, e := es[..m], es[m];
    assert es[..k] == front + [e] && (front + [e])[..|front|] == front;
    RunOne(front, e);
    SignalingIsSound(front);
    hide Run, Step, AgentSays, LandsNow, FailsNow, Announces, FallbackUpdate;
    ToldBy(Run(front), e, v);
    if Told(front, v) {
      m := UnbackedHasAFailedNotice(es, m, v);
    } else {
      AnnouncedSettled(front, e, v);
    }
  }

  /** A run tells some viewer to fall back with nothing stored if and only if some announcement comes after
      that session's update failed, and before any other has landed. */
  lemma RunHasUnbackedNoticeExactlyWhen(es: seq<Event>)
    ensures (exists k: nat, v: nat :: UnbackedNotice(es, k, v)) <==> (exists k: nat, v: nat :: FailedNotice(es, k, v))
  {
    if k: nat, v: nat :| UnbackedNotice(es, k, v) {
      var m := UnbackedHasAFailedNotice(es, k, v);
    }
    if k: nat, v: nat :| FailedNotice(es, k, v) {
      FailedNoticeIsUnbacked(es, k, v);
    }
  }

  // ------------------------------------------------------------ failing runs

  lemma {:induction false} NotSaidByTheAgent(es: seq<Event>, session: int)
    requires forall i :: 0 <= i < |es| && es[i].OnSignaling? && es[i].event.Message? ==> es[i].event.data != FALLBACK
    ensures FALLBACK !in AgentTexts(es, session)
  {
    if es != [] {
      hide Run;
      NotSaidByTheAgent(es[..|es| - 1], session);
    }
  }

  /** A WebRTC session to which agent and viewer have connected, and the viewer says "failed". */
  const ASKED: seq<Event> := [] + [Start(7, 1, Webrtc)] + [Lands(0)] + [AGENT_COMES] + [VIEWER_COMES] + [VIEWER_FAILS]

  const AGENT_COMES := OnSignaling(R.AgentConnects(1, Some(7), None), OtherJson)

  const VIEWER_COMES := OnSignaling(R.ViewerConnects(1, true, true), OtherJson)

  const VIEWER_FAILS := OnSignaling(R.Message(1, "failed"), Failed)

  function ConnectedMap(words: seq<string>, orders: seq<string>): R.Relay {
    R.Relay(map[1 := R.Entry(Some(0), Some(1), 0)],
            [R.Socket(1, R.AgentSide, 0, true, orders), R.Socket(1, R.ViewerSide, 0, true, words)],
            map[0 := 1], 1, [],
            if words == [] then [] else [R.Posted(1, R.ViewerSide, FALLBACK), R.Posted(1, R.AgentSide, STOP)])
  }

  const FIRST_JOB := AddJob(BridgeJob(7, StartWebrtcBridge, 1, 1), false)

  /** The state in which the viewer has asked, and those in which it has been told. */
  function AskedSystem(): System {
    System(Table([Session(7, 1, Pending, Webrtc)], []), R.Empty, ConnectedMap([], []),
           [FIRST_JOB, FallbackUpdate(1)], [])
  }

  function ToldSystem(transport: Transport): System {
    System(Table([Session(7, 1, Pending, transport)], []), R.Empty, ConnectedMap([FALLBACK], [STOP]), [FIRST_JOB], [])
  }

  lemma AskedState()
    ensures Run(ASKED) == AskedSystem()
  {
    hide Step, AskedSystem;
    var e0 := Start(7, 1, Webrtc);
    StateAfterConnecting();
    RunOne([], e0);
    RunOne([] + [e0], Lands(0));
    RunOne([] + [e0] + [Lands(0)], AGENT_COMES);
    RunOne([] + [e0] + [Lands(0)] + [AGENT_COMES], VIEWER_COMES);
    RunOne([] + [e0] + [Lands(0)] + [AGENT_COMES] + [VIEWER_COMES], VIEWER_FAILS);
  }

  const STARTED := System(Table([Session(7, 1, Pending, Webrtc)], []), R.Empty, R.Empty, [FIRST_JOB], [])

  lemma SessionStarts()
    ensures Step(Step(Initial, Start(7, 1, Webrtc)), Lands(0)) == STARTED
  {
  }

  lemma BothConnect()
    ensures var b := Step(Step(STARTED, AGENT_COMES), VIEWER_COMES);
      b == STARTED.(signaling := ConnectedMap([], []))
  {
    var a := Step(STARTED, AGENT_COMES);
    assert a.signaling.sockets == [R.Socket(1, R.AgentSide, 0, true, [])];
    assert a.signaling.sessions == map[1 := R.Entry(Some(0), None, 0)];
    var b := Step(a, VIEWER_COMES);
    assert b.signaling.sockets == [R.Socket(1, R.AgentSide, 0, true, []), R.Socket(1, R.ViewerSide, 0, true, [])];
    assert b.signaling.sessions == map[1 := R.Entry(Some(0), Some(1), 0)];
  }

  lemma StateAfterConnecting()
    ensures var a := Step(Step(Initial, Start(7, 1, Webrtc)), Lands(0));
      Step(Step(Step(a, AGENT_COMES), VIEWER_COMES), VIEWER_FAILS) == AskedSystem()
  {
    hide R.Step, R.Attach, R.CloseSession, Execute, Announced;
    SessionStarts();
    BothConnect();
  }

  lemma AnnouncedState()
    ensures Announced(ConnectedMap([], []), 1) == ConnectedMap([FALLBACK], [STOP])
  {
    var nothing: seq<string> := [];
    assert nothing + [FALLBACK] == [FALLBACK] && nothing + [STOP] == [STOP];
    var told := R.Post(ConnectedMap([], []), 1, R.ViewerSide, FALLBACK);
    assert told.sockets == [R.Socket(1, R.AgentSide, 0, true, []), R.Socket(1, R.ViewerSide, 0, true, [FALLBACK])];
    assert R.Post(told, 1, R.AgentSide, STOP).sockets ==
           [R.Socket(1, R.AgentSide, 0, true, [STOP]), R.Socket(1, R.ViewerSide, 0, true, [FALLBACK])];
  }

  lemma UpdateFailsThenTold()
    ensures Step(Step(AskedSystem(), Fails(1)), Notifies(0)) == ToldSystem(Webrtc)
  {
    hide Announced, ConnectedMap, R.Step, OnSignalingEvent, LookedUp;
    AnnouncedState();
    var a := Step(AskedSystem(), Fails(1));
    assert a.inFlight == [FIRST_JOB] && a.notices == [1];
  }

  lemma InsertFailsThenTold()
    ensures Step(Step(Step(AskedSystem(), Lands(1)), Fails(1)), Notifies(0)) == ToldSystem(Rfb)
  {
    hide Announced, ConnectedMap, R.Step, OnSignalingEvent, LookedUp;
    AnnouncedState();
    var job := AddJob(BridgeJob(7, StartVncBridge, 1, 1), true);
    var a := Step(AskedSystem(), Lands(1));
    assert a.table.rows == [Session(7, 1, Pending, Rfb)] && a.inFlight == [FIRST_JOB, job] && a.notices == [];
    var b := Step(a, Fails(1));
    assert b.inFlight == [FIRST_JOB] && b.notices == [1];
  }

  /** The update fails: the viewer is told to fall back while the session is still a WebRTC one. */
  lemma NoticeWithoutAStoredFallback()
    ensures var es := ASKED + [Fails(1)] + [Notifies(0)];
      && Run(es).table == Table([Session(7, 1, Pending, Webrtc)], []) && Told(es, 1)
      && UnbackedNotice(es, |es|, 1)
  {
    hide Step, Run, LandedCount;
    var es := ASKED + [Fails(1)] + [Notifies(0)];
    AskedState();
    RunOne(ASKED, Fails(1));
    RunOne(ASKED + [Fails(1)], Notifies(0));
    UpdateFailsThenTold();
    assert es[..|es|] == es;
    NotSaidByTheAgent(es, 1);
    if LandedCount(es, FallbackUpdate(1)) > 0 {
      StoredFallbackMovesTheRow(es, 1);
    }
  }

  /** The update lands and the INSERT fails: the session is on RFB and pending, the viewer is told to dial,
      and no RFB bridge has been started or will be. */
  lemma FallbackWithoutItsBridge()
    ensures var es := ASKED + [Lands(1)] + [Fails(1)] + [Notifies(0)];
      && Run(es).table == Table([Session(7, 1, Pending, Rfb)], []) && Run(es).inFlight == [FIRST_JOB] && Told(es, 1)
  {
    hide Step, Run;
    AskedState();
    RunOne(ASKED, Lands(1));
    RunOne(ASKED + [Lands(1)], Fails(1));
    RunOne(ASKED + [Lands(1)] + [Fails(1)], Notifies(0));
    InsertFailsThenTold();
  }
}
