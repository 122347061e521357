/**
  The database statements of screen control over whole runs: each one that is issued lands once, fails once
  or is still in flight; what the rows are then; and when a finalised relay entry ends its session
  (backend/ws/vncRelay.js:68-102, backend/repositories/vncSessions.repo.js:32-58).
 */
module ScreenUpdates {
  import opened Common
  import opened VncSessions
  import opened ScreenControl
  import R = VncRelay

  // ------------------------------------------------------------ conservation

  function CountOf(s: seq<Statement>, st: Statement): nat {
    multiset(s)[st]
  }

  /** How often the statement was issued, how often it landed and how often it failed. */
  function IssuedCount(es: seq<Event>, st: Statement): nat {
    if es == [] then 0 else IssuedCount(es[..|es| - 1], st) + CountOf(Issued(Run(es[..|es| - 1]), es[|es| - 1]), st)
  }

  predicate LandsNow(sys: System, e: Event, st: Statement) {
    e.Lands? && e.k < |sys.inFlight| && sys.inFlight[e.k] == st
  }

  predicate FailsNow(sys: System, e: Event, st: Statement) {
    e.Fails? && e.k < |sys.inFlight| && sys.inFlight[e.k] == st
  }

  function LandedCount(es: seq<Event>, st: Statement): nat {
    if es == [] then 0
    else LandedCount(es[..|es| - 1], st) + if LandsNow(Run(es[..|es| - 1]), es[|es| - 1], st) then 1 else 0
  }

  function FailedCount(es: seq<Event>, st: Statement): nat {
    if es == [] then 0
    else FailedCount(es[..|es| - 1], st) + if FailsNow(Run(es[..|es| - 1]), es[|es| - 1], st) then 1 else 0
  }

  function InFlightCount(es: seq<Event>, st: Statement): nat {
    CountOf(Run(es).inFlight, st)
  }

  lemma CountWithout(s: seq<Statement>, k: nat, more: seq<Statement>, st: Statement)
    requires k < |s|
    ensures CountOf(Without(s, k) + more, st) + (if s[k] == st then 1 else 0) == CountOf(s, st) + CountOf(more, st)
    ensures CountOf(Without(s, k), st) + (if s[k] == st then 1 else 0) == CountOf(s, st)
  {
    assert s == s[..k] + [s[k]] + s[k + 1..];
  }

  lemma StepConserves(sys: System, e: Event, st: Statement)
    ensures CountOf(Step(sys, e).inFlight, st)
            + (if LandsNow(sys, e, st) then 1 else 0) + (if FailsNow(sys, e, st) then 1 else 0)
            == CountOf(sys.inFlight, st) + CountOf(Issued(sys, e), st)
  {
    hide Issued, Execute, Returns, R.Step, LookedUp, OnSignalingEvent, Announced, Without;
    if e.Lands? && e.k < |sys.inFlight| {
      CountWithout(sys.inFlight, e.k, Issued(sys, e), st);
    } else if e.Fails? && e.k < |sys.inFlight| {
      CountWithout(sys.inFlight, e.k, [], st);
      NothingIssued(sys, e);
    } else if e.Notifies? || e.Lands? || e.Fails? {
      NothingIssued(sys, e);
    }
  }

  lemma NothingIssued(sys: System, e: Event)
    requires e.Fails? || e.Notifies? || (e.Lands? && e.k >= |sys.inFlight|)
    ensures Issued(sys, e) == []
  {
  }

  /** Every statement that was issued has landed, has failed or is in flight, and is in one of these places only. */
  lemma {:induction false} StatementsAreConserved(es: seq<Event>, st: Statement)
    ensures IssuedCount(es, st) == LandedCount(es, st) + FailedCount(es, st) + InFlightCount(es, st)
  {
    if es != [] {
      hide Step, Issued, LandsNow, FailsNow, CountOf;
      StatementsAreConserved(es[..|es| - 1], st);
      StepConserves(Run(es[..|es| - 1]), es[|es| - 1], st);
    } else {
      assert Run(es).inFlight == [];
    }
  }

  // ---------------------------------------------------- what asks for an update

  /** The agent that a stored session belongs to connects to the relay. */
  predicate OwnerConnects(sys: System, e: Event, id: int) {
    && e.OnRelay? && e.event.AgentConnects? && e.event.session == id && id != 0 && Has(sys.table, id)
    && e.event.agent == Some(sys.table.rows[id - 1].agentId)
  }

  /** The end of a stored session is asked for, or its relay entry ends by a close event or its timer. */
  predicate AsksForEnd(sys: System, e: Event, id: int) {
    || (e == EndRequest(id) && Has(sys.table, id))
    || (e.OnRelay? && e.event.SocketGone? && e.event.socket < |sys.relay.sockets| &&
        sys.relay.sockets[e.event.socket].session == id && id in sys.relay.sessions)
    || (e.OnRelay? && e.event.TimerFires? && e.event.timer in sys.relay.timers &&
        sys.relay.timers[e.event.timer] == id && id in sys.relay.sessions)
  }

  /** The session's bridge job has failed, or one of its signaling sockets says "failed". */
  predicate AsksForFallback(sys: System, e: Event, id: int) {
    && Has(sys.table, id)
    && (|| e == BridgeJobFailed(id)
        || (e.OnSignaling? && e.kind == Failed && e.event.Message? && e.event.socket < |sys.signaling.sockets| &&
            sys.signaling.sockets[e.event.socket].session == id))
  }

  function AskedCount(es: seq<Event>, id: int, change: Change): nat {
    if es == [] then 0
    else
      var sys, e := Run(es[..|es| - 1]), es[|es| - 1];
      AskedCount(es[..|es| - 1], id, change) +
      if (change == Activate && OwnerConnects(sys, e, id)) || (change == Finish && AsksForEnd(sys, e, id)) ||
         (change == FallBack && AsksForFallback(sys, e, id)) then 1 else 0
  }

  lemma ActivationIssued(sys: System, e: Event, id: int)
    ensures CountOf(Issued(sys, e), SetRow(id, Activate)) == if OwnerConnects(sys, e, id) then 1 else 0
  {
    hide R.Step, OnSignalingEvent, Announced, Returns, Execute, Step;
  }

  lemma EndIssued(sys: System, e: Event, id: int)
    ensures CountOf(Issued(sys, e), SetRow(id, Finish)) == if AsksForEnd(sys, e, id) then 1 else 0
  {
    hide R.Step, OnSignalingEvent, Announced, Returns, Execute, Step;
  }

  lemma FallbackIssued(sys: System, e: Event, id: int)
    ensures CountOf(Issued(sys, e), SetRow(id, FallBack)) == if AsksForFallback(sys, e, id) then 1 else 0
  {
    hide R.Step, OnSignalingEvent, Announced, Returns, Execute, Step;
  }

  /** In every run each update of a session is issued exactly as often as it is asked for: its activation when
      its own agent connects, its end on request or with its relay entry, its fallback after a failure. */
  lemma {:induction false} UpdatesAreAskedFor(es: seq<Event>, id: int, change: Change)
    ensures IssuedCount(es, SetRow(id, change)) == AskedCount(es, id, change)
  {
    if es != [] {
      hide Step, Issued, CountOf, OwnerConnects, AsksForEnd, AsksForFallback;
      UpdatesAreAskedFor(es[..|es| - 1], id, change);
      ActivationIssued(Run(es[..|es| - 1]), es[|es| - 1], id);
      EndIssued(Run(es[..|es| - 1]), es[|es| - 1], id);
      FallbackIssued(Run(es[..|es| - 1]), es[|es| - 1], id);
    }
  }

  // ---------------------------------------------------------------- the rows

  /** The change of a row that a statement makes, if any. */
  function RowChange(st: Statement): seq<Action> {
    match st
    case NewRow(agentId, requestedBy, transport) => [Insert(agentId, requestedBy, transport)]
    case SetRow(id, change) => [Touch(id, change)]
    case AddJob(_, _) => []
  }

  function LandedNow(sys: System, e: Event): seq<Action> {
    if e.Lands? && e.k < |sys.inFlight| then RowChange(sys.inFlight[e.k]) else []
  }

  /** The changes of rows that have landed, in the order in which they did. */
  function LandedRows(es: seq<Event>): seq<Action> {
    if es == [] then [] else LandedRows(es[..|es| - 1]) + LandedNow(Run(es[..|es| - 1]), es[|es| - 1])
  }

  lemma StepMakesTheRows(sys: System, e: Event, t: Table)
    requires t.rows == sys.table.rows
    ensures Step(sys, e).table.rows == ApplyAll(t, LandedNow(sys, e)).rows
  {
    hide R.Step, LookedUp, Following, Returns, Issued, OnSignalingEvent, Announced, Without, Changed;
    var changes := LandedNow(sys, e);
    if changes != [] {
      assert changes[..|changes| - 1] == [];
      assert ApplyAll(t, []) == t;
    }
  }

  lemma ApplyAllGrows(t: Table, actions: seq<Action>, more: seq<Action>)
    requires |more| <= 1
    ensures ApplyAll(t, actions + more) == ApplyAll(ApplyAll(t, actions), more)
  {
    if more == [] {
      assert actions + more == actions;
    } else {
      assert (actions + more)[..|actions|] == actions && more[..0] == [];
      assert ApplyAll(ApplyAll(t, actions), []) == ApplyAll(t, actions);
    }
  }

  /** The rows are the outcome of the row changes that landed, so what holds of every sequence of updates
      holds in every run of the system. */
  lemma {:induction false} RowsAreWhatLanded(es: seq<Event>)
    ensures Run(es).table.rows == ApplyAll(Table([], []), LandedRows(es)).rows
  {
    if es != [] {
      var front, e := es[..|es| - 1], es[|es| - 1];
      RowsAreWhatLanded(front);
      hide ApplyAll, Step;
      StepMakesTheRows(Run(front), e, ApplyAll(Table([], []), LandedRows(front)));
      ApplyAllGrows(Table([], []), LandedRows(front), LandedNow(Run(front), e));
    }
  }

  ghost predicate RowEnded(sys: System, id: int) {
    Has(sys.table, id) && sys.table.rows[id - 1].status.Ended?
  }

  /** Rows stay, keep their owner, and once ended keep everything; only a landing end ends one. */
  lemma StepKeepsRows(sys: System, e: Event, id: int)
    requires Has(sys.table, id)
    ensures Has(Step(sys, e).table, id)
    ensures Step(sys, e).table.rows[id - 1].agentId == sys.table.rows[id - 1].agentId
    ensures Step(sys, e).table.rows[id - 1].requestedBy == sys.table.rows[id - 1].requestedBy
    ensures RowEnded(sys, id) ==> Step(sys, e).table.rows[id - 1] == sys.table.rows[id - 1]
    ensures RowEnded(Step(sys, e), id) <==> RowEnded(sys, id) || LandsNow(sys, e, SetRow(id, Finish))
  {
    hide R.Step, Issued, LookedUp, OnSignalingEvent, Announced, Returns;
  }

  /** A session that has ended never changes again, whatever is in flight, attached or asked for. */
  lemma {:induction false} EndedForGood(es: seq<Event>, k: nat, id: int)
    requires k <= |es| && RowEnded(Run(es[..k]), id)
    ensures RowEnded(Run(es), id) && Run(es).table.rows[id - 1] == Run(es[..k]).table.rows[id - 1]
  {
    if k < |es| {
      hide Step;
      var front := es[..|es| - 1];
      assert front[..k] == es[..k];
      EndedForGood(front, k, id);
      StepKeepsRows(Run(front), es[|es| - 1], id);
    } else {
      assert es[..k] == es;
    }
  }

  // ------------------------------------------------- only stored sessions

  /** Relay entries are made, and rows updated, only for stored sessions. */
  ghost predicate OnlyStored(sys: System) {
    && (forall s :: s in sys.relay.sessions ==> Has(sys.table, s))
    && (forall st :: st in sys.inFlight && st.SetRow? ==> Has(sys.table, st.id))
    && (forall st :: st in sys.inFlight && st.AddJob? ==> Has(sys.table, st.job.session))
  }

  /** A relay step makes an entry only for a stored session, and finalises one only with its update. */
  lemma RelayEntries(t: Table, r: R.Relay, e: R.Event, id: int)
    ensures var after := R.Step(r, LookedUp(t, e));
      && (id in after.sessions && id !in r.sessions ==> Has(t, id))
      && (id in r.sessions ==>
            || (id in after.sessions && after.sessions[id].timer == r.sessions[id].timer)
            || Updates(r, LookedUp(t, e)) == [SetRow(id, Finish)])
  {
  }

  lemma IssuedForStored(sys: System, e: Event, st: Statement)
    requires OnlyStored(sys) && st in Issued(sys, e)
    ensures st.SetRow? ==> Has(sys.table, st.id)
    ensures st.AddJob? ==> Has(Step(sys, e).table, st.job.session)
  {
    hide R.Step, OnSignalingEvent, Announced, Returns;
  }

  lemma NothingNew(sys: System, e: Event, st: Statement)
    requires st in Step(sys, e).inFlight
    ensures st in sys.inFlight || st in Issued(sys, e)
  {
    hide R.Step, OnSignalingEvent, Announced, Returns, Issued, Execute, LookedUp;
  }

  lemma StepOnlyStored(sys: System, e: Event)
    requires OnlyStored(sys)
    ensures OnlyStored(Step(sys, e))
  {
    var after := Step(sys, e);
    hide R.Step, OnSignalingEvent, Announced, Returns, Issued, Execute, LookedUp;
    forall s | s in after.relay.sessions
      ensures Has(after.table, s)
    {
      StoredEntry(sys, e, s);
    }
    hide Step;
    forall st | st in after.inFlight && (st.SetRow? || st.AddJob?)
      ensures st.SetRow? ==> Has(after.table, st.id)
      ensures st.AddJob? ==> Has(after.table, st.job.session)
    {
      NothingNew(sys, e, st);
      var id := if st.SetRow? then st.id else st.job.session;
      if st in Issued(sys, e) {
        IssuedForStored(sys, e, st);
      }
      if Has(sys.table, id) {
        StepKeepsRows(sys, e, id);
      }
    }
  }

  lemma StoredEntry(sys: System, e: Event, s: int)
    requires OnlyStored(sys) && s in Step(sys, e).relay.sessions
    ensures Has(Step(sys, e).table, s)
  {
    if e.OnRelay? {
      RelayEntries(sys.table, sys.relay, e.event, s);
    }
    hide R.Step, OnSignalingEvent, Announced, Returns, Issued, LookedUp;
    if Has(sys.table, s) {
      StepKeepsRows(sys, e, s);
    }
  }

  lemma {:induction false} EveryRunOnlyStored(es: seq<Event>)
    ensures OnlyStored(Run(es))
  {
    if es != [] {
      hide Step, OnlyStored;
      EveryRunOnlyStored(es[..|es| - 1]);
      StepOnlyStored(Run(es[..|es| - 1]), es[|es| - 1]);
    } else {
      assert OnlyStored(Initial);
    }
  }

  /** Signaling sockets belong to stored sessions. */
  ghost predicate SocketsStored(sys: System) {
    forall v :: 0 <= v < |sys.signaling.sockets| ==> Has(sys.table, sys.signaling.sockets[v].session)
  }

  lemma SocketsOf(t: Table, r: R.Relay, e: R.Event, v: nat)
    requires v < |R.Step(r, LookedUp(t, e)).sockets|
    ensures var after := R.Step(r, LookedUp(t, e));
      if v < |r.sockets| then after.sockets[v].session == r.sockets[v].session else Has(t, after.sockets[v].session)
  {
  }

  lemma SocketsAnnounced(r: R.Relay, id: int)
    ensures R.SameSeats(r.sockets, Announced(r, id).sockets)
  {
  }

  lemma StepSocketsStored(sys: System, e: Event)
    requires SocketsStored(sys)
    ensures SocketsStored(Step(sys, e))
  {
    var after := Step(sys, e);
    forall v | 0 <= v < |after.signaling.sockets|
      ensures Has(after.table, after.signaling.sockets[v].session)
    {
      SocketOrigin(sys, e, v);
      hide Step;
      StepKeepsRows(sys, e, after.signaling.sockets[v].session);
    }
  }

  lemma SocketOrigin(sys: System, e: Event, v: nat)
    requires SocketsStored(sys) && v < |Step(sys, e).signaling.sockets|
    ensures Has(sys.table, Step(sys, e).signaling.sockets[v].session)
  {
    hide R.Step, Announced, Issued, Execute, Returns, LookedUp;
    if Step(sys, e).signaling == sys.signaling {
    } else if e.OnSignaling? {
      SocketsOf(sys.table, sys.signaling, e.event, v);
    } else if e.Notifies? && e.k < |sys.notices| {
      SocketsAnnounced(sys.signaling, sys.notices[e.k]);
    }
  }

  lemma {:induction false} EveryRunSocketsStored(es: seq<Event>)
    ensures SocketsStored(Run(es))
  {
    if es != [] {
      hide Step, SocketsStored;
      EveryRunSocketsStored(es[..|es| - 1]);
      StepSocketsStored(Run(es[..|es| - 1]), es[|es| - 1]);
    } else {
      assert SocketsStored(Initial);
    }
  }

  // ---------------------------------------------------------- ends of sessions

  /** The end of this session has been stored, or is on its way. */
  ghost predicate Ending(sys: System, id: int) {
    RowEnded(sys, id) || SetRow(id, Finish) in sys.inFlight
  }

  lemma {:induction false} EndedWhenLanded(es: seq<Event>, id: int)
    ensures RowEnded(Run(es), id) <==> LandedCount(es, SetRow(id, Finish)) > 0
  {
    if es != [] {
      var front, e := es[..|es| - 1], es[|es| - 1];
      EndedWhenLanded(front, id);
      EveryRunOnlyStored(front);
      var sys := Run(front);
      if Has(sys.table, id) {
        hide Step;
        StepKeepsRows(sys, e, id);
      } else {
        NewRowsHaveNotEnded(sys, e, id);
      }
    }
  }

  lemma NewRowsHaveNotEnded(sys: System, e: Event, id: int)
    requires OnlyStored(sys) && !Has(sys.table, id)
    ensures !RowEnded(Step(sys, e), id) && !LandsNow(sys, e, SetRow(id, Finish))
  {
    hide R.Step, OnSignalingEvent, Announced, Returns, Issued, LookedUp;
  }

  /** A session has ended, or its end is on its way, if and only if not every end update issued for it failed. */
  lemma EndingExactlyWhen(es: seq<Event>, id: int)
    ensures Ending(Run(es), id) <==> FailedCount(es, SetRow(id, Finish)) < IssuedCount(es, SetRow(id, Finish))
  {
    hide Run, Issued, IssuedCount, LandedCount, FailedCount;
    StatementsAreConserved(es, SetRow(id, Finish));
    EndedWhenLanded(es, id);
  }

  ghost predicate SameEntry(a: System, b: System, id: int) {
    id in a.relay.sessions && id in b.relay.sessions && a.relay.sessions[id].timer == b.relay.sessions[id].timer
  }

  lemma GoneMeansIssued(sys: System, e: Event, id: int)
    requires id in sys.relay.sessions
    ensures SameEntry(sys, Step(sys, e), id) || CountOf(Issued(sys, e), SetRow(id, Finish)) > 0
  {
    hide R.Step, OnSignalingEvent, Announced, Returns, Execute, LookedUp, Updates;
    if e.OnRelay? {
      RelayEntries(sys.table, sys.relay, e.event, id);
    }
  }

  lemma {:induction false} GoneEntryIssuedAnEnd(es: seq<Event>, k: nat, id: int)
    requires k <= |es| && id in Run(es[..k]).relay.sessions
    ensures SameEntry(Run(es[..k]), Run(es), id) || IssuedCount(es, SetRow(id, Finish)) > 0
  {
    if k < |es| {
      hide Step, Issued, CountOf;
      var front, e := es[..|es| - 1], es[|es| - 1];
      assert front[..k] == es[..k];
      GoneEntryIssuedAnEnd(front, k, id);
      if SameEntry(Run(es[..k]), Run(front), id) {
        GoneMeansIssued(Run(front), e, id);
      }
    } else {
      assert es[..k] == es;
    }
  }

  /** Once an entry of a session has been finalised, by whichever side or by the timer, an end update has been
      issued for the session; and the session has ended, or is about to, exactly unless all of them failed. */
  lemma FinalisedEntryEndsItsSession(es: seq<Event>, k: nat, id: int)
    requires k <= |es| && id in Run(es[..k]).relay.sessions && !SameEntry(Run(es[..k]), Run(es), id)
    ensures IssuedCount(es, SetRow(id, Finish)) > 0
    ensures Ending(Run(es), id) <==> FailedCount(es, SetRow(id, Finish)) < IssuedCount(es, SetRow(id, Finish))
  {
    GoneEntryIssuedAnEnd(es, k, id);
    EndingExactlyWhen(es, id);
  }

  /** This event asks for the end of the session: by request, or by finalising its relay entry. */
  ghost predicate AsksEnd(sys: System, e: Event, id: int) {
    e == EndRequest(id) || (e.OnRelay? && id in sys.relay.sessions && id !in Step(sys, e).relay.sessions)
  }

  ghost predicate EndAsked(es: seq<Event>, id: int) {
    es != [] && (EndAsked(es[..|es| - 1], id) || AsksEnd(Run(es[..|es| - 1]), es[|es| - 1], id))
  }

  lemma FinishIsAsked(sys: System, e: Event, id: int)
    requires CountOf(Issued(sys, e), SetRow(id, Finish)) > 0
    ensures AsksEnd(sys, e, id)
  {
    hide OnSignalingEvent, Announced, Returns, Execute;
  }

  lemma {:induction false} IssuedEndsAreAsked(es: seq<Event>, id: int)
    requires IssuedCount(es, SetRow(id, Finish)) > 0
    ensures EndAsked(es, id)
  {
    hide Step, Issued, CountOf, AsksEnd;
    var front, e := es[..|es| - 1], es[|es| - 1];
    if CountOf(Issued(Run(front), e), SetRow(id, Finish)) > 0 {
      FinishIsAsked(Run(front), e, id);
    } else {
      IssuedEndsAreAsked(front, id);
    }
  }

  /** Nothing but an end request or a finalised relay entry ends a session: no fallback, attachment,
      failed job or signaling event does. */
  lemma EndedOnlyWhenAsked(es: seq<Event>, id: int)
    requires Ending(Run(es), id)
    ensures EndAsked(es, id)
  {
    EndingExactlyWhen(es, id);
    IssuedEndsAreAsked(es, id);
  }

  /** A viewer comes and goes, and the update that should end the session fails: the entry is finalised,
      the session neither ended nor about to. */
  lemma FinalisedWithoutEnd()
    ensures var opening := [] + [Start(7, 1, Rfb)] + [Lands(0)] + [OnRelay(R.ViewerConnects(1, true, true))];
      var failed := opening + [OnRelay(R.SocketGone(0))] + [Fails(1)];
      && 1 in Run(opening).relay.sessions && 1 !in Run(failed).relay.sessions
      && !Ending(Run(failed), 1)
  {
    hide Step, Ending;
    var e0, e2, e3 := Start(7, 1, Rfb), OnRelay(R.ViewerConnects(1, true, true)), OnRelay(R.SocketGone(0));
    RunOne([], e0);
    RunOne([] + [e0], Lands(0));
    RunOne([] + [e0] + [Lands(0)], e2);
    RunOne([] + [e0] + [Lands(0)] + [e2], e3);
    RunOne([] + [e0] + [Lands(0)] + [e2] + [e3], Fails(1));
    ViewerComesAndGoes();
  }

  lemma ViewerComes(sys: System)
    requires Has(sys.table, 1) && sys.relay == R.Empty
    ensures var b := Step(sys, OnRelay(R.ViewerConnects(1, true, true)));
      && 1 in b.relay.sessions && |b.relay.sockets| == 1 && b.relay.sockets[0].session == 1
      && b.inFlight == sys.inFlight && b.table == sys.table
  {
  }

  lemma ViewerGone(b: System, job: Statement)
    requires 1 in b.relay.sessions && b.inFlight == [job] && |b.relay.sockets| == 1 && b.relay.sockets[0].session == 1
    ensures var c := Step(b, OnRelay(R.SocketGone(0)));
      1 !in c.relay.sessions && c.inFlight == [job, SetRow(1, Finish)] && c.table == b.table
  {
  }

  lemma ViewerComesAndGoes()
    ensures var a := Step(Step(Initial, Start(7, 1, Rfb)), Lands(0));
      var b := Step(a, OnRelay(R.ViewerConnects(1, true, true)));
      var c := Step(Step(b, OnRelay(R.SocketGone(0))), Fails(1));
      1 in b.relay.sessions && 1 !in c.relay.sessions && !Ending(c, 1)
  {
    var job := AddJob(BridgeJob(7, StartVncBridge, 1, 1), false);
    hide R.Step, R.CloseSession, R.Attach, LookedUp, Updates, OnSignalingEvent, Announced;
    var a := Step(Step(Initial, Start(7, 1, Rfb)), Lands(0));
    assert a.inFlight == [job] && a.table.rows == [Session(7, 1, Pending, Rfb)];
    ViewerComes(a);
    var b := Step(a, OnRelay(R.ViewerConnects(1, true, true)));
    ViewerGone(b, job);
    var c := Step(b, OnRelay(R.SocketGone(0)));
    hide Issued;
    assert Step(c, Fails(1)).inFlight == [job];
  }
}
