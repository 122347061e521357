/**
  The stored screen-control sessions (backend/repositories/vncSessions.repo.js:3-58) and the services
  over them (backend/services/vncSessions.service.js:14-100). Session ids count up from 1.
 */
module VncSessions {
  import opened Common

  datatype Status = Pending | Active | Ended

  datatype Transport = Webrtc | Rfb

  datatype Session = Session(agentId: int, requestedBy: int, status: Status, transport: Transport)

  datatype Command = StartWebrtcBridge | StartVncBridge

  datatype BridgeJob = BridgeJob(agentId: int, command: Command, session: int, createdBy: int)

  datatype Table = Table(rows: seq<Session>, jobs: seq<BridgeJob>)

  datatype Change = Activate | Finish | FallBack

  datatype Action = Insert(agentId: int, requestedBy: int, transport: Transport) | Touch(id: int, change: Change)

  // ------------------------------------------------------------- the updates

  /** The three guarded UPDATE statements, on one row. */
  function Changed(row: Session, change: Change): Session {
    match change
    case Activate => if row.status.Pending? then row.(status := Active) else row
    case Finish => if !row.status.Ended? then row.(status := Ended) else row
    case FallBack => if !row.status.Ended? then row.(transport := Rfb, status := Pending) else row
  }

  function BridgeFor(transport: Transport): Command {
    if transport.Webrtc? then StartWebrtcBridge else StartVncBridge
  }

  predicate Has(t: Table, id: int) {
    1 <= id <= |t.rows|
  }

  /** A new session brings its first bridge job, and every fallback on a stored session one more. */
  function Apply(t: Table, a: Action): Table {
    match a
    case Insert(agentId, requestedBy, transport) =>
      Table(t.rows + [Session(agentId, requestedBy, Pending, transport)],
            t.jobs + [BridgeJob(agentId, BridgeFor(transport), |t.rows| + 1, requestedBy)])
    case Touch(id, change) =>
      if Has(t, id) then
        var row := t.rows[id - 1];
        Table(t.rows[id - 1 := Changed(row, change)],
              if change.FallBack? then t.jobs + [BridgeJob(row.agentId, StartVncBridge, id, row.requestedBy)]
              else t.jobs)
      else t
  }

  function ApplyAll(t: Table, actions: seq<Action>): Table {
    if actions == [] then t else Apply(ApplyAll(t, actions[..|actions| - 1]), actions[|actions| - 1])
  }

  // ---------------------------------------------------- one row over all runs

  /** The changes asked of one session, in order. */
  function ChangesTo(actions: seq<Action>, id: int): seq<Change> {
    if actions == [] then []
    else
      var front, last := ChangesTo(actions[..|actions| - 1], id), actions[|actions| - 1];
      if last.Touch? && last.id == id then front + [last.change] else front
  }

  function ChangedBy(row: Session, changes: seq<Change>): Session {
    if changes == [] then row else Changed(ChangedBy(row, changes[..|changes| - 1]), changes[|changes| - 1])
  }

  function Before(changes: seq<Change>, change: Change): seq<Change> {
    if changes == [] || changes[0] == change then [] else [changes[0]] + Before(changes[1..], change)
  }

  lemma ChangedByGrows(row: Session, changes: seq<Change>, change: Change)
    ensures ChangedBy(row, changes + [change]) == Changed(ChangedBy(row, changes), change)
  {
    assert (changes + [change])[..|changes|] == changes;
  }

  lemma OneActionsRow(t: Table, a: Action, id: int)
    requires Has(t, id)
    ensures Has(Apply(t, a), id)
    ensures Apply(t, a).rows[id - 1] ==
            if a.Touch? && a.id == id then Changed(t.rows[id - 1], a.change) else t.rows[id - 1]
  {
  }

  /** A row is the outcome of its own changes alone, whatever happens to the other sessions. */
  lemma {:induction false} RowsAreIndependent(t: Table, actions: seq<Action>, id: int)
    requires Has(t, id)
    ensures Has(ApplyAll(t, actions), id)
    ensures ApplyAll(t, actions).rows[id - 1] == ChangedBy(t.rows[id - 1], ChangesTo(actions, id))
  {
    hide Apply;
    if actions != [] {
      hide Changed;
      var front, last := actions[..|actions| - 1], actions[|actions| - 1];
      RowsAreIndependent(t, front, id);
      OneActionsRow(ApplyAll(t, front), last, id);
      if last.Touch? {
        ChangedByGrows(t.rows[id - 1], ChangesTo(front, id), last.change);
      }
    }
  }

  /** Some Activate comes after the last FallBack. */
  predicate AttachedSince(changes: seq<Change>) {
    changes != [] && !changes[|changes| - 1].FallBack? &&
    (changes[|changes| - 1].Activate? || AttachedSince(changes[..|changes| - 1]))
  }

  lemma MembershipGrows(front: seq<Change>, last: Change, change: Change)
    ensures change in front + [last] <==> change in front || change == last
  {
  }

  /** A session has ended exactly when an end was asked; the transport only moves from WebRTC to RFB, and
      does so exactly when a fallback comes before the first end. */
  lemma {:induction false} EndAndTransport(row: Session, changes: seq<Change>)
    requires !row.status.Ended?
    ensures var r := ChangedBy(row, changes);
      && r.agentId == row.agentId && r.requestedBy == row.requestedBy
      && (r.status.Ended? <==> Finish in changes)
      && (r.transport.Rfb? <==> row.transport.Rfb? || FallBack in Before(changes, Finish))
  {
    if changes != [] {
      hide Before, ChangedBy;
      var front, last := changes[..|changes| - 1], changes[|changes| - 1];
      assert changes == front + [last];
      EndAndTransport(row, front);
      BeforeGrows(front, last, Finish);
      ChangedByGrows(row, front, last);
      MembershipGrows(front, last, Finish);
      MembershipGrows(Before(front, Finish), last, FallBack);
    }
  }

  /** A session that has not ended is active exactly when its agent has attached since its last fallback. */
  lemma {:induction false} ActiveExactlyWhenAttached(row: Session, changes: seq<Change>)
    requires !row.status.Ended? && Finish !in changes
    ensures ChangedBy(row, changes).status.Active? <==>
            if FallBack in changes then AttachedSince(changes) else row.status.Active? || Activate in changes
  {
    if changes != [] {
      hide ChangedBy;
      var front, last := changes[..|changes| - 1], changes[|changes| - 1];
      assert changes == front + [last];
      EndAndTransport(row, front);
      ActiveExactlyWhenAttached(row, front);
      ChangedByGrows(row, front, last);
      MembershipGrows(front, last, FallBack);
      MembershipGrows(front, last, Activate);
    }
  }

  lemma {:induction false} BeforeGrows(front: seq<Change>, last: Change, change: Change)
    ensures Before(front + [last], change) ==
            if change in front || last == change then Before(front, change) else Before(front, change) + [last]
  {
    if front != [] {
      assert (front + [last])[1..] == front[1..] + [last];
      BeforeGrows(front[1..], last, change);
      assert front == [front[0]] + front[1..];
    }
  }

  /** No sequence of attach, fallback and end events changes a session that has ended. */
  lemma {:induction false} EndedIsAbsorbing(t: Table, actions: seq<Action>, id: int)
    requires Has(t, id) && t.rows[id - 1].status.Ended?
    ensures Has(ApplyAll(t, actions), id) && ApplyAll(t, actions).rows[id - 1] == t.rows[id - 1]
  {
    if actions != [] {
      EndedIsAbsorbing(t, actions[..|actions| - 1], id);
    }
  }

  // --------------------------------------------------------- the bridge jobs

  function JobsOf(jobs: seq<BridgeJob>, id: int, command: Command): nat {
    if jobs == [] then 0
    else JobsOf(jobs[..|jobs| - 1], id, command) +
         if jobs[|jobs| - 1].session == id && jobs[|jobs| - 1].command == command then 1 else 0
  }

  function Count(changes: seq<Change>, change: Change): nat {
    if changes == [] then 0
    else Count(changes[..|changes| - 1], change) + if changes[|changes| - 1] == change then 1 else 0
  }

  lemma JobsOfGrows(jobs: seq<BridgeJob>, job: BridgeJob, id: int, command: Command)
    ensures JobsOf(jobs + [job], id, command) ==
            JobsOf(jobs, id, command) + if job.session == id && job.command == command then 1 else 0
  {
    assert (jobs + [job])[..|jobs|] == jobs;
  }

  lemma OneActionsJobs(t: Table, a: Action, id: int, command: Command)
    requires Has(t, id)
    ensures JobsOf(Apply(t, a).jobs, id, command) ==
            JobsOf(t.jobs, id, command) + if command.StartVncBridge? && a == Touch(id, FallBack) then 1 else 0
  {
    hide JobsOf;
    if |Apply(t, a).jobs| > |t.jobs| {
      JobsOfGrows(t.jobs, Apply(t, a).jobs[|t.jobs|], id, command);
    }
  }

  lemma CountGrows(actions: seq<Action>, last: Action, id: int, change: Change)
    ensures Count(ChangesTo(actions + [last], id), change) ==
            Count(ChangesTo(actions, id), change) + if last == Touch(id, change) then 1 else 0
  {
    assert (actions + [last])[..|actions|] == actions;
    var changes := ChangesTo(actions, id);
    if last.Touch? {
      assert (changes + [last.change])[..|changes|] == changes;
    }
  }

  /** Every fallback asked of a stored session starts one more RFB bridge, whether or not the row still
      changes: also the second one, and also one after the session has ended. */
  lemma {:induction false} EveryFallbackStartsABridge(t: Table, actions: seq<Action>, id: int)
    requires Has(t, id)
    ensures JobsOf(ApplyAll(t, actions).jobs, id, StartVncBridge) ==
            JobsOf(t.jobs, id, StartVncBridge) + Count(ChangesTo(actions, id), FallBack)
    ensures JobsOf(ApplyAll(t, actions).jobs, id, StartWebrtcBridge) == JobsOf(t.jobs, id, StartWebrtcBridge)
  {
    if actions != [] {
      hide JobsOf, Apply;
      var front, last := actions[..|actions| - 1], actions[|actions| - 1];
      assert actions == front + [last];
      EveryFallbackStartsABridge(t, front, id);
      RowsAreIndependent(t, front, id);
      OneActionsJobs(ApplyAll(t, front), last, id, StartVncBridge);
      OneActionsJobs(ApplyAll(t, front), last, id, StartWebrtcBridge);
      CountGrows(front, last, id, FallBack);
    }
  }

  /** Jobs are only made for sessions that are stored. */
  ghost predicate JobsKnown(t: Table) {
    forall i :: 0 <= i < |t.jobs| ==> Has(t, t.jobs[i].session)
  }

  lemma {:induction false} AllJobsKnown(actions: seq<Action>)
    ensures JobsKnown(ApplyAll(Table([], []), actions))
  {
    if actions != [] {
      AllJobsKnown(actions[..|actions| - 1]);
    }
  }

  lemma {:induction false} NoJobsYet(jobs: seq<BridgeJob>, id: int, command: Command)
    requires forall i :: 0 <= i < |jobs| ==> jobs[i].session != id
    ensures JobsOf(jobs, id, command) == 0
  {
    if jobs != [] {
      NoJobsYet(jobs[..|jobs| - 1], id, command);
    }
  }

  /** Over the whole life of a session: one bridge of the kind it was started with, and one RFB bridge for
      each fallback, whatever happens to other sessions in between. */
  lemma BridgesOfASession(before: seq<Action>, agentId: int, requestedBy: int, transport: Transport, after: seq<Action>)
    ensures var t := ApplyAll(Table([], []), before);
      var id := |t.rows| + 1;
      var end := ApplyAll(Apply(t, Insert(agentId, requestedBy, transport)), after);
      && JobsOf(end.jobs, id, StartWebrtcBridge) == (if transport.Webrtc? then 1 else 0)
      && JobsOf(end.jobs, id, StartVncBridge) ==
           (if transport.Rfb? then 1 else 0) + Count(ChangesTo(after, id), FallBack)
  {
    hide ApplyAll, JobsOf;
    var t := ApplyAll(Table([], []), before);
    var id := |t.rows| + 1;
    AllJobsKnown(before);
    NoJobsYet(t.jobs, id, StartWebrtcBridge);
    NoJobsYet(t.jobs, id, StartVncBridge);
    var job := BridgeJob(agentId, BridgeFor(transport), id, requestedBy);
    JobsOfGrows(t.jobs, job, id, StartWebrtcBridge);
    JobsOfGrows(t.jobs, job, id, StartVncBridge);
    EveryFallbackStartsABridge(Apply(t, Insert(agentId, requestedBy, transport)), after, id);
  }

  /** Falling back any number of times in a row leaves the row that the first fallback left, and one
      RFB bridge job for each call. */
  lemma {:induction false} RepeatedFallback(t: Table, id: int, times: nat)
    requires Has(t, id) && times > 0
    ensures var calls := seq(times, i => Touch(id, FallBack));
      && ApplyAll(t, calls).rows == Apply(t, Touch(id, FallBack)).rows
      && |ApplyAll(t, calls).jobs| == |t.jobs| + times
  {
    var calls := seq(times, i => Touch(id, FallBack));
    assert calls[..times - 1] == seq(times - 1, i => Touch(id, FallBack));
    if times > 1 {
      RepeatedFallback(t, id, times - 1);
    } else {
      assert calls[..0] == [];
    }
  }

  // ------------------------------------------------------------- the services

  datatype FallbackOutcome = Stored | UpdateFails | InsertFails

  /** What the service leaves, run to its end or to the statement that fails. */
  function FallenBack(t: Table, id: int, outcome: FallbackOutcome): Table {
    match outcome
    case Stored => Apply(t, Touch(id, FallBack))
    case UpdateFails => t
    case InsertFails => t.(rows := Apply(t, Touch(id, FallBack)).rows)
  }

  datatype RemoteAgent = RemoteAgent(active: bool, webrtcCapable: bool)

  class SessionStore {
    var rows: seq<Session>
    var jobs: seq<BridgeJob>

    ghost function Contents(): Table reads this {
      Table(rows, jobs)
    }

    method StartVncSession(
      vncEnabled: bool, webrtcEnabled: bool, agents: map<int, RemoteAgent>, agentId: int, requestedBy: int)
      returns (r: Result<int>)
      modifies this
      ensures r.Ok? <==> vncEnabled && agentId in agents && agents[agentId].active
      ensures r == Err(Forbidden) <==> !vncEnabled
      ensures r == Err(NotFound) <==> vncEnabled && agentId !in agents
      ensures r.Ok? ==> r.value == |rows|
      ensures r.Ok? ==>
                Contents() == Apply(old(Contents()), Insert(agentId, requestedBy,
                                    if webrtcEnabled && agents[agentId].webrtcCapable then Webrtc else Rfb))
      ensures r.Ok? ==>
                var transport := if webrtcEnabled && agents[agentId].webrtcCapable then Webrtc else Rfb;
                && rows == old(rows) + [Session(agentId, requestedBy, Pending, transport)]
                && jobs ==
                     old(jobs) + [BridgeJob(agentId, if transport.Webrtc? then StartWebrtcBridge else StartVncBridge,
                                                  r.value, requestedBy)]
      ensures r.Err? ==> Contents() == old(Contents())
    {
      if !vncEnabled {
        return Err(Forbidden);
      }
      if agentId !in agents {
        return Err(NotFound);
      }
      if !agents[agentId].active {
        return Err(BadRequest);
      }
      var transport := if webrtcEnabled && agents[agentId].webrtcCapable then Webrtc else Rfb;
      rows := rows + [Session(agentId, requestedBy, Pending, transport)];
      var command := if transport == Webrtc then StartWebrtcBridge else StartVncBridge;
      jobs := jobs + [BridgeJob(agentId, command, |rows|, requestedBy)];
      return Ok(|rows|);
    }

    method Update(id: int, change: Change)
      requires 1 <= id <= |rows|
      modifies this`rows
      ensures rows == old(rows)[id - 1 := Changed(old(rows)[id - 1], change)]
    {
      var row := rows[id - 1];
      match change {
        case Activate => if row.status == Pending { rows := rows[id - 1 := row.(status := Active)]; }
        case Finish => if row.status != Ended { rows := rows[id - 1 := row.(status := Ended)]; }
        case FallBack => if row.status != Ended { rows := rows[id - 1 := row.(transport := Rfb, status := Pending)]; }
      }
    }

    method EndVncSession(id: int) returns (r: Result<Session>)
      modifies this
      ensures Contents() == Apply(old(Contents()), Touch(id, Finish))
      ensures r == if 1 <= id <= |rows| then Ok(rows[id - 1]) else Err(NotFound)
      ensures rows == if 1 <= id <= |old(rows)| then old(rows)[id - 1 := old(rows)[id - 1].(status := Ended)]
                      else old(rows)
      ensures jobs == old(jobs)
    {
      if id < 1 || id > |rows| {
        return Err(NotFound);
      }
      Update(id, Finish);
      return Ok(rows[id - 1]);
    }

    /** `outcome` says which statement fails, if any; a failing SELECT is like a failing UPDATE. */
    method FallbackVncSessionToRfb(id: int, outcome: FallbackOutcome) returns (r: Option<Session>, throws: bool)
      modifies this
      ensures Contents() == FallenBack(old(Contents()), id, outcome)
      ensures throws <==> 1 <= id <= |rows| && !outcome.Stored?
      ensures r == if 1 <= id <= |rows| && !throws then Some(rows[id - 1]) else None
      ensures rows == if 1 <= id <= |old(rows)| && !outcome.UpdateFails? && old(rows)[id - 1].status != Ended
                      then old(rows)[id - 1 := old(rows)[id - 1].(transport := Rfb, status := Pending)]
                      else old(rows)
      ensures jobs == if 1 <= id <= |old(rows)| && outcome.Stored?
                      then old(jobs) + [BridgeJob(old(rows)[id - 1].agentId, StartVncBridge, id,
                                                  old(rows)[id - 1].requestedBy)]
                      else old(jobs)
    {
      if id < 1 || id > |rows| {
        return None, false;
      }
      var session := rows[id - 1];
      if outcome == UpdateFails {
        return None, true;
      }
      Update(id, FallBack);
      if outcome == InsertFails {
        return None, true;
      }
      jobs := jobs + [BridgeJob(session.agentId, StartVncBridge, id, session.requestedBy)];
      return Some(rows[id - 1]), false;
    }
  }
}
