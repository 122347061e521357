/**
  The remote-command protocol as a state machine: the table agent_jobs, polls on their way through
  the server, the agents' foreach loops, results on the wire, and the administrator.
  A poll is either served in one step (Serve) or, as the source really does it
  (agentJobs.service.js:142-150), in two: a SELECT (Read) and a later UPDATE without a status guard (Mark).
  An event that is not enabled leaves the state as it is, so a run is just a sequence of events.
 */
module JobProtocol {
  import opened Common
  import opened AgentJobs

  datatype Stage = Requested | Reading | Replied

  /** One GET of the agent; `ids` is the server's listing once it has been read. */
  datatype Poll = Poll(agent: int, stage: Stage, ids: seq<nat>)

  /** Where an agent's loop is: between polls, waiting for one poll, or inside the foreach. */
  datatype Phase = Idle | Waiting(poll: nat) | Busy(todo: seq<nat>)

  datatype Report = Report(agent: int, job: nat, result: JobResult)

  datatype State = State(
    table: Table,
    nextId: nat,
    polls: seq<Poll>,
    agents: map<int, Phase>,
    executed: seq<(int, nat)>,
    reports: set<Report>,
    checked: set<Report>,
    accepted: seq<Report>)

  datatype Event =
    | Create(agent: int, batch: Option<string>, commandType: string, sessionId: Option<int>, now: int)
    | AdminCancel(job: nat, now: int)
    | AdminCancelBatch(batchId: string, now: int)
    | AdminClear(agent: int)
    | Ask(agent: int)                            // the agent sends a GET
    | GiveUp(agent: int)                         // reply lost, request timed out, or service restarted
    | Serve(poll: nat, ids: seq<nat>, now: int)  // SELECT and UPDATE as one step
    | Read(poll: nat, ids: seq<nat>)             // the SELECT alone
    | Mark(poll: nat, now: int)                  // the UPDATE of an earlier SELECT
    | Deliver(poll: nat)
    | Execute(agent: int, result: JobResult)     // runs the next job of the reply and sends its result
    | Done(agent: int)
    | Check(report: Report)                      // submitJobResultService up to its two guards
    | Write(report: Report, now: int)            // its guarded UPDATE; a report may arrive any number of times

  const Init := State(map[], 0, [], map[], [], {}, {}, [])

  function PhaseOf(s: State, agent: int): Phase {
    if agent in s.agents then s.agents[agent] else Idle
  }

  ghost predicate CanRead(s: State, p: nat, ids: seq<nat>) {
    p < |s.polls| && s.polls[p].stage.Requested? && IsPendingListing(s.table, s.polls[p].agent, ids)
  }

  ghost function Step(s: State, e: Event): State {
    match e
    case Create(agent, batch, commandType, sessionId, now) =>
      s.(table := s.table[s.nextId := NewRow(agent, batch, commandType, sessionId, now)], nextId := s.nextId + 1)
    case AdminCancel(job, now) => s.(table := CancelOne(s.table, job, now))
    case AdminCancelBatch(batchId, now) => s.(table := CancelBatch(s.table, batchId, now))
    case AdminClear(agent) => s.(table := WithoutAgent(s.table, agent))
    case Ask(agent) =>
      if PhaseOf(s, agent).Idle?
      then s.(polls := s.polls + [Poll(agent, Requested, [])], agents := s.agents[agent := Waiting(|s.polls|)])
      else s
    case GiveUp(agent) => s.(agents := s.agents[agent := Idle])
    case Serve(p, ids, now) =>
      if CanRead(s, p, ids)
      then s.(polls := s.polls[p := Poll(s.polls[p].agent, Replied, ids)], table := MarkAll(s.table, ids, now))
      else s
    case Read(p, ids) =>
      if CanRead(s, p, ids) then s.(polls := s.polls[p := Poll(s.polls[p].agent, Reading, ids)]) else s
    case Mark(p, now) =>
      if p < |s.polls| && s.polls[p].stage.Reading?
      then s.(polls := s.polls[p := s.polls[p].(stage := Replied)], table := MarkAll(s.table, s.polls[p].ids, now))
      else s
    case Deliver(p) =>
      if p < |s.polls| && s.polls[p].stage.Replied? && PhaseOf(s, s.polls[p].agent) == Waiting(p)
      then s.(agents := s.agents[s.polls[p].agent := Busy(s.polls[p].ids)])
      else s
    case Execute(agent, result) =>
      (match PhaseOf(s, agent)
       case Busy(todo) =>
         if todo == [] then s
         else s.(agents := s.agents[agent := Busy(todo[1..])],
                 executed := s.executed + [(agent, todo[0])],
                 reports := s.reports + {Report(agent, todo[0], result)})
       case _ => s)
    case Done(agent) =>
      if PhaseOf(s, agent) == Busy([]) then s.(agents := s.agents[agent := Idle]) else s
    case Check(r) =>
      if r in s.reports && r.job in s.table && s.table[r.job].agentId == r.agent && s.table[r.job].status.Sent?
      then s.(checked := s.checked + {r})
      else s
    case Write(r, now) =>
      if r !in s.checked then s
      else if r.job in s.table && s.table[r.job].status.Sent?
      then s.(checked := s.checked - {r}, table := CompleteOne(s.table, r.job, r.result, now),
              accepted := s.accepted + [r])
      else s.(checked := s.checked - {r})
  }

  ghost function Run(s: State, es: seq<Event>): State {
    if es == [] then s else Step(Run(s, es[..|es| - 1]), es[|es| - 1])
  }

  // ------------------------------------------- the steps against the services

  /** A poll served in one step is its SELECT followed at once by its UPDATE. */
  lemma ServeIsReadThenMark(s: State, p: nat, ids: seq<nat>, now: int)
    requires CanRead(s, p, ids)
    ensures Step(Step(s, Read(p, ids)), Mark(p, now)) == Step(s, Serve(p, ids, now))
  {
    hide IsPendingListing, MarkAll;
    var read := Step(s, Read(p, ids));
    assert read.polls[p := Poll(s.polls[p].agent, Replied, ids)] == s.polls[p := Poll(s.polls[p].agent, Replied, ids)];
  }

  /** A report whose two steps follow each other at once is taken exactly as the service takes it: if its agent
      owns the job and the row is sent. */
  lemma SubmitIsCheckThenWrite(s: State, r: Report, now: int)
    requires r in s.reports && r !in s.checked
    ensures var after := Step(Step(s, Check(r)), Write(r, now));
      if r.job in s.table && s.table[r.job].agentId == r.agent && s.table[r.job].status.Sent?
      then && after.accepted == s.accepted + [r]
           && r.job in after.table && Reported(s.table[r.job], after.table[r.job], r.result, now)
           && after.table == s.table[r.job := after.table[r.job]]
      else after.accepted == s.accepted && after.table == s.table
  {
  }

  /** The administrator's steps do what the services do, and an agent is done with a reply exactly when it has
      nothing left to run. */
  lemma OtherStepsMean(s: State, e: Event)
    ensures var t := Step(s, e);
      && (e.Create? ==>
            && t.table == s.table[s.nextId := Job(e.agent, e.batch, e.commandType, e.sessionId, e.now, Pending,
                                                  None, None, None, None, None, None)]
            && t.nextId == s.nextId + 1)
      && (e.AdminClear? ==>
            && (forall id :: id in t.table <==> id in s.table && s.table[id].agentId != e.agent)
            && (forall id :: id in t.table ==> t.table[id] == s.table[id]))
      && (e.AdminCancel? || e.AdminCancelBatch? ==>
            && t.table.Keys == s.table.Keys
            && forall id :: id in s.table ==>
                 var meant := if e.AdminCancel? then id == e.job else s.table[id].batchId == Some(e.batchId);
                 t.table[id] == if meant && !s.table[id].status.Terminal()
                                then s.table[id].(status := Cancelled, completedAt := Some(e.now),
                                                  errorOutput := Some(CANCEL_NOTE))
                                else s.table[id])
      && (e.Done? ==>
            PhaseOf(t, e.agent) == if PhaseOf(s, e.agent) == Busy([]) then Idle else PhaseOf(s, e.agent))
  {
  }

  // ---------------------------------------------------------- every run

  /** Poll p has been answered with this job among its ids. */
  ghost predicate HandedOut(s: State, agent: int, job: nat) {
    exists p :: 0 <= p < |s.polls| && s.polls[p].stage.Replied? && s.polls[p].agent == agent && job in s.polls[p].ids
  }

  /** A poll lists jobs of its own agent, each once, and nothing before it has been read. */
  ghost predicate ListingFits(s: State, poll: Poll) {
    && NoDuplicates(poll.ids)
    && (poll.stage.Requested? ==> poll.ids == [])
    && forall id :: id in poll.ids ==> id < s.nextId && (id in s.table ==> s.table[id].agentId == poll.agent)
  }

  ghost predicate PollsFit(s: State) {
    && (forall id :: id in s.table ==> id < s.nextId)
    && (forall p :: 0 <= p < |s.polls| ==> ListingFits(s, s.polls[p]))
  }

  ghost predicate AgentsFit(s: State) {
    forall a :: a in s.agents ==>
      match s.agents[a]
      case Idle => true
      case Waiting(p) => p < |s.polls| && s.polls[p].agent == a
      case Busy(todo) => NoDuplicates(todo) && forall id :: id in todo ==> HandedOut(s, a, id)
  }

  ghost predicate HistoryFits(s: State) {
    && (forall i :: 0 <= i < |s.executed| ==> HandedOut(s, s.executed[i].0, s.executed[i].1))
    && (forall r :: r in s.reports ==> (r.agent, r.job) in s.executed)
    && s.checked <= s.reports
    && (forall i :: 0 <= i < |s.accepted| ==> s.accepted[i] in s.reports)
  }

  /** Some accepted result of the job's own agent gave the row this status. */
  ghost predicate Explained(s: State, id: nat)
    requires id in s.table
  {
    exists i :: 0 <= i < |s.accepted| && s.accepted[i].job == id && s.accepted[i].agent == s.table[id].agentId &&
                Verdict(s.accepted[i].result) == s.table[id].status
  }

  ghost predicate OutcomesFit(s: State) {
    forall id :: id in s.table ==>
      && (s.table[id].status.Sent? ==> HandedOut(s, s.table[id].agentId, id))
      && (s.table[id].status.Completed? || s.table[id].status.Failed? ==> Explained(s, id))
  }

  ghost predicate Sound(s: State) {
    PollsFit(s) && AgentsFit(s) && HistoryFits(s) && OutcomesFit(s)
  }

  /** Polls are never forgotten, an answered poll never changes, and a listing is never altered. */
  lemma PollsOnlyAdvance(s: State, e: Event)
    ensures |s.polls| <= |Step(s, e).polls|
    ensures forall p :: 0 <= p < |s.polls| ==>
              && Step(s, e).polls[p].agent == s.polls[p].agent
              && (s.polls[p].stage.Replied? ==> Step(s, e).polls[p] == s.polls[p])
              && (!s.polls[p].stage.Requested? ==> Step(s, e).polls[p].ids == s.polls[p].ids)
    ensures forall a, id :: HandedOut(s, a, id) ==> HandedOut(Step(s, e), a, id)
  {
    var t := Step(s, e);
    forall a, id | HandedOut(s, a, id) ensures HandedOut(t, a, id) {
      var p :| 0 <= p < |s.polls| && s.polls[p].stage.Replied? && s.polls[p].agent == a && id in s.polls[p].ids;
      assert t.polls[p] == s.polls[p];
    }
  }

  /** A poll can only be between its halves because of its Read, and keeps that listing. */
  lemma ReadingComesFromRead(s: State, e: Event, p: nat)
    requires p < |Step(s, e).polls| && Step(s, e).polls[p].stage.Reading?
    ensures || (p < |s.polls| && s.polls[p] == Step(s, e).polls[p])
            || (e.Read? && e.poll == p && CanRead(s, p, e.ids) && Step(s, e).polls[p].ids == e.ids)
  {
  }

  /** Answering a poll leaves none of its jobs pending. */
  lemma AnswerMarks(s: State, e: Event, p: nat)
    requires p < |Step(s, e).polls| && Step(s, e).polls[p].stage.Replied?
    ensures p < |s.polls|
    ensures || s.polls[p] == Step(s, e).polls[p]
            || forall id :: id in Step(s, e).polls[p].ids && id in Step(s, e).table ==>
                 Step(s, e).table[id].status.Sent?
  {
  }

  lemma NeverPendingAgain(s: State, e: Event, id: nat)
    requires id in s.table && id in Step(s, e).table && !s.table[id].status.Pending? && id < s.nextId
    ensures !Step(s, e).table[id].status.Pending?
  {
  }

  /** Ids are never reused: a row that is gone stays gone. */
  lemma DeletedStaysDeleted(s: State, e: Event, job: nat)
    requires job < s.nextId && job !in s.table
    ensures job < Step(s, e).nextId && job !in Step(s, e).table
  {
  }

  /** Where a row comes from: it was there, is new, was cancelled, was listed by the poll that is answered
      by this event, or gets the verdict of the result that is accepted by it. */
  lemma RowComesFrom(s: State, e: Event, id: nat)
    requires id in Step(s, e).table
    ensures var t := Step(s, e); var row := t.table[id];
      || (id in s.table && row == s.table[id])
      || (id == s.nextId && e.Create? && row.status.Pending?)
      || (id in s.table &&
          row == s.table[id].(status := row.status, completedAt := row.completedAt, errorOutput := row.errorOutput)
          && row.status.Cancelled?)
      || (id in s.table && (e.Serve? || e.Mark?) && e.poll < |s.polls| && e.poll < |t.polls|
          && row == s.table[id].(status := Sent, sentAt := row.sentAt)
          && t.polls[e.poll].stage.Replied? && t.polls[e.poll].agent == s.polls[e.poll].agent
          && id in t.polls[e.poll].ids
          && (e.Serve? ==> PendingFor(s.table, s.polls[e.poll].agent, id))
          && (e.Mark? ==> s.polls[e.poll].stage.Reading? && id in s.polls[e.poll].ids))
      || (id in s.table && e.Write? && e.report in s.checked && e.report.job == id && s.table[id].status.Sent?
          && row.agentId == s.table[id].agentId && row.status == Verdict(e.report.result)
          && t.accepted == s.accepted + [e.report])
  {
    hide NoDuplicates, Verdict;
  }

  lemma RowKeepsItsAgent(s: State, e: Event, id: nat)
    requires id in Step(s, e).table && (id in s.table ==> id < s.nextId)
    ensures s.nextId <= Step(s, e).nextId
    ensures if id in s.table then Step(s, e).table[id].agentId == s.table[id].agentId
            else id == s.nextId && id < Step(s, e).nextId
  {
    hide NoDuplicates, Verdict;
  }

  /** Where a poll's listing comes from. */
  lemma PollComesFrom(s: State, e: Event, p: nat)
    requires p < |Step(s, e).polls|
    ensures var poll := Step(s, e).polls[p];
      || (p < |s.polls| && poll == s.polls[p].(stage := poll.stage) &&
          (poll.stage == s.polls[p].stage || poll.stage.Replied?))
      || (poll.stage.Requested? && poll.ids == [])
      || (p < |s.polls| && !poll.stage.Requested? && poll.agent == s.polls[p].agent &&
          IsPendingListing(s.table, poll.agent, poll.ids))
  {
    hide MarkAll, CancelBatch, WithoutAgent, CompleteOne, CancelOne;
  }

  lemma StepPollsFit(s: State, e: Event)
    requires PollsFit(s)
    ensures PollsFit(Step(s, e))
  {
    var t := Step(s, e);
    hide Step;
    forall id | id in t.table ensures id < t.nextId {
      RowKeepsItsAgent(s, e, id);
    }
    forall p | 0 <= p < |t.polls| ensures ListingFits(t, t.polls[p]) {
      PollComesFrom(s, e, p);
      if p < |s.polls| {
        assert ListingFits(s, s.polls[p]);
      }
      NextIdGrows(s, e);
      forall id | id in t.polls[p].ids
        ensures id < t.nextId && (id in t.table ==> t.table[id].agentId == t.polls[p].agent)
      {
        assert id < s.nextId && (id in s.table ==> s.table[id].agentId == t.polls[p].agent) by {
          if IsPendingListing(s.table, t.polls[p].agent, t.polls[p].ids) {
            assert PendingFor(s.table, t.polls[p].agent, id);
          }
        }
        if id in t.table {
          RowKeepsItsAgent(s, e, id);
        }
      }
    }
  }

  lemma NextIdGrows(s: State, e: Event)
    ensures s.nextId <= Step(s, e).nextId
  {
  }

  lemma StepAgentsFit(s: State, e: Event)
    requires PollsFit(s) && AgentsFit(s)
    ensures AgentsFit(Step(s, e))
  {
    PollsOnlyAdvance(s, e);
    var t := Step(s, e);
    if e.Deliver? && t != s {
      forall id | id in s.polls[e.poll].ids ensures HandedOut(t, s.polls[e.poll].agent, id) {
        assert t.polls[e.poll] == s.polls[e.poll];
      }
    }
  }

  lemma StepHistoryFits(s: State, e: Event)
    requires Sound(s)
    ensures HistoryFits(Step(s, e))
  {
    PollsOnlyAdvance(s, e);
  }

  lemma ExplainedStays(s: State, e: Event, id: nat)
    requires id in s.table && id in Step(s, e).table && Step(s, e).table[id] == s.table[id] && Explained(s, id)
    ensures Explained(Step(s, e), id)
  {
    var i :| 0 <= i < |s.accepted| && s.accepted[i].job == id && s.accepted[i].agent == s.table[id].agentId &&
             Verdict(s.accepted[i].result) == s.table[id].status;
    assert Step(s, e).accepted[i] == s.accepted[i];
  }

  /** Only the job's own agent can have a checked report of it. */
  lemma CheckedByItsOwnAgent(s: State, r: Report)
    requires Sound(s) && r in s.checked && r.job in s.table
    ensures s.table[r.job].agentId == r.agent
  {
    hide AgentsFit, OutcomesFit;
    assert (r.agent, r.job) in s.executed;
    var k :| 0 <= k < |s.executed| && s.executed[k] == (r.agent, r.job);
    assert HandedOut(s, s.executed[k].0, s.executed[k].1);
    var p :| 0 <= p < |s.polls| && s.polls[p].stage.Replied? && s.polls[p].agent == r.agent && r.job in s.polls[p].ids;
    assert ListingFits(s, s.polls[p]);
  }

  lemma StepOutcomesFit(s: State, e: Event)
    requires Sound(s)
    ensures OutcomesFit(Step(s, e))
  {
    PollsOnlyAdvance(s, e);
    var t := Step(s, e);
    forall id | id in t.table
      ensures t.table[id].status.Sent? ==> HandedOut(t, t.table[id].agentId, id)
      ensures t.table[id].status.Completed? || t.table[id].status.Failed? ==> Explained(t, id)
    {
      RowOutcomeFits(s, e, id);
    }
  }

  lemma RowOutcomeFits(s: State, e: Event, id: nat)
    requires Sound(s) && id in Step(s, e).table
    ensures var t := Step(s, e);
      && (t.table[id].status.Sent? ==> HandedOut(t, t.table[id].agentId, id))
      && (t.table[id].status.Completed? || t.table[id].status.Failed? ==> Explained(t, id))
  {
    PollsOnlyAdvance(s, e);
    RowComesFrom(s, e, id);
    var t := Step(s, e);
    if id in s.table && t.table[id] == s.table[id] {
      if s.table[id].status.Completed? || s.table[id].status.Failed? {
        ExplainedStays(s, e, id);
      }
    } else if e.Serve? || e.Mark? {
      hide Step, HistoryFits, AgentsFit, OutcomesFit;
      if id in s.table {
        assert ListingFits(s, s.polls[e.poll]);
      }
    } else if e.Write? {
      CheckedByItsOwnAgent(s, e.report);
      hide Step, HistoryFits, AgentsFit, OutcomesFit, PollsFit, HandedOut;
      assert t.accepted[|s.accepted|] == e.report;
    }
  }

  lemma {:induction false} EveryRunIsSound(es: seq<Event>)
    ensures Sound(Run(Init, es))
  {
    if es != [] {
      var front := es[..|es| - 1];
      EveryRunIsSound(front);
      var s, e := Run(Init, front), es[|es| - 1];
      StepPollsFit(s, e);
      StepAgentsFit(s, e);
      StepHistoryFits(s, e);
      StepOutcomesFit(s, e);
    }
  }
}
