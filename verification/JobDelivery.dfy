/**
  At-most-once. In every run a job is executed at most once. While no two polls of one agent are inside
  the server at once, it is also listed by one poll only and gets at most one accepted result, and a lost
  reply is never repeated.
 */
module JobDelivery {
  import opened Common
  import opened AgentJobs
  import opened JobProtocol

  // ------------------------------------------------------------- every run

  ghost predicate OneAgentPerJob(s: State) {
    forall p, q, id :: 0 <= p < |s.polls| && 0 <= q < |s.polls| && id in s.polls[p].ids && id in s.polls[q].ids ==>
                         s.polls[p].agent == s.polls[q].agent
  }

  ghost predicate AnsweredIsNotPending(s: State) {
    forall a, id :: id in s.table && HandedOut(s, a, id) ==> !s.table[id].status.Pending?
  }

  ghost predicate Ran(s: State, job: nat) {
    exists i :: 0 <= i < |s.executed| && s.executed[i].1 == job
  }

  ghost predicate ExecutedOnce(s: State) {
    forall i, j :: 0 <= i < j < |s.executed| ==> s.executed[i].1 != s.executed[j].1
  }

  /** Nothing an agent still has to run, or may still receive, has been run before. */
  ghost predicate WorkIsNew(s: State) {
    forall a :: a in s.agents ==>
      match s.agents[a]
      case Idle => true
      case Waiting(p) => p < |s.polls| ==> forall id :: id in s.polls[p].ids ==> !Ran(s, id)
      case Busy(todo) => forall id :: id in todo ==> !Ran(s, id)
  }

  ghost predicate WorkOnce(s: State) {
    Sound(s) && OneAgentPerJob(s) && AnsweredIsNotPending(s) && ExecutedOnce(s) && WorkIsNew(s)
  }

  lemma StepOneAgentPerJob(s: State, e: Event)
    requires WorkOnce(s)
    ensures OneAgentPerJob(Step(s, e))
  {
    if (e.Serve? || e.Read?) && CanRead(s, e.poll, e.ids) {
      forall q, id | 0 <= q < |s.polls| && id in s.polls[q].ids && id in e.ids
        ensures s.polls[q].agent == s.polls[e.poll].agent
      {
        assert ListingFits(s, s.polls[q]);
        assert PendingFor(s.table, s.polls[e.poll].agent, id);
      }
    }
  }

  lemma StepAnsweredIsNotPending(s: State, e: Event)
    requires WorkOnce(s)
    ensures AnsweredIsNotPending(Step(s, e))
  {
    hide Step;
    var t := Step(s, e);
    forall a, id | id in t.table && HandedOut(t, a, id) ensures !t.table[id].status.Pending? {
      var p :| 0 <= p < |t.polls| && t.polls[p].stage.Replied? && t.polls[p].agent == a && id in t.polls[p].ids;
      AnswerMarks(s, e, p);
      if s.polls[p] == t.polls[p] {
        assert ListingFits(s, s.polls[p]);
        assert HandedOut(s, a, id);
        if id in s.table {
          NeverPendingAgain(s, e, id);
        } else {
          DeletedStaysDeleted(s, e, id);
        }
      }
    }
  }

  lemma OneExecutor(s: State, a: int, b: int, id: nat)
    requires OneAgentPerJob(s) && HandedOut(s, a, id) && HandedOut(s, b, id)
    ensures a == b
  {
  }

  lemma OneExecutorOf(s: State, a: int, id: nat)
    requires OneAgentPerJob(s) && HandedOut(s, a, id)
    ensures forall b :: HandedOut(s, b, id) ==> b == a
  {
  }

  lemma StepExecutedOnce(s: State, e: Event)
    requires WorkOnce(s)
    ensures ExecutedOnce(Step(s, e)) && WorkIsNew(Step(s, e))
  {
    var t := Step(s, e);
    if e.Execute? && t != s {
      var todo := s.agents[e.agent].todo;
      assert !Ran(s, todo[0]);
      forall id | Ran(t, id) && id != todo[0] ensures Ran(s, id) {
        var i :| 0 <= i < |t.executed| && t.executed[i].1 == id;
        assert s.executed[i].1 == id;
      }
      assert HandedOut(s, e.agent, todo[0]);
      forall b | b in s.agents && b != e.agent && s.agents[b].Busy? ensures todo[0] !in s.agents[b].todo {
        if todo[0] in s.agents[b].todo {
          OneExecutor(s, e.agent, b, todo[0]);
        }
      }
    } else if !e.Execute? {
      StepWorkIsNew(s, e);
    }
  }

  /** A pending job cannot have run. */
  lemma PendingIsNew(s: State, agent: int, id: nat)
    requires WorkOnce(s) && PendingFor(s.table, agent, id)
    ensures !Ran(s, id)
  {
    forall i | 0 <= i < |s.executed| ensures s.executed[i].1 != id {
      assert HandedOut(s, s.executed[i].0, s.executed[i].1);
    }
  }

  /** What the agent may do after an event that runs no job. */
  lemma PhaseAfter(s: State, e: Event, a: int)
    requires !e.Execute?
    ensures var t := Step(s, e);
      && t.executed == s.executed
      && (|| PhaseOf(t, a) == PhaseOf(s, a)
          || PhaseOf(t, a).Idle?
          || (PhaseOf(t, a) == Waiting(|s.polls|) && t.polls == s.polls + [Poll(a, Requested, [])])
          || (e.Deliver? && PhaseOf(s, a) == Waiting(e.poll) && e.poll < |s.polls| &&
              PhaseOf(t, a) == Busy(s.polls[e.poll].ids)))
  {
    hide MarkAll, CancelBatch, WithoutAgent, CompleteOne, CancelOne;
  }

  lemma StepWorkIsNew(s: State, e: Event)
    requires WorkOnce(s) && !e.Execute?
    ensures ExecutedOnce(Step(s, e)) && WorkIsNew(Step(s, e))
  {
    hide PollsFit, AgentsFit, HistoryFits, OutcomesFit, OneAgentPerJob, AnsweredIsNotPending, MarkAll, CancelBatch;
    var t := Step(s, e);
    assert t.executed == s.executed;
    NotRunStays(s, t);
    if e.Serve? || e.Read? {
      if CanRead(s, e.poll, e.ids) {
        forall id | id in e.ids ensures !Ran(t, id) {
          assert PendingFor(s.table, s.polls[e.poll].agent, id);
          PendingIsNew(s, s.polls[e.poll].agent, id);
        }
      }
    } else {
      StepPhases(s, e);
    }
  }

  lemma NotRunStays(s: State, t: State)
    requires t.executed == s.executed
    ensures forall id :: Ran(t, id) <==> Ran(s, id)
  {
  }

  lemma ListingsStay(s: State, e: Event)
    requires !e.Serve? && !e.Read?
    ensures |s.polls| <= |Step(s, e).polls|
    ensures forall p :: 0 <= p < |s.polls| ==> Step(s, e).polls[p].ids == s.polls[p].ids
    ensures !e.Execute? ==> Step(s, e).executed == s.executed
  {
    hide MarkAll, CancelBatch, WithoutAgent, CompleteOne, CancelOne;
  }

  /** An agent that waits, waits for one of its own polls that exist. */
  lemma WaitsForAPoll(s: State, a: int)
    requires AgentsFit(s) && a in s.agents && s.agents[a].Waiting?
    ensures s.agents[a].poll < |s.polls|
  {
  }

  lemma StepPhases(s: State, e: Event)
    requires WorkOnce(s) && !e.Execute? && !e.Serve? && !e.Read?
    ensures WorkIsNew(Step(s, e))
  {
    ListingsStay(s, e);
    var t := Step(s, e);
    NotRunStays(s, t);
    hide Step, Ran, OneAgentPerJob, AnsweredIsNotPending, ExecutedOnce, PollsFit, HistoryFits, OutcomesFit, HandedOut;
    forall a | a in t.agents
      ensures t.agents[a].Waiting? && t.agents[a].poll < |t.polls| ==>
                forall id :: id in t.polls[t.agents[a].poll].ids ==> !Ran(t, id)
      ensures t.agents[a].Busy? ==> forall id :: id in t.agents[a].todo ==> !Ran(t, id)
    {
      PhaseAfter(s, e, a);
      if t.agents[a] == PhaseOf(s, a) && t.agents[a].Waiting? {
        WaitsForAPoll(s, a);
      }
    }
  }

  /** In every run, with polls split or not, lost or late, every job is executed at most once. */
  lemma {:induction false} EveryJobRunsAtMostOnce(es: seq<Event>)
    ensures WorkOnce(Run(Init, es))
  {
    if es != [] {
      var front := es[..|es| - 1];
      var s, e := Run(Init, front), es[|es| - 1];
      EveryJobRunsAtMostOnce(front);
      EveryRunIsSound(es);
      StepOneAgentPerJob(s, e);
      StepAnsweredIsNotPending(s, e);
      StepExecutedOnce(s, e);
    }
  }

  // ------------------------------------------------ one poll at a time

  /** A listing is made only when no other poll of that agent sits between its SELECT and its UPDATE. */
  ghost predicate Alone(s: State, e: Event) {
    match e
    case Read(p, _) => AloneInServer(s, p)
    case Serve(p, _, _) => AloneInServer(s, p)
    case _ => true
  }

  ghost predicate AloneInServer(s: State, p: nat) {
    p < |s.polls| ==>
      forall q :: 0 <= q < |s.polls| && s.polls[q].agent == s.polls[p].agent ==> !s.polls[q].stage.Reading?
  }

  ghost predicate OnePollAtATime(s: State, es: seq<Event>) {
    es == [] ||
    (OnePollAtATime(s, es[..|es| - 1]) && Alone(Run(s, es[..|es| - 1]), es[|es| - 1]))
  }

  ghost predicate ListedOnce(s: State) {
    forall p, q, id :: 0 <= p < q < |s.polls| && id in s.polls[p].ids ==> id !in s.polls[q].ids
  }

  ghost predicate AcceptedOnce(s: State) {
    && (forall i, j :: 0 <= i < j < |s.accepted| ==> s.accepted[i].job != s.accepted[j].job)
    && (forall i :: 0 <= i < |s.accepted| && s.accepted[i].job in s.table ==>
        s.table[s.accepted[i].job].status.Terminal())
  }

  ghost predicate AtMostOnce(s: State) {
    WorkOnce(s) && ListedOnce(s) && AcceptedOnce(s)
  }

  /** A job that was answered or is being read belongs to one poll only. */
  lemma OneHolder(s: State, p: nat, q: nat, id: nat)
    requires ListedOnce(s) && p < |s.polls| && q < |s.polls| && id in s.polls[p].ids && id in s.polls[q].ids
    ensures p == q
  {
  }

  lemma StepListedOnce(s: State, e: Event)
    requires AtMostOnce(s) && Alone(s, e)
    ensures ListedOnce(Step(s, e))
  {
    var t := Step(s, e);
    if (e.Serve? || e.Read?) && CanRead(s, e.poll, e.ids) {
      forall q, id | 0 <= q < |s.polls| && q != e.poll && id in e.ids
        ensures id !in s.polls[q].ids
      {
        assert PendingFor(s.table, s.polls[e.poll].agent, id);
        if id in s.polls[q].ids {
          assert ListingFits(s, s.polls[q]);
          assert HandedOut(s, s.polls[q].agent, id);
        }
      }
    }
  }

  /** A result is accepted only by the UPDATE of a checked report that finds the row sent. */
  lemma AcceptedGrows(s: State, e: Event)
    ensures var t := Step(s, e);
      if e.Write? && e.report in s.checked && e.report.job in s.table && s.table[e.report.job].status.Sent?
      then t.accepted == s.accepted + [e.report] && e.report.job in t.table && t.table[e.report.job].status.Terminal()
      else t.accepted == s.accepted
  {
  }

  lemma StepAcceptedOnce(s: State, e: Event)
    requires AtMostOnce(s)
    ensures AcceptedOnce(Step(s, e))
  {
    var t := Step(s, e);
    AcceptedGrows(s, e);
    hide Step, WorkOnce, ListedOnce;
    forall i | 0 <= i < |t.accepted| && t.accepted[i].job in t.table
      ensures t.table[t.accepted[i].job].status.Terminal()
    {
      if i < |s.accepted| {
        AcceptedRowIsSafe(s, e, i);
      }
    }
  }

  /** The row of an accepted result is out of reach of every later poll. */
  lemma AcceptedRowIsSafe(s: State, e: Event, i: nat)
    requires AtMostOnce(s) && i < |s.accepted|
    ensures s.accepted[i].job in Step(s, e).table ==> Step(s, e).table[s.accepted[i].job].status.Terminal()
  {
    var r := s.accepted[i];
    var p := AcceptedWasAnswered(s, i);
    hide Step, WorkOnce;
    if r.job in Step(s, e).table {
      RowComesFrom(s, e, r.job);
      if e.Mark? && e.poll < |s.polls| && r.job in s.polls[e.poll].ids {
        OneHolder(s, p, e.poll, r.job);
      }
    }
  }

  lemma AcceptedWasAnswered(s: State, i: nat) returns (p: nat)
    requires Sound(s) && i < |s.accepted|
    ensures p < |s.polls| && s.polls[p].stage.Replied? && s.accepted[i].job in s.polls[p].ids &&
            s.accepted[i].job < s.nextId
  {
    hide AgentsFit, OutcomesFit;
    var r := s.accepted[i];
    assert (r.agent, r.job) in s.executed;
    var k :| 0 <= k < |s.executed| && s.executed[k] == (r.agent, r.job);
    assert HandedOut(s, s.executed[k].0, s.executed[k].1);
    p :| 0 <= p < |s.polls| && s.polls[p].stage.Replied? && s.polls[p].agent == r.agent && r.job in s.polls[p].ids;
    assert ListingFits(s, s.polls[p]);
  }

  /** With one poll of an agent in the server at a time, no job is listed twice, executed twice,
      or given two results, whatever is lost, repeated or cancelled on the way. */
  lemma {:induction false} NothingHappensTwice(es: seq<Event>)
    requires OnePollAtATime(Init, es)
    ensures AtMostOnce(Run(Init, es))
  {
    if es != [] {
      var front := es[..|es| - 1];
      var s, e := Run(Init, front), es[|es| - 1];
      NothingHappensTwice(front);
      EveryJobRunsAtMostOnce(es);
      StepListedOnce(s, e);
      StepAcceptedOnce(s, e);
    }
  }

  /** Serving polls in one step is one way to keep them apart. */
  lemma {:induction false} OneStepPollsAreApart(es: seq<Event>)
    requires forall i :: 0 <= i < |es| ==> !es[i].Read? && !es[i].Mark?
    ensures OnePollAtATime(Init, es)
    ensures forall p :: 0 <= p < |Run(Init, es).polls| ==> !Run(Init, es).polls[p].stage.Reading?
  {
    if es != [] {
      var front, e := es[..|es| - 1], es[|es| - 1];
      OneStepPollsAreApart(front);
      hide Step;
      forall p | 0 <= p < |Run(Init, es).polls| ensures !Run(Init, es).polls[p].stage.Reading? {
        if Run(Init, es).polls[p].stage.Reading? {
          ReadingComesFromRead(Run(Init, front), e, p);
        }
      }
    }
  }

  /** A finished job was answered to, executed by and reported by its own agent. */
  lemma FinishedByItsOwnAgent(es: seq<Event>, job: nat)
    requires job in Run(Init, es).table
    requires Run(Init, es).table[job].status.Completed? || Run(Init, es).table[job].status.Failed?
    ensures var s := Run(Init, es); var agent := s.table[job].agentId;
      && HandedOut(s, agent, job)
      && (agent, job) in s.executed
      && exists r :: r in s.accepted && r in s.reports && r.agent == agent && r.job == job &&
                     (s.table[job].status.Failed? <==>
                      r.result.success == Some(false) ||
                      (r.result.success.None? && r.result.exitCode.Some? && r.result.exitCode.value != 0))
  {
    EveryRunIsSound(es);
    var s := Run(Init, es);
    var i :| 0 <= i < |s.accepted| && s.accepted[i].job == job && s.accepted[i].agent == s.table[job].agentId &&
             Verdict(s.accepted[i].result) == s.table[job].status;
    var r := s.accepted[i];
    assert r in s.accepted && (r.agent, r.job) in s.executed;
    var k :| 0 <= k < |s.executed| && s.executed[k] == (r.agent, r.job);
    assert HandedOut(s, s.executed[k].0, s.executed[k].1);
  }

  // ------------------------------------------------------------ lost reply

  /** The job's reply was sent, but its agent neither waits for it, nor has it queued, nor ran it. */
  ghost predicate ReplyLost(s: State, p: nat, job: nat) {
    && p < |s.polls| && s.polls[p].stage.Replied? && job in s.polls[p].ids
    && PhaseOf(s, s.polls[p].agent) != Waiting(p)
    && (PhaseOf(s, s.polls[p].agent).Busy? ==> job !in PhaseOf(s, s.polls[p].agent).todo)
    && !Ran(s, job)
  }

  lemma StepReplyLost(s: State, e: Event, p: nat, job: nat)
    requires AtMostOnce(s) && ReplyLost(s, p, job)
    ensures ReplyLost(Step(s, e), p, job)
  {
    var t := Step(s, e);
    PollsOnlyAdvance(s, e);
    var agent := s.polls[p].agent;
    assert HandedOut(s, agent, job);
    if e.Execute? {
      ExecutionLeavesItLost(s, e, p, job);
    } else {
      hide AcceptedOnce, WorkOnce;
      PhaseAfter(s, e, agent);
      if e.Deliver? && e.poll < |s.polls| && job in s.polls[e.poll].ids {
        OneHolder(s, p, e.poll, job);
      }
      hide Step, ListedOnce, HandedOut;
      NotRunStays(s, t);
    }
  }

  lemma ExecutionLeavesItLost(s: State, e: Event, p: nat, job: nat)
    requires WorkOnce(s) && ReplyLost(s, p, job) && e.Execute?
    ensures ReplyLost(Step(s, e), p, job)
  {
    var t := Step(s, e);
    var agent := s.polls[p].agent;
    assert HandedOut(s, agent, job);
    if t != s {
      var ran := s.agents[e.agent].todo[0];
      assert HandedOut(s, e.agent, ran);
      OneExecutorOf(s, agent, job);
      assert ran != job;
      hide WorkOnce, HandedOut;
    }
  }

  /** Only an execution can lead to an accepted result. */
  lemma FinishedMeansRan(s: State, job: nat)
    requires Sound(s) && job in s.table
    requires s.table[job].status.Completed? || s.table[job].status.Failed?
    ensures Ran(s, job)
  {
    var i :| 0 <= i < |s.accepted| && s.accepted[i].job == job && s.accepted[i].agent == s.table[job].agentId &&
             Verdict(s.accepted[i].result) == s.table[job].status;
    assert (s.accepted[i].agent, job) in s.executed;
  }

  /** Once a reply is lost its jobs are never listed, delivered or executed again: whatever happens
      later, such a row stays sent until somebody cancels or deletes it. */
  lemma {:induction false} LostReplyIsNeverRepeated(before: seq<Event>, after: seq<Event>, p: nat, job: nat)
    requires OnePollAtATime(Init, before + after)
    requires ReplyLost(Run(Init, before), p, job)
    ensures var s := Run(Init, before + after);
      && ReplyLost(s, p, job)
      && (job in s.table ==> s.table[job].status.Sent? || s.table[job].status.Cancelled?)
      && (forall q :: 0 <= q < |s.polls| && q != p ==> job !in s.polls[q].ids)
  {
    NothingHappensTwice(before + after);
    if after == [] {
      assert before + after == before;
    } else {
      var front, e := after[..|after| - 1], after[|after| - 1];
      assert (before + after)[..|before + after| - 1] == before + front;
      LostReplyIsNeverRepeated(before, front, p, job);
      NothingHappensTwice(before + front);
      StepReplyLost(Run(Init, before + front), e, p, job);
    }
    var s := Run(Init, before + after);
    if job in s.table {
      assert HandedOut(s, s.polls[p].agent, job);
      if s.table[job].status.Completed? || s.table[job].status.Failed? {
        FinishedMeansRan(s, job);
      }
    }
  }
}
