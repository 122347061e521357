/**
  What holds over whole runs of the job protocol.
  Terminal rows: absorbing while polls are served in one step; with the real SELECT-then-UPDATE,
  left exactly when a cancellation or an accepted result falls between a poll's two halves.
 */
module JobRuns {
  import opened Common
  import opened AgentJobs
  import opened JobProtocol

  /** State before event k. */
  ghost function At(es: seq<Event>, k: nat): State
    requires k <= |es|
  {
    Run(Init, es[..k])
  }

  ghost predicate Finished(s: State, job: nat) {
    job in s.table && s.table[job].status.Terminal()
  }

  ghost predicate Active(s: State, job: nat) {
    job in s.table && !s.table[job].status.Terminal()
  }

  ghost predicate HasStatus(s: State, job: nat, status: Status) {
    job in s.table && s.table[job].status == status
  }

  /** Poll q, which lists the job, is answered by the step from s to t. */
  ghost predicate Answers(s: State, t: State, q: nat, job: nat) {
    && q < |s.polls| && q < |t.polls|
    && !s.polls[q].stage.Replied? && t.polls[q].stage.Replied? && job in t.polls[q].ids
  }

  /** Everything one event can do to one row that is there before and after. */
  ghost predicate RowMove(s: State, e: Event, t: State, job: nat)
    requires job in s.table && job in t.table
  {
    || t.table[job] == s.table[job]
    || (e.Serve? && HasStatus(s, job, Pending) && HasStatus(t, job, Sent) && Answers(s, t, e.poll, job))
    || (e.Mark? && HasStatus(t, job, Sent) && Answers(s, t, e.poll, job) && s.polls[e.poll].stage.Reading?)
    || (e.AdminCancel? && e.job == job && Active(s, job) && HasStatus(t, job, Cancelled))
    || (e.AdminCancelBatch? && s.table[job].batchId == Some(e.batchId) && Active(s, job) &&
        HasStatus(t, job, Cancelled))
    || (e.Write? && e.report.job == job && HasStatus(s, job, Sent) && Finished(t, job))
  }

  lemma EveryRowMove(s: State, e: Event, job: nat)
    requires Sound(s) && job in s.table && job in Step(s, e).table
    ensures RowMove(s, e, Step(s, e), job)
  {
    if e.Serve? && CanRead(s, e.poll, e.ids) {
      assert job in e.ids <==> PendingFor(s.table, s.polls[e.poll].agent, job);
    }
  }

  /** One event of a run, seen from one row. */
  lemma RunStep(es: seq<Event>, k: nat, job: nat)
    requires k < |es|
    ensures At(es, k + 1) == Step(At(es, k), es[k])
    ensures At(es, k).nextId <= At(es, k + 1).nextId
    ensures job in At(es, k).table ==> job < At(es, k).nextId
    ensures job in At(es, k).table && job in At(es, k + 1).table ==> RowMove(At(es, k), es[k], At(es, k + 1), job)
    ensures job < At(es, k).nextId && job !in At(es, k).table ==> job !in At(es, k + 1).table
  {
    assert es[..k + 1][..k] == es[..k];
    EveryRunIsSound(es[..k]);
    var s, e := At(es, k), es[k];
    if job in s.table {
      if job in Step(s, e).table {
        EveryRowMove(s, e, job);
      }
    } else if job < s.nextId {
      DeletedStaysDeleted(s, e, job);
    }
  }

  // ------------------------------------------------- terminal is absorbing

  predicate ServedInOneStep(es: seq<Event>) {
    forall i :: 0 <= i < |es| ==> !es[i].Read? && !es[i].Mark?
  }

  /** With polls as one atomic step, a completed, failed or cancelled row never changes again:
      from event `from` on it is the same row, or deleted for good. */
  lemma {:induction false} FinishedIsAbsorbing(es: seq<Event>, from: nat, job: nat)
    requires from <= |es| && ServedInOneStep(es[from..])
    requires Finished(At(es, from), job)
    ensures job in At(es, |es|).table ==> At(es, |es|).table[job] == At(es, from).table[job]
    decreases |es| - from
  {
    hide Step, Run;
    if from < |es| {
      RunStep(es, from, job);
      assert es[from] == es[from..][0];
      if job in At(es, from + 1).table {
        assert es[from + 1..] == es[from..][1..];
        FinishedIsAbsorbing(es, from + 1, job);
      } else {
        GoneForGood(es, from + 1, |es|, job);
      }
    }
  }

  lemma {:induction false} GoneForGood(es: seq<Event>, i: nat, k: nat, job: nat)
    requires i <= k <= |es| && job < At(es, i).nextId && job !in At(es, i).table
    ensures job !in At(es, k).table
    decreases k - i
  {
    hide Step, Run;
    if i < k {
      RunStep(es, i, job);
      GoneForGood(es, i + 1, k, job);
    }
  }

  // ------------------------------------------- the split poll, exactly when

  ghost predicate ReadAt(es: seq<Event>, i: nat, p: nat, job: nat) {
    i < |es| && es[i].Read? && es[i].poll == p && CanRead(At(es, i), p, es[i].ids) && job in es[i].ids
  }

  ghost predicate MarkedAt(es: seq<Event>, k: nat, p: nat) {
    k < |es| && es[k].Mark? && es[k].poll == p && p < |At(es, k).polls| && At(es, k).polls[p].stage.Reading?
  }

  /** Event m gives the row a terminal status. */
  ghost predicate FinishesAt(es: seq<Event>, m: nat, job: nat) {
    m < |es| && Active(At(es, m), job) && Finished(At(es, m + 1), job)
  }

  /** Event k takes the row out of a terminal status. */
  ghost predicate LeavesAt(es: seq<Event>, k: nat, job: nat) {
    k < |es| && Finished(At(es, k), job) && Active(At(es, k + 1), job)
  }

  /** The row is finished between the two halves of a poll that listed it. */
  ghost predicate FinishedInsidePoll(es: seq<Event>, p: nat, i: nat, m: nat, k: nat, job: nat) {
    && i < m < k < |es|
    && ReadAt(es, i, p, job) && FinishesAt(es, m, job) && MarkedAt(es, k, p)
    && job in At(es, k + 1).table
  }

  lemma StartsEmpty(es: seq<Event>)
    ensures At(es, 0) == Init
  {
  }

  lemma {:induction false} ListedBefore(es: seq<Event>, k: nat, p: nat, job: nat) returns (i: nat)
    requires k <= |es| && p < |At(es, k).polls| && At(es, k).polls[p].stage.Reading? && job in At(es, k).polls[p].ids
    ensures i < k && ReadAt(es, i, p, job)
    decreases k
  {
    hide Step, Run;
    StartsEmpty(es);
    RunStep(es, k - 1, job);
    ReadingComesFromRead(At(es, k - 1), es[k - 1], p);
    if p < |At(es, k - 1).polls| && At(es, k - 1).polls[p] == At(es, k).polls[p] {
      i := ListedBefore(es, k - 1, p, job);
    } else {
      i := k - 1;
    }
  }

  lemma {:induction false} ListingIsKept(es: seq<Event>, i: nat, k: nat, p: nat)
    requires i <= k <= |es| && p < |At(es, i).polls| && !At(es, i).polls[p].stage.Requested?
    ensures p < |At(es, k).polls| && At(es, k).polls[p].ids == At(es, i).polls[p].ids
    ensures !At(es, k).polls[p].stage.Requested?
    ensures At(es, i).polls[p].stage.Replied? ==> At(es, k).polls[p].stage.Replied?
    decreases k - i
  {
    hide Run;
    if i < k {
      RunStep(es, i, 0);
      PollsOnlyAdvance(At(es, i), es[i]);
      ListingIsKept(es, i + 1, k, p);
    }
  }

  lemma {:induction false} IdsGrow(es: seq<Event>, i: nat, k: nat)
    requires i <= k <= |es|
    ensures At(es, i).nextId <= At(es, k).nextId
    decreases k - i
  {
    hide Step, Run;
    if i < k {
      RunStep(es, i, 0);
      IdsGrow(es, i + 1, k);
    }
  }

  lemma StillThere(es: seq<Event>, i: nat, k: nat, job: nat)
    requires i <= k <= |es| && job < At(es, i).nextId && job in At(es, k).table
    ensures job in At(es, i).table
  {
    if job !in At(es, i).table {
      GoneForGood(es, i, k, job);
    }
  }

  lemma {:induction false} FinishesBetween(es: seq<Event>, i: nat, k: nat, job: nat) returns (m: nat)
    requires i <= k <= |es| && Active(At(es, i), job) && Finished(At(es, k), job)
    ensures i <= m < k && FinishesAt(es, m, job)
    decreases k - i
  {
    hide Step, Run;
    RunStep(es, i, job);
    StillThere(es, i + 1, k, job);
    if Finished(At(es, i + 1), job) {
      m := i;
    } else {
      m := FinishesBetween(es, i + 1, k, job);
    }
  }

  lemma {:induction false} LeavesBetween(es: seq<Event>, i: nat, k: nat, job: nat) returns (m: nat)
    requires i <= k <= |es| && Finished(At(es, i), job) && Active(At(es, k), job)
    ensures i <= m < k && LeavesAt(es, m, job)
    decreases k - i
  {
    hide Step, Run;
    RunStep(es, i, job);
    StillThere(es, i + 1, k, job);
    if Active(At(es, i + 1), job) {
      m := i;
    } else {
      m := LeavesBetween(es, i + 1, k, job);
    }
  }

  lemma LeavingIsFinishedInsidePoll(es: seq<Event>, k: nat, job: nat) returns (p: nat, i: nat, m: nat)
    requires LeavesAt(es, k, job)
    ensures FinishedInsidePoll(es, p, i, m, k, job)
  {
    hide Run;
    RunStep(es, k, job);
    p := es[k].poll;
    i := ListedBefore(es, k, p, job);
    RunStep(es, i, job);
    assert PendingFor(At(es, i).table, At(es, i).polls[p].agent, job);
    m := FinishesBetween(es, i, k, job);
  }

  lemma FinishedInsidePollLeaves(es: seq<Event>, p: nat, i: nat, m: nat, k: nat, job: nat)
    requires FinishedInsidePoll(es, p, i, m, k, job)
    ensures exists n :: LeavesAt(es, n, job)
  {
    hide Run;
    RunStep(es, i, job);
    ListingIsKept(es, i + 1, k, p);
    RunStep(es, m, job);
    RunStep(es, k, job);
    IdsGrow(es, m + 1, k);
    StillThere(es, k, k + 1, job);
    if Active(At(es, k), job) {
      var n := LeavesBetween(es, m + 1, k, job);
    } else {
      assert LeavesAt(es, k, job);
    }
  }

  /** A run takes a job out of a terminal status exactly when that job is finished
      between the SELECT and the UPDATE of a poll that listed it. */
  lemma TerminalIsLeftExactlyWhen(es: seq<Event>, job: nat)
    ensures (exists k :: LeavesAt(es, k, job)) <==> (exists p, i, m, k :: FinishedInsidePoll(es, p, i, m, k, job))
  {
    if k :| LeavesAt(es, k, job) {
      var p, i, m := LeavingIsFinishedInsidePoll(es, k, job);
    }
    if p, i, m, k :| FinishedInsidePoll(es, p, i, m, k, job) {
      FinishedInsidePollLeaves(es, p, i, m, k, job);
    }
  }

  ghost predicate AnsweredAt(es: seq<Event>, n: nat, q: nat, job: nat) {
    n < |es| && Answers(At(es, n), At(es, n + 1), q, job)
  }

  /** A row that is not sent at i and is at m was in an answer in between. */
  lemma {:induction false} AnsweredBetween(es: seq<Event>, i: nat, m: nat, job: nat) returns (n: nat, q: nat)
    requires i <= m <= |es| && job in At(es, i).table && !HasStatus(At(es, i), job, Sent) &&
             HasStatus(At(es, m), job, Sent)
    ensures i <= n < m && AnsweredAt(es, n, q, job)
    decreases m - i
  {
    hide Step, Run;
    RunStep(es, i, job);
    StillThere(es, i + 1, m, job);
    if HasStatus(At(es, i + 1), job, Sent) {
      n, q := i, es[i].poll;
    } else {
      n, q := AnsweredBetween(es, i + 1, m, job);
    }
  }

  /** What finishes the job inside the poll is a cancellation, or a result accepted
      after another poll was answered with the same job. */
  lemma FinisherInsidePoll(es: seq<Event>, p: nat, i: nat, m: nat, k: nat, job: nat)
    requires FinishedInsidePoll(es, p, i, m, k, job)
    ensures || (es[m].AdminCancel? && es[m].job == job)
            || (es[m].AdminCancelBatch? && At(es, m).table[job].batchId == Some(es[m].batchId))
            || (es[m].Write? && es[m].report.job == job &&
                exists n, q :: i < n < m && q != p && AnsweredAt(es, n, q, job))
  {
    hide Run;
    RunStep(es, i, job);
    RunStep(es, m, job);
    assert PendingFor(At(es, i).table, At(es, i).polls[p].agent, job);
    if es[m].Write? {
      var n, q := AnsweredBetween(es, i, m, job);
      if q == p {
        ListingIsKept(es, n + 1, k, p);
      }
    }
  }
}
