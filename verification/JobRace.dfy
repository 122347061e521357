/**
  The race of the split poll, seen from both sides: with one poll at a time only a cancellation can lose it,
  and concrete runs in which it is lost.
 */
module JobRace {
  import opened Common
  import opened AgentJobs
  import opened JobProtocol
  import opened JobRuns
  import opened JobDelivery

  const DONE := JobResult(Some(true), Some(0), None, None, Some(1))

  const ROW := NewRow(7, None, "reboot", None, 0)

  lemma ListingOfOne(t: Table, agent: int, id: nat)
    requires forall x: nat :: PendingFor(t, agent, x) <==> x == id
    ensures IsPendingListing(t, agent, [id])
  {
  }

  lemma RunOne(es: seq<Event>, e: Event)
    ensures Run(Init, es + [e]) == Step(Run(Init, es), e)
  {
    assert (es + [e])[..|es|] == es;
  }

  // ------------------------------------------------------------ two runs

  /** A job has been created and is listed by a poll that has not marked it yet. */
  const LISTED := State(map[0 := ROW], 1, [Poll(7, Reading, [0])], map[7 := Waiting(0)], [], {}, {}, [])

  lemma JobIsListed() returns (es: seq<Event>)
    ensures Run(Init, es) == LISTED
    ensures forall i :: 0 <= i < |es| ==> !es[i].AdminCancel? && !es[i].AdminCancelBatch?
  {
    var create := Create(7, None, "reboot", None, 0);
    es := [] + [create] + [Ask(7)] + [Read(0, [0])];
    RunOne([], create);
    RunOne([] + [create], Ask(7));
    RunOne([] + [create] + [Ask(7)], Read(0, [0]));
    ListingOfOne(map[0 := ROW], 7, 0);
  }

  lemma CancelledThenMarked()
    ensures var c := Step(LISTED, AdminCancel(0, 1));
      && Finished(c, 0)
      && Step(c, Mark(0, 2)) == LISTED.(table := Step(c, Mark(0, 2)).table, polls := [Poll(7, Replied, [0])])
      && Active(Step(c, Mark(0, 2)), 0)
  {
  }

  lemma DeliveredAndRun(s: State)
    requires s.polls == [Poll(7, Replied, [0])] && s.agents == map[7 := Waiting(0)]
    ensures Ran(Step(Step(s, Deliver(0)), Execute(7, DONE)), 0)
  {
    var ran := Step(Step(s, Deliver(0)), Execute(7, DONE)).executed;
    assert ran[|ran| - 1] == (7, 0);
  }

  /** An administrator cancels between SELECT and UPDATE: the cancelled job becomes sent and is executed. */
  lemma CancelledJobIsSentAndExecuted() returns (es: seq<Event>)
    ensures exists k :: LeavesAt(es, k, 0)
    ensures Ran(Run(Init, es), 0)
  {
    hide Step, Run;
    var e0 := JobIsListed();
    var e1 := e0 + [AdminCancel(0, 1)];
    var e2 := e1 + [Mark(0, 2)];
    var e3 := e2 + [Deliver(0)];
    es := e3 + [Execute(7, DONE)];
    RunOne(e0, AdminCancel(0, 1));
    RunOne(e1, Mark(0, 2));
    RunOne(e2, Deliver(0));
    RunOne(e3, Execute(7, DONE));
    CancelledThenMarked();
    DeliveredAndRun(Run(Init, e2));
    assert es[..|e1|] == e1 && es[..|e1| + 1] == e2;
    assert LeavesAt(es, |e1|, 0);
  }

  /** The agent has run the job for its second poll, while its first one is still between the halves. */
  ghost predicate RanWhileReading(s: State) {
    && s.table.Keys == {0} && s.table[0].agentId == 7 && s.table[0].status.Sent?
    && Report(7, 0, DONE) in s.reports && s.accepted == []
    && |s.polls| == 2 && s.polls[0] == Poll(7, Reading, [0])
  }

  lemma AskedAgain()
    ensures var s := Step(Step(LISTED, GiveUp(7)), Ask(7));
      && s == LISTED.(polls := [Poll(7, Reading, [0]), Poll(7, Requested, [])], agents := map[7 := Waiting(1)])
      && CanRead(s, 1, [0])
  {
    ListingOfOne(map[0 := ROW], 7, 0);
  }

  lemma ServedAndRun(s: State)
    requires s == LISTED.(polls := [Poll(7, Reading, [0]), Poll(7, Requested, [])], agents := map[7 := Waiting(1)])
    requires CanRead(s, 1, [0])
    ensures RanWhileReading(Step(Step(Step(s, Serve(1, [0], 1)), Deliver(1)), Execute(7, DONE)))
  {
    hide CanRead;
    var served := Step(s, Serve(1, [0], 1));
    assert served.polls == [Poll(7, Reading, [0]), Poll(7, Replied, [0])];
    assert served.table.Keys == {0};
    var delivered := Step(served, Deliver(1));
    assert delivered == served.(agents := map[7 := Busy([0])]);
  }

  lemma JobRanWhileReading() returns (es: seq<Event>)
    ensures RanWhileReading(Run(Init, es))
    ensures forall i :: 0 <= i < |es| ==> !es[i].AdminCancel? && !es[i].AdminCancelBatch?
  {
    hide Step, Run;
    var e2 := JobIsListed();
    var e3 := e2 + [GiveUp(7)];
    var e4 := e3 + [Ask(7)];
    var e5 := e4 + [Serve(1, [0], 1)];
    var e6 := e5 + [Deliver(1)];
    es := e6 + [Execute(7, DONE)];
    RunOne(e2, GiveUp(7));
    RunOne(e3, Ask(7));
    RunOne(e4, Serve(1, [0], 1));
    RunOne(e5, Deliver(1));
    RunOne(e6, Execute(7, DONE));
    AskedAgain();
    ServedAndRun(Run(Init, e4));
  }

  lemma WriteThenMark(s: State)
    requires RanWhileReading(s)
    ensures var r := Report(7, 0, DONE); var w := Step(Step(s, Check(r)), Write(r, 3)); var m := Step(w, Mark(0, 4));
      && Finished(w, 0) && Active(m, 0)
      && HasStatus(m, 0, Sent) && m.table[0].agentId == 7 && r in m.reports && m.accepted == [r]
  {
    var r := Report(7, 0, DONE);
    var w := Step(Step(s, Check(r)), Write(r, 3));
    assert w.accepted == [r] && w.polls == s.polls && w.reports == s.reports;
  }

  lemma WrittenAgain(s: State)
    requires var r := Report(7, 0, DONE);
      HasStatus(s, 0, Sent) && s.table[0].agentId == 7 && r in s.reports && s.accepted == [r]
    ensures var r := Report(7, 0, DONE); Step(Step(s, Check(r)), Write(r, 5)).accepted == [r, r]
  {
  }

  /** The same result is written twice: the agent's first poll is abandoned, overlaps its second one, and
      its late UPDATE reopens the finished job for a repeated delivery of the result. */
  lemma OverlappingPollsTakeTwoResults() returns (es: seq<Event>)
    ensures exists k :: LeavesAt(es, k, 0)
    ensures AcceptedTwice(Run(Init, es), 0)
    ensures forall i :: 0 <= i < |es| ==> !es[i].AdminCancel? && !es[i].AdminCancelBatch?
  {
    hide Step, Run, RanWhileReading;
    var r := Report(7, 0, DONE);
    var e7 := JobRanWhileReading();
    var e8 := e7 + [Check(r)];
    var e9 := e8 + [Write(r, 3)];
    var e10 := e9 + [Mark(0, 4)];
    var e11 := e10 + [Check(r)];
    es := e11 + [Write(r, 5)];
    RunOne(e7, Check(r));
    RunOne(e8, Write(r, 3));
    RunOne(e9, Mark(0, 4));
    RunOne(e10, Check(r));
    RunOne(e11, Write(r, 5));
    WriteThenMark(Run(Init, e7));
    WrittenAgain(Run(Init, e10));
    assert Run(Init, es).accepted[0].job == 0 && Run(Init, es).accepted[1].job == 0;
    assert es[..|e9|] == e9 && es[..|e9| + 1] == e10;
    assert LeavesAt(es, |e9|, 0);
  }

  // ------------------------------------------- two results, exactly when

  ghost predicate AcceptedTwice(s: State, job: nat) {
    exists i, j :: 0 <= i < j < |s.accepted| && s.accepted[i].job == job && s.accepted[j].job == job
  }

  /** Event k is the UPDATE of a checked result that finds the row still sent. */
  ghost predicate AcceptsAt(es: seq<Event>, k: nat, job: nat) {
    && k < |es| && es[k].Write? && es[k].report.job == job
    && es[k].report in At(es, k).checked && HasStatus(At(es, k), job, Sent)
  }

  /** Event k is the UPDATE of a checked result of the job, whatever it finds. */
  ghost predicate ArrivesAt(es: seq<Event>, k: nat, job: nat) {
    k < |es| && es[k].Write? && es[k].report.job == job && es[k].report in At(es, k).checked
  }

  /** After an accepted result of the job, a poll that had listed it before marks it; then another checked
      result arrives, before which nothing has finished or deleted the job. */
  ghost predicate MarkedBetweenResults(es: seq<Event>, i: nat, a: nat, k: nat, b: nat, p: nat, job: nat) {
    && i < a < k < b && ReadAt(es, i, p, job) && AcceptsAt(es, a, job) && MarkedAt(es, k, p)
    && ArrivesAt(es, b, job) && job in At(es, b).table
    && forall n :: k < n < b ==> !FinishesAt(es, n, job)
  }

  lemma {:induction false} AcceptedStays(es: seq<Event>, i: nat, k: nat)
    requires i <= k <= |es|
    ensures At(es, i).accepted <= At(es, k).accepted
    decreases k - i
  {
    hide Step, Run;
    if i < k {
      RunStep(es, i, 0);
      AcceptedGrows(At(es, i), es[i]);
      AcceptedStays(es, i + 1, k);
    }
  }

  /** Every accepted result was accepted by an event of the run. */
  lemma {:induction false} AcceptedBefore(es: seq<Event>, end: nat, n: nat) returns (k: nat)
    requires end <= |es| && n < |At(es, end).accepted|
    ensures k < end && |At(es, k).accepted| == n && AcceptsAt(es, k, At(es, end).accepted[n].job)
    decreases end
  {
    hide Step, Run;
    StartsEmpty(es);
    RunStep(es, end - 1, 0);
    AcceptedGrows(At(es, end - 1), es[end - 1]);
    if n < |At(es, end - 1).accepted| {
      k := AcceptedBefore(es, end - 1, n);
    } else {
      k := end - 1;
    }
  }

  lemma {:induction false} NotPendingAgain(es: seq<Event>, i: nat, k: nat, job: nat)
    requires i <= k <= |es| && job < At(es, i).nextId && job in At(es, k).table
    requires job in At(es, i).table && !At(es, i).table[job].status.Pending?
    ensures !At(es, k).table[job].status.Pending?
    decreases k - i
  {
    hide Step, Run;
    if i < k {
      RunStep(es, i, job);
      StillThere(es, i + 1, k, job);
      NeverPendingAgain(At(es, i), es[i], job);
      NotPendingAgain(es, i + 1, k, job);
    }
  }

  /** The last event that takes the row out of a terminal status; from there on it stays active. */
  lemma {:induction false} LastLeaveBetween(es: seq<Event>, i: nat, k: nat, job: nat) returns (m: nat)
    requires i <= k <= |es| && Finished(At(es, i), job) && Active(At(es, k), job)
    ensures i <= m < k && LeavesAt(es, m, job)
    ensures forall n :: m < n <= k ==> Active(At(es, n), job)
    decreases k
  {
    hide Step, Run;
    RunStep(es, i, job);
    IdsGrow(es, i, k - 1);
    StillThere(es, k - 1, k, job);
    if Finished(At(es, k - 1), job) {
      m := k - 1;
    } else {
      m := LastLeaveBetween(es, i, k - 1, job);
    }
  }

  /** Between two results that find the row sent, a poll marks it that listed it before the first. */
  lemma MarkedInBetween(es: seq<Event>, a: nat, b: nat, job: nat) returns (i: nat, k: nat, p: nat)
    requires a < b && AcceptsAt(es, a, job) && AcceptsAt(es, b, job)
    ensures MarkedBetweenResults(es, i, a, k, b, p, job)
  {
    hide Step, Run;
    RunStep(es, a, job);
    AcceptedGrows(At(es, a), es[a]);
    k := LastLeaveBetween(es, a + 1, b, job);
    var m;
    p, i, m := LeavingIsFinishedInsidePoll(es, k, job);
    RunStep(es, i, job);
    assert PendingFor(At(es, i).table, At(es, i).polls[p].agent, job);
    if a < i {
      NotPendingAgain(es, a, i, job);
    }
  }

  /** A row that a poll marks is sent, and stays so while nothing finishes or deletes it. */
  lemma {:induction false} StaysSent(es: seq<Event>, k: nat, b: nat, job: nat)
    requires k <= b <= |es| && HasStatus(At(es, k), job, Sent) && job in At(es, b).table
    requires forall n :: k <= n < b ==> !FinishesAt(es, n, job)
    ensures HasStatus(At(es, b), job, Sent)
    decreases b - k
  {
    hide Step, Run;
    if k < b {
      RunStep(es, k, job);
      StillThere(es, k + 1, b, job);
      assert !FinishesAt(es, k, job);
      StaysSent(es, k + 1, b, job);
    }
  }

  lemma MarkedIsSent(es: seq<Event>, i: nat, k: nat, p: nat, job: nat)
    requires i < k && ReadAt(es, i, p, job) && MarkedAt(es, k, p) && job in At(es, k + 1).table
    ensures HasStatus(At(es, k + 1), job, Sent)
  {
    ListedAfterRead(es, i, p, job);
    ListingIsKept(es, i + 1, k, p);
    RunStep(es, k, job);
    AnswerMarks(At(es, k), es[k], p);
  }

  lemma SecondIsAccepted(es: seq<Event>, i: nat, a: nat, k: nat, b: nat, p: nat, job: nat)
    requires MarkedBetweenResults(es, i, a, k, b, p, job)
    ensures AcceptsAt(es, b, job)
  {
    hide Step, Run;
    RunStep(es, a, job);
    IdsGrow(es, a, k + 1);
    StillThere(es, k + 1, b, job);
    MarkedIsSent(es, i, k, p, job);
    StaysSent(es, k + 1, b, job);
  }

  /** A job has two accepted results exactly when, after one of them, a poll that had listed the job before
      marks it, and another checked result arrives before anything else finishes or deletes the job. */
  lemma TwoResultsExactlyWhen(es: seq<Event>, job: nat)
    ensures AcceptedTwice(Run(Init, es), job) <==>
            exists i, a, k, b, p :: MarkedBetweenResults(es, i, a, k, b, p, job)
  {
    hide Step, Run, ReadAt, MarkedAt, ArrivesAt, FinishesAt;
    assert es[..|es|] == es;
    var s := At(es, |es|);
    if AcceptedTwice(s, job) {
      var x, y :| 0 <= x < y < |s.accepted| && s.accepted[x].job == job && s.accepted[y].job == job;
      var a := AcceptedBefore(es, |es|, x);
      var b := AcceptedBefore(es, |es|, y);
      if b <= a {
        AcceptedStays(es, b, a);
      }
      var i, k, p := MarkedInBetween(es, a, b, job);
    }
    if i, a, k, b, p :| MarkedBetweenResults(es, i, a, k, b, p, job) {
      SecondIsAccepted(es, i, a, k, b, p, job);
      TwiceWhenAcceptedTwice(es, a, b, job);
    }
  }

  lemma TwiceWhenAcceptedTwice(es: seq<Event>, a: nat, b: nat, job: nat)
    requires a < b && AcceptsAt(es, a, job) && AcceptsAt(es, b, job)
    ensures AcceptedTwice(Run(Init, es), job)
  {
    hide Step, Run;
    assert es[..|es|] == es;
    RunStep(es, a, job);
    RunStep(es, b, job);
    AcceptedGrows(At(es, a), es[a]);
    AcceptedGrows(At(es, b), es[b]);
    AcceptedStays(es, a + 1, b);
    AcceptedStays(es, b + 1, |es|);
    var x, y := |At(es, a).accepted|, |At(es, b).accepted|;
    assert At(es, b).accepted[x].job == job;
    assert At(es, b + 1).accepted[x].job == job && At(es, b + 1).accepted[y].job == job;
  }

  // --------------------------------------------- one poll at a time

  lemma {:induction false} PrefixIsApart(es: seq<Event>, k: nat)
    requires k <= |es| && OnePollAtATime(Init, es)
    ensures OnePollAtATime(Init, es[..k])
    decreases |es|
  {
    if k < |es| {
      var front := es[..|es| - 1];
      PrefixIsApart(front, k);
      assert front[..k] == es[..k];
    } else {
      assert es[..k] == es;
    }
  }

  /** With one poll at a time, a job leaves a terminal status only if an administrator cancelled it
      between the two halves of the poll that listed it. */
  lemma OnlyACancellationCanBeLost(es: seq<Event>, k: nat, job: nat)
    requires OnePollAtATime(Init, es) && LeavesAt(es, k, job)
    ensures exists p: nat, i: nat, m: nat ::
              FinishedInsidePoll(es, p, i, m, k, job) && (es[m].AdminCancel? || es[m].AdminCancelBatch?)
  {
    hide Run, Step;
    var p, i, m := LeavingIsFinishedInsidePoll(es, k, job);
    FinisherInsidePoll(es, p, i, m, k, job);
    if es[m].Write? {
      var n, q :| i < n < m && q != p && AnsweredAt(es, n, q, job);
      ListedTwiceIsNotApart(es, k, p, i, q, n, job);
    }
  }

  lemma ListedTwiceIsNotApart(es: seq<Event>, k: nat, p: nat, i: nat, q: nat, n: nat, job: nat)
    requires i < n < k <= |es| && p != q && ReadAt(es, i, p, job) && AnsweredAt(es, n, q, job)
    ensures !OnePollAtATime(Init, es)
  {
    hide Run, Step;
    ListingIsKept(es, n + 1, k, q);
    ListedAfterRead(es, i, p, job);
    ListingIsKept(es, i + 1, k, p);
    if OnePollAtATime(Init, es) {
      PrefixIsApart(es, k);
      NothingHappensTwice(es[..k]);
    }
  }

  lemma ListedAfterRead(es: seq<Event>, i: nat, p: nat, job: nat)
    requires ReadAt(es, i, p, job)
    ensures p < |At(es, i + 1).polls| && At(es, i + 1).polls[p].stage.Reading? && job in At(es, i + 1).polls[p].ids
  {
    RunStep(es, i, job);
  }
}
