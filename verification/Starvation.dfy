/**
  Activities of the agent's main loop that throw (service/Netdesk.Agent.Service/AgentWorker.cs:97-145), over
  endless runs: which later activities they starve. A run that throws leaves its timestamp alone, so that the
  activity is due again at once.
 */
module Starvation {
  import opened Common
  import opened AgentScheduler

  /** The iterations of an agent that is never stopped. */
  type Schedule = nat -> Tick

  function Prefix(ticks: Schedule, n: nat): (r: seq<Tick>)
    ensures |r| == n
    ensures forall k :: 0 <= k < n ==> r[k] == ticks(k)
  {
    seq(n, k requires 0 <= k < n => ticks(k))
  }

  ghost predicate AlwaysTimed(ticks: Schedule, gap: int) {
    forall n: nat :: Timed(Prefix(ticks, n), gap)
  }

  function RunAt(s: LoopState, intervals: seq<int>, ticks: Schedule, k: nat): Option<nat>
    requires |s.last| == |intervals|
  {
    Ran(s, intervals, Prefix(ticks, k + 1), k)
  }

  lemma SameInEveryPrefix(s: LoopState, intervals: seq<int>, ticks: Schedule, n: nat, k: nat)
    requires |s.last| == |intervals| && k < n
    ensures Trace(s, intervals, Prefix(ticks, n))[k] == RunAt(s, intervals, ticks, k)
    ensures Before(s, intervals, Prefix(ticks, n), k) == Before(s, intervals, Prefix(ticks, k + 1), k)
  {
    assert Prefix(ticks, n)[..k] == Prefix(ticks, k + 1)[..k];
  }

  ghost predicate DueFrom(s: LoopState, intervals: seq<int>, ticks: Schedule, i: nat, a: nat)
    requires |s.last| == |intervals| && i < |intervals|
  {
    DueAt(s, intervals, Prefix(ticks, a + 1), i, a)
  }

  /** Every run of activity j from iteration a on throws. */
  ghost predicate KeepsThrowing(s: LoopState, intervals: seq<int>, ticks: Schedule, j: nat, a: nat)
    requires |s.last| == |intervals|
  {
    forall k: nat :: k >= a && RunAt(s, intervals, ticks, k) == Some(j) ==> ticks(k).throws
  }

  ghost predicate NeverRuns(s: LoopState, intervals: seq<int>, ticks: Schedule, i: nat, a: nat)
    requires |s.last| == |intervals|
  {
    forall k: nat :: k >= a ==> RunAt(s, intervals, ticks, k) != Some(i)
  }

  ghost predicate OnlyThrower(s: LoopState, intervals: seq<int>, ticks: Schedule, j: nat, a: nat)
    requires |s.last| == |intervals|
  {
    forall k: nat :: k >= a && ticks(k).throws ==>
      RunAt(s, intervals, ticks, k) == Some(j) || RunAt(s, intervals, ticks, k) == None
  }

  lemma ThrowingStarves(s: LoopState, intervals: seq<int>, ticks: Schedule, gap: int, j: nat, i: nat, a: nat)
    requires |s.last| == |intervals| && AlwaysTimed(ticks, gap) && j < i < |intervals|
    requires DueFrom(s, intervals, ticks, j, a) && KeepsThrowing(s, intervals, ticks, j, a)
    ensures NeverRuns(s, intervals, ticks, i, a)
  {
    hide Timed, Trace, DueAt, RunAt;
    forall k: nat | k >= a
      ensures RunAt(s, intervals, ticks, k) != Some(i)
    {
      var p := Prefix(ticks, k + 1);
      SameDue(s, intervals, ticks, j, a, k + 1);
      forall m | a <= m <= k && Trace(s, intervals, p)[m] == Some(j)
        ensures p[m].throws
      {
        SameInEveryPrefix(s, intervals, ticks, k + 1, m);
      }
      WaitingIsOvertaken(s, intervals, p, gap, j, a, k);
      SameInEveryPrefix(s, intervals, ticks, k + 1, k);
    }
  }

  lemma SameDue(s: LoopState, intervals: seq<int>, ticks: Schedule, i: nat, a: nat, n: nat)
    requires |s.last| == |intervals| && i < |intervals| && a < n
    ensures DueAt(s, intervals, Prefix(ticks, n), i, a) <==> DueFrom(s, intervals, ticks, i, a)
  {
    SameInEveryPrefix(s, intervals, ticks, n, a);
  }

  /** The interval of activity j is longer than `len` iterations. */
  predicate Outlasts(intervals: seq<int>, gap: int, j: nat, len: nat)
    requires j < |intervals|
  {
    len * gap < intervals[j]
  }

  /** An activity that has just completed is not due for as long as its interval. */
  lemma NotDueSoon(s: LoopState, intervals: seq<int>, ticks: seq<Tick>, gap: int, j: nat, m: nat, k: nat, len: nat)
    requires |s.last| == |intervals| && Timed(ticks, gap) && m < k < |ticks| && k - m <= len && j < |intervals|
    requires Trace(s, intervals, ticks)[m] == Some(j) && !ticks[m].throws && Outlasts(intervals, gap, j, len)
    ensures Trace(s, intervals, ticks)[k] != Some(j)
  {
    hide Timed, Trace, Before, After, FirstDue;
    StampStays(s, intervals, ticks, gap, j, m, k);
    ClockGrows(ticks, gap, m, k, j);
    Iteration(s, intervals, ticks, k);
    FirstDueIsFirst(Before(s, intervals, ticks, k).last, intervals, ticks[k].clock, 0);
    MultiplyGrows(len, k - m, gap);
  }

  lemma {:induction false} NothingThrown(trace: seq<Option<nat>>, ticks: seq<Tick>, i: nat, a: nat, b: nat)
    requires a <= b <= |trace| == |ticks|
    requires forall k :: a <= k < b && ticks[k].throws ==> trace[k] == None
    ensures ThrownBefore(trace, ticks, i, a, b) == 0
    decreases i
  {
    if i > 0 {
      NothingThrown(trace, ticks, i - 1, a, b);
      NotThrown(trace, ticks, i - 1, a, b);
    }
  }

  lemma {:induction false} NotThrown(trace: seq<Option<nat>>, ticks: seq<Tick>, j: nat, a: nat, b: nat)
    requires a <= b <= |trace| == |ticks|
    requires forall k :: a <= k < b && ticks[k].throws ==> trace[k] == None
    ensures Thrown(trace, ticks, j, a, b) == 0
    decreases b
  {
    if a < b {
      NotThrown(trace, ticks, j, a, b - 1);
    }
  }

  /** In these iterations nothing but activity j throws. */
  ghost predicate OnlyThrowerIn(trace: seq<Option<nat>>, ticks: seq<Tick>, j: nat, a: nat, b: nat)
    requires a <= b <= |trace| == |ticks|
  {
    forall k :: a <= k < b && ticks[k].throws && trace[k].Some? ==> trace[k].value == j
  }

  lemma CalmAfterCompleting(
    s: LoopState, intervals: seq<int>, ticks: seq<Tick>, gap: int, j: nat, i: nat, m: nat, len: nat)
    requires |s.last| == |intervals| && Timed(ticks, gap) && j < |intervals| && m + 1 + len <= |ticks|
    requires Trace(s, intervals, ticks)[m] == Some(j) && !ticks[m].throws
    requires OnlyThrowerIn(Trace(s, intervals, ticks), ticks, j, m, m + 1 + len)
    requires Outlasts(intervals, gap, j, len)
    ensures ThrownBefore(Trace(s, intervals, ticks), ticks, i, m + 1, m + 1 + len) == 0
  {
    hide Timed, Trace, ThrownBefore, Outlasts;
    forall k | m + 1 <= k < m + 1 + len && ticks[k].throws
      ensures Trace(s, intervals, ticks)[k] == None
    {
      NotDueSoon(s, intervals, ticks, gap, j, m, k, len);
    }
    NothingThrown(Trace(s, intervals, ticks), ticks, i, m + 1, m + 1 + len);
  }

  /** Once the thrower has completed, an activity that is due runs within `len` iterations. */
  lemma CompletingFreesTheRest(
    s: LoopState, intervals: seq<int>, ticks: seq<Tick>, gap: int, j: nat, i: nat, m: nat, len: nat)
    requires |s.last| == |intervals| && Timed(ticks, gap) && j < i < |intervals| && len > 0 && m + 1 + len <= |ticks|
    requires Trace(s, intervals, ticks)[m] == Some(j) && !ticks[m].throws
    requires OnlyThrowerIn(Trace(s, intervals, ticks), ticks, j, m, m + 1 + len)
    requires DueAt(s, intervals, ticks, i, m + 1)
    requires QuotaBefore(intervals, gap, i, len) < len && Outlasts(intervals, gap, j, len)
    ensures exists k :: m + 1 <= k < m + 1 + len && Trace(s, intervals, ticks)[k] == Some(i)
  {
    hide Timed, Trace, DueAt, QuotaBefore, ThrownBefore, OnlyThrowerIn, Outlasts;
    CalmAfterCompleting(s, intervals, ticks, gap, j, i, m, len);
    NoStarvation(s, intervals, ticks, gap, i, m + 1, len);
  }

  lemma OnlyThrowerInPrefix(s: LoopState, intervals: seq<int>, ticks: Schedule, j: nat, m: nat, n: nat)
    requires |s.last| == |intervals| && m <= n && OnlyThrower(s, intervals, ticks, j, m)
    ensures OnlyThrowerIn(Trace(s, intervals, Prefix(ticks, n)), Prefix(ticks, n), j, m, n)
  {
    hide Trace, RunAt;
    var p := Prefix(ticks, n);
    forall k | m <= k < n && p[k].throws && Trace(s, intervals, p)[k].Some?
      ensures Trace(s, intervals, p)[k].value == j
    {
      SameInEveryPrefix(s, intervals, ticks, n, k);
      assert ticks(k).throws;
    }
  }

  lemma CompletingEndsTheWait(
    s: LoopState, intervals: seq<int>, ticks: Schedule, gap: int, j: nat, i: nat, m: nat, len: nat)
    requires |s.last| == |intervals| && AlwaysTimed(ticks, gap) && j < i < |intervals| && gap > 0 && len > 0
    requires RunAt(s, intervals, ticks, m) == Some(j) && !ticks(m).throws && OnlyThrower(s, intervals, ticks, j, m)
    requires DueFrom(s, intervals, ticks, i, m + 1)
    requires QuotaBefore(intervals, gap, i, len) < len && Outlasts(intervals, gap, j, len)
    ensures exists k: nat :: k > m && RunAt(s, intervals, ticks, k) == Some(i)
  {
    var n := m + 1 + len;
    var p := Prefix(ticks, n);
    assert Timed(p, gap);
    OnlyThrowerInPrefix(s, intervals, ticks, j, m, n);
    hide Timed, Trace, DueAt, RunAt, QuotaBefore, OnlyThrower, OnlyThrowerIn, Prefix, Before, AlwaysTimed, DueFrom;
    hide Outlasts;
    SameInEveryPrefix(s, intervals, ticks, n, m);
    SameDue(s, intervals, ticks, i, m + 1, n);
    CompletingFreesTheRest(s, intervals, p, gap, j, i, m, len);
    var k :| m + 1 <= k < m + 1 + len && Trace(s, intervals, p)[k] == Some(i);
    SameInEveryPrefix(s, intervals, ticks, n, k);
  }

  lemma DueUntilRun(s: LoopState, intervals: seq<int>, ticks: Schedule, gap: int, i: nat, a: nat, m: nat)
    requires |s.last| == |intervals| && AlwaysTimed(ticks, gap) && i < |intervals| && a <= m
    requires DueFrom(s, intervals, ticks, i, a) && NeverRuns(s, intervals, ticks, i, a)
    ensures DueFrom(s, intervals, ticks, i, m)
  {
    hide Timed, Trace, DueAt, RunAt;
    var p := Prefix(ticks, m + 1);
    SameDue(s, intervals, ticks, i, a, m + 1);
    forall k | a <= k <= m
      ensures Trace(s, intervals, p)[k] != Some(i)
    {
      SameInEveryPrefix(s, intervals, ticks, m + 1, k);
    }
    WaitingIsOvertaken(s, intervals, p, gap, i, a, m);
  }

  /** If nothing but activity j throws, then j, being due, starves a later activity that is due if and only
      if every one of its runs throws: one that completes lets the others through. The interval of j has to be
      longer than the iterations that those before i can fill. */
  lemma ThrowingStarvesExactlyWhen(
    s: LoopState, intervals: seq<int>, ticks: Schedule, gap: int, j: nat, i: nat, a: nat, len: nat)
    requires |s.last| == |intervals| && AlwaysTimed(ticks, gap) && j < i < |intervals| && gap > 0
    requires DueFrom(s, intervals, ticks, j, a) && DueFrom(s, intervals, ticks, i, a)
    requires OnlyThrower(s, intervals, ticks, j, a)
    requires len > 0 && QuotaBefore(intervals, gap, i, len) < len && Outlasts(intervals, gap, j, len)
    ensures NeverRuns(s, intervals, ticks, i, a) <==> KeepsThrowing(s, intervals, ticks, j, a)
  {
    hide DueFrom, RunAt, QuotaBefore, AlwaysTimed, Outlasts;
    if KeepsThrowing(s, intervals, ticks, j, a) {
      ThrowingStarves(s, intervals, ticks, gap, j, i, a);
    }
    if NeverRuns(s, intervals, ticks, i, a) {
      forall m: nat | m >= a && RunAt(s, intervals, ticks, m) == Some(j)
        ensures ticks(m).throws
      {
        if !ticks(m).throws {
          DueUntilRun(s, intervals, ticks, gap, i, a, m + 1);
          CompletingEndsTheWait(s, intervals, ticks, gap, j, i, m, len);
        }
      }
    }
  }

  // ------------------------------------------------------------ several that throw

  /** Nothing but these activities throws from iteration a on. */
  ghost predicate OnlyThrowers(
    s: LoopState, intervals: seq<int>, ticks: Schedule, throwers: set<nat>, a: nat)
    requires |s.last| == |intervals|
  {
    forall k: nat ::
      k >= a && ticks(k).throws && RunAt(s, intervals, ticks, k).Some? ==>
        RunAt(s, intervals, ticks, k).value in throwers
  }

  /** One of them that has completed once throws no more. */
  ghost predicate NoRelapse(
    s: LoopState, intervals: seq<int>, ticks: Schedule, throwers: set<nat>, a: nat)
    requires |s.last| == |intervals|
  {
    forall k: nat, n: nat ::
      a <= k < n && !ticks(k).throws && RunAt(s, intervals, ticks, k) == RunAt(s, intervals, ticks, n) &&
      RunAt(s, intervals, ticks, k).Some? && RunAt(s, intervals, ticks, k).value in throwers ==>
        !ticks(n).throws
  }

  /** From iteration m on none of those before j throws. */
  ghost predicate CalmBefore(
    s: LoopState, intervals: seq<int>, ticks: Schedule, throwers: set<nat>, j: nat, m: nat)
    requires |s.last| == |intervals|
  {
    forall k: nat ::
      k >= m && ticks(k).throws && RunAt(s, intervals, ticks, k).Some? ==>
        RunAt(s, intervals, ticks, k).value in throwers && RunAt(s, intervals, ticks, k).value >= j
  }

  lemma {:induction false} AllRecover(
    s: LoopState, intervals: seq<int>, ticks: Schedule, throwers: set<nat>, j: nat, a: nat) returns (m: nat)
    requires |s.last| == |intervals|
    requires OnlyThrowers(s, intervals, ticks, throwers, a) && NoRelapse(s, intervals, ticks, throwers, a)
    requires forall t :: t in throwers ==> !KeepsThrowing(s, intervals, ticks, t, a)
    ensures m >= a && CalmBefore(s, intervals, ticks, throwers, j, m)
  {
    hide RunAt;
    if j == 0 {
      m := a;
    } else {
      m := AllRecover(s, intervals, ticks, throwers, j - 1, a);
      if j - 1 in throwers {
        var k: nat :| k >= a && RunAt(s, intervals, ticks, k) == Some(j - 1) && !ticks(k).throws;
        m := if k < m then m else k + 1;
      }
    }
  }

  lemma CalmEndsTheWait(
    s: LoopState, intervals: seq<int>, ticks: Schedule, throwers: set<nat>, gap: int, i: nat, m: nat, len: nat)
    requires |s.last| == |intervals| && AlwaysTimed(ticks, gap) && gap > 0 && i < |intervals| && len > 0
    requires (forall t :: t in throwers ==> t < i) && CalmBefore(s, intervals, ticks, throwers, i, m)
    requires DueFrom(s, intervals, ticks, i, m) && QuotaBefore(intervals, gap, i, len) < len
    ensures exists k: nat :: k >= m && RunAt(s, intervals, ticks, k) == Some(i)
  {
    hide Timed, Trace, DueAt, RunAt, QuotaBefore, Before, ThrownBefore, DueFrom;
    var n := m + len;
    var p := Prefix(ticks, n);
    SameDue(s, intervals, ticks, i, m, n);
    forall k | m <= k < n && p[k].throws
      ensures Trace(s, intervals, p)[k] == None
    {
      SameInEveryPrefix(s, intervals, ticks, n, k);
      assert ticks(k).throws;
    }
    NothingThrown(Trace(s, intervals, p), p, i, m, n);
    NoStarvation(s, intervals, p, gap, i, m, len);
    var k :| m <= k < n && Trace(s, intervals, p)[k] == Some(i);
    SameInEveryPrefix(s, intervals, ticks, n, k);
  }

  /** If nothing throws but some activities before i, all of them due, and each that completes once throws no
      more, then they starve i, being due, if and only if one of them throws in every run. */
  lemma ThrowersStarveExactlyWhen(
    s: LoopState, intervals: seq<int>, ticks: Schedule, throwers: set<nat>, gap: int, i: nat, a: nat, len: nat)
    requires |s.last| == |intervals| && AlwaysTimed(ticks, gap) && gap > 0 && i < |intervals|
    requires forall t :: t in throwers ==> t < i && DueFrom(s, intervals, ticks, t, a)
    requires DueFrom(s, intervals, ticks, i, a)
    requires OnlyThrowers(s, intervals, ticks, throwers, a) && NoRelapse(s, intervals, ticks, throwers, a)
    requires len > 0 && QuotaBefore(intervals, gap, i, len) < len
    ensures NeverRuns(s, intervals, ticks, i, a) <==>
            exists t :: t in throwers && KeepsThrowing(s, intervals, ticks, t, a)
  {
    hide DueFrom, RunAt, QuotaBefore, AlwaysTimed, OnlyThrowers, NoRelapse, CalmBefore, KeepsThrowing;
    if t :| t in throwers && KeepsThrowing(s, intervals, ticks, t, a) {
      ThrowingStarves(s, intervals, ticks, gap, t, i, a);
    } else {
      var m := AllRecover(s, intervals, ticks, throwers, i, a);
      if NeverRuns(s, intervals, ticks, i, a) {
        DueUntilRun(s, intervals, ticks, gap, i, a, m);
        CalmEndsTheWait(s, intervals, ticks, throwers, gap, i, m, len);
      }
    }
  }

  // ------------------------------------------------------------- the default settings

  /** The two activities that can throw, and the inventory, with a start every 5 seconds. */
  lemma PollAndUpdateStarveInventoryExactlyWhen(s: LoopState, ticks: Schedule, a: nat)
    requires |s.last| == ACTIVITIES && AlwaysTimed(ticks, 5)
    requires DueFrom(s, DEFAULT_INTERVALS, ticks, JOBS_POLL, a)
    requires DueFrom(s, DEFAULT_INTERVALS, ticks, UPDATE_CHECK, a)
    requires DueFrom(s, DEFAULT_INTERVALS, ticks, INVENTORY_SYNC, a)
    requires OnlyThrowers(s, DEFAULT_INTERVALS, ticks, {JOBS_POLL, UPDATE_CHECK}, a)
    requires NoRelapse(s, DEFAULT_INTERVALS, ticks, {JOBS_POLL, UPDATE_CHECK}, a)
    ensures NeverRuns(s, DEFAULT_INTERVALS, ticks, INVENTORY_SYNC, a) <==>
            KeepsThrowing(s, DEFAULT_INTERVALS, ticks, JOBS_POLL, a) ||
            KeepsThrowing(s, DEFAULT_INTERVALS, ticks, UPDATE_CHECK, a)
  {
    hide DueFrom, RunAt, AlwaysTimed, OnlyThrowers, NoRelapse, KeepsThrowing, NeverRuns, QuotaBefore;
    DefaultQuota(INVENTORY_SYNC);
    ThrowersStarveExactlyWhen(s, DEFAULT_INTERVALS, ticks, {JOBS_POLL, UPDATE_CHECK}, 5, INVENTORY_SYNC, a, 11);
  }

  /** The update check and the inventory, with the default settings and a start every 5 seconds. */
  lemma UpdateCheckStarvesInventoryExactlyWhen(s: LoopState, ticks: Schedule, a: nat)
    requires |s.last| == ACTIVITIES && AlwaysTimed(ticks, 5)
    requires DueFrom(s, DEFAULT_INTERVALS, ticks, UPDATE_CHECK, a) &&
             DueFrom(s, DEFAULT_INTERVALS, ticks, INVENTORY_SYNC, a)
    requires OnlyThrower(s, DEFAULT_INTERVALS, ticks, UPDATE_CHECK, a)
    ensures NeverRuns(s, DEFAULT_INTERVALS, ticks, INVENTORY_SYNC, a) <==>
            KeepsThrowing(s, DEFAULT_INTERVALS, ticks, UPDATE_CHECK, a)
  {
    DefaultQuota(INVENTORY_SYNC);
    ThrowingStarvesExactlyWhen(s, DEFAULT_INTERVALS, ticks, 5, UPDATE_CHECK, INVENTORY_SYNC, a, 11);
  }
}
