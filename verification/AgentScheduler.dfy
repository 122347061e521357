/**
  The agent's main loop (service/Netdesk.Agent.Service/AgentWorker.cs:62-160): every iteration runs the
  first activity of a fixed order that is due. Each iteration is described by a Tick: what the clock shows
  in each test of the chain, the clock when the activity has ended, and whether it threw. Clock values are
  seconds. Of the activities only the jobs poll and the update check can throw; the others catch everything.
 */
module AgentScheduler {
  import opened Common

  /** The order of the else-if chain. */
  const HEARTBEAT: nat := 0
  const JOBS_POLL: nat := 1
  const EVENT_LOG: nat := 2
  const DNS_LOG: nat := 3
  const PROCESS_MONITOR: nat := 4
  const UPDATE_CHECK: nat := 5
  const INVENTORY_SYNC: nat := 6
  const ACTIVITIES: nat := 7

  /** `clock(i)` is the reading in the test of activity i. */
  datatype Tick = Tick(clock: nat -> int, finish: int, enrollOk: bool, throws: bool)

  /** `last[i]` is None while it still holds DateTime.MinValue. */
  datatype LoopState = LoopState(enrolled: bool, last: seq<Option<int>>)

  predicate Due(last: Option<int>, interval: int, now: int) {
    last.None? || now - last.value >= interval
  }

  function FirstDue(last: seq<Option<int>>, intervals: seq<int>, clock: nat -> int, from: nat): Option<nat>
    requires |last| == |intervals| && from <= |last|
    decreases |last| - from
  {
    if from == |last| then None
    else if Due(last[from], intervals[from], clock(from)) then Some(from)
    else FirstDue(last, intervals, clock, from + 1)
  }

  /** One iteration: the activity it runs, if any, and the state it leaves. */
  function Pick(s: LoopState, intervals: seq<int>, t: Tick): Option<nat>
    requires |s.last| == |intervals|
  {
    if s.enrolled then FirstDue(s.last, intervals, t.clock, 0) else None
  }

  function Next(s: LoopState, intervals: seq<int>, t: Tick): (s': LoopState)
    requires |s.last| == |intervals|
    ensures |s'.last| == |s.last|
  {
    if !s.enrolled then s.(enrolled := t.enrollOk)
    else match FirstDue(s.last, intervals, t.clock, 0)
      case None => s
      case Some(j) => if t.throws || j >= |s.last| then s else s.(last := s.last[j := Some(t.finish)])
  }

  function After(s: LoopState, intervals: seq<int>, ticks: seq<Tick>): (s': LoopState)
    requires |s.last| == |intervals|
    ensures |s'.last| == |s.last|
  {
    if ticks == [] then s
    else Next(After(s, intervals, ticks[..|ticks| - 1]), intervals, ticks[|ticks| - 1])
  }

  function Ran(s: LoopState, intervals: seq<int>, ticks: seq<Tick>, k: nat): Option<nat>
    requires |s.last| == |intervals| && k < |ticks|
  {
    Pick(After(s, intervals, ticks[..k]), intervals, ticks[k])
  }

  lemma {:induction false} FirstDueIsFirst(last: seq<Option<int>>, intervals: seq<int>, clock: nat -> int, from: nat)
    requires |last| == |intervals| && from <= |last|
    ensures var r := FirstDue(last, intervals, clock, from);
      && (r.None? <==> forall j :: from <= j < |last| ==> !Due(last[j], intervals[j], clock(j)))
      && (r.Some? ==> from <= r.value < |last| && Due(last[r.value], intervals[r.value], clock(r.value)) &&
                      forall j :: from <= j < r.value ==> !Due(last[j], intervals[j], clock(j)))
    decreases |last| - from
  {
    if from < |last| && !Due(last[from], intervals[from], clock(from)) {
      FirstDueIsFirst(last, intervals, clock, from + 1);
    }
  }

  /** What one iteration runs: activity i if and only if the agent is enrolled, the interval has passed since
      the end of i's last run or there was none, and the interval of no earlier activity has. */
  lemma PickedExactlyWhen(s: LoopState, intervals: seq<int>, t: Tick, i: nat)
    requires |s.last| == |intervals| && i < |intervals|
    ensures Pick(s, intervals, t) == Some(i) <==>
            && s.enrolled
            && (s.last[i].None? || t.clock(i) - s.last[i].value >= intervals[i])
            && forall j :: 0 <= j < i ==> s.last[j].Some? && t.clock(j) - s.last[j].value < intervals[j]
  {
    FirstDueIsFirst(s.last, intervals, t.clock, 0);
  }

  /** The seven timestamps. */
  datatype Stamps = Stamps(
    heartbeat: Option<int>,
    jobsPoll: Option<int>,
    eventLogSync: Option<int>,
    dnsLogSync: Option<int>,
    processMonitor: Option<int>,
    updateCheck: Option<int>,
    inventorySync: Option<int>)

  function InOrder(l: Stamps): seq<Option<int>> {
    [l.heartbeat, l.jobsPoll, l.eventLogSync, l.dnsLogSync, l.processMonitor, l.updateCheck, l.inventorySync]
  }

  /** One pass through the chain. */
  method RunOnce(enrolled: bool, l: Stamps, intervals: seq<int>, t: Tick)
    returns (nowEnrolled: bool, r: Stamps, chosen: Option<nat>)
    requires |intervals| == ACTIVITIES
    ensures LoopState(nowEnrolled, InOrder(r)) == Next(LoopState(enrolled, InOrder(l)), intervals, t)
    ensures chosen == Pick(LoopState(enrolled, InOrder(l)), intervals, t)
    ensures nowEnrolled == if enrolled then true else t.enrollOk
    ensures !enrolled ==> chosen.None?
    ensures chosen.None? || t.throws ==> r == l
    ensures chosen == Some(HEARTBEAT) && !t.throws ==> r == l.(heartbeat := Some(t.finish))
    ensures chosen == Some(JOBS_POLL) && !t.throws ==> r == l.(jobsPoll := Some(t.finish))
    ensures chosen == Some(EVENT_LOG) && !t.throws ==> r == l.(eventLogSync := Some(t.finish))
    ensures chosen == Some(DNS_LOG) && !t.throws ==> r == l.(dnsLogSync := Some(t.finish))
    ensures chosen == Some(PROCESS_MONITOR) && !t.throws ==> r == l.(processMonitor := Some(t.finish))
    ensures chosen == Some(UPDATE_CHECK) && !t.throws ==> r == l.(updateCheck := Some(t.finish))
    ensures chosen == Some(INVENTORY_SYNC) && !t.throws ==> r == l.(inventorySync := Some(t.finish))
  {
    nowEnrolled, r, chosen := enrolled, l, None;
    FirstDueIsFirst(InOrder(l), intervals, t.clock, 0);
    hide FirstDue;
    if !enrolled {
      nowEnrolled := t.enrollOk;
    } else if Due(l.heartbeat, intervals[HEARTBEAT], t.clock(HEARTBEAT)) {
      chosen := Some(HEARTBEAT);
      if !t.throws { r := l.(heartbeat := Some(t.finish)); }
    } else if Due(l.jobsPoll, intervals[JOBS_POLL], t.clock(JOBS_POLL)) {
      chosen := Some(JOBS_POLL);
      if !t.throws { r := l.(jobsPoll := Some(t.finish)); }
    } else if Due(l.eventLogSync, intervals[EVENT_LOG], t.clock(EVENT_LOG)) {
      chosen := Some(EVENT_LOG);
      if !t.throws { r := l.(eventLogSync := Some(t.finish)); }
    } else if Due(l.dnsLogSync, intervals[DNS_LOG], t.clock(DNS_LOG)) {
      chosen := Some(DNS_LOG);
      if !t.throws { r := l.(dnsLogSync := Some(t.finish)); }
    } else if Due(l.processMonitor, intervals[PROCESS_MONITOR], t.clock(PROCESS_MONITOR)) {
      chosen := Some(PROCESS_MONITOR);
      if !t.throws { r := l.(processMonitor := Some(t.finish)); }
    } else if Due(l.updateCheck, intervals[UPDATE_CHECK], t.clock(UPDATE_CHECK)) {
      chosen := Some(UPDATE_CHECK);
      if !t.throws { r := l.(updateCheck := Some(t.finish)); }
    } else if Due(l.inventorySync, intervals[INVENTORY_SYNC], t.clock(INVENTORY_SYNC)) {
      chosen := Some(INVENTORY_SYNC);
      if !t.throws { r := l.(inventorySync := Some(t.finish)); }
    }
  }

  /** The loop; it computes the trace the theorems speak about. */
  method RunAsync(enrolledAtStart: bool, intervals: seq<int>, ticks: seq<Tick>) returns (ran: seq<Option<nat>>)
    requires |intervals| == ACTIVITIES
    ensures |ran| == |ticks|
    ensures forall k :: 0 <= k < |ticks| ==>
              ran[k] == Ran(LoopState(enrolledAtStart, seq(ACTIVITIES, _ => None)), intervals, ticks, k)
  {
    var enrolled := enrolledAtStart;
    var stamps := Stamps(None, None, None, None, None, None, None);
    ran := [];
    ghost var initial := LoopState(enrolledAtStart, seq(ACTIVITIES, _ => None));
    assert initial.last == InOrder(stamps);
    hide Next, Pick, InOrder;
    for k := 0 to |ticks|
      invariant |ran| == k
      invariant After(initial, intervals, ticks[..k]) == LoopState(enrolled, InOrder(stamps))
      invariant forall i :: 0 <= i < k ==> ran[i] == Ran(initial, intervals, ticks, i)
    {
      assert ticks[..k + 1][..k] == ticks[..k];
      var chosen: Option<nat>;
      enrolled, stamps, chosen := RunOnce(enrolled, stamps, intervals, ticks[k]);
      ran := ran + [chosen];
    }
  }

  // ---------------------------------------------------------------- timing

  /** The clock does not run backwards, and every test of an iteration is made at most `gap` seconds after
      the first test of the previous one. */
  ghost predicate Timed(ticks: seq<Tick>, gap: int) {
    && gap > 0
    && (forall k :: 0 <= k < |ticks| ==> Forward(ticks[k]))
    && (forall k, j: nat :: 0 < k < |ticks| ==> ticks[k - 1].finish <= ticks[k].clock(j) <= ticks[k - 1].clock(0) + gap)
  }

  ghost predicate Forward(t: Tick) {
    && (forall i: nat, j: nat :: i <= j ==> t.clock(i) <= t.clock(j))
    && (forall j: nat :: t.clock(j) <= t.finish)
  }

  function CeilDiv(n: nat, d: nat): nat
    requires d > 0
  {
    (n + d - 1) / d
  }

  /** The fewest iterations between two runs of an activity. */
  function Spacing(interval: int, gap: int): nat
    requires gap > 0
  {
    if interval <= gap then 1 else CeilDiv(interval, gap)
  }

  function Count(trace: seq<Option<nat>>, j: nat, a: nat, b: nat): nat
    requires a <= b <= |trace|
    decreases b
  {
    if a == b then 0 else Count(trace, j, a, b - 1) + (if trace[b - 1] == Some(j) then 1 else 0)
  }

  ghost predicate Spaced(trace: seq<Option<nat>>, j: nat, d: nat, a: nat, b: nat)
    requires a <= b <= |trace|
  {
    forall k, m :: a <= k < m < b && trace[k] == Some(j) && trace[m] == Some(j) ==> m - k >= d
  }

  lemma {:induction false} CountSplits(trace: seq<Option<nat>>, j: nat, a: nat, m: nat, b: nat)
    requires a <= m <= b <= |trace|
    ensures Count(trace, j, a, b) == Count(trace, j, a, m) + Count(trace, j, m, b)
    decreases b
  {
    if m < b {
      CountSplits(trace, j, a, m, b - 1);
    }
  }

  lemma {:induction false} ShortWindowHasOne(trace: seq<Option<nat>>, j: nat, d: nat, a: nat, b: nat)
    requires a <= b <= |trace| && b - a <= d && Spaced(trace, j, d, a, b)
    ensures Count(trace, j, a, b) <= 1
    ensures Count(trace, j, a, b) == 1 ==> exists k :: a <= k < b && trace[k] == Some(j)
    decreases b
  {
    if a < b {
      ShortWindowHasOne(trace, j, d, a, b - 1);
    }
  }

  lemma SpacedWithin(trace: seq<Option<nat>>, j: nat, d: nat, a: nat, m: nat, b: nat)
    requires a <= m <= b <= |trace| && Spaced(trace, j, d, a, b)
    ensures Spaced(trace, j, d, a, m) && Spaced(trace, j, d, m, b)
  {
  }

  lemma CeilDivIsPositive(n: nat, d: nat)
    requires d > 0 && n > 0
    ensures CeilDiv(n, d) >= 1
  {
  }

  lemma {:induction false} SpacedCount(trace: seq<Option<nat>>, j: nat, d: nat, a: nat, b: nat)
    requires a <= b <= |trace| && d > 0 && Spaced(trace, j, d, a, b)
    ensures Count(trace, j, a, b) <= CeilDiv(b - a, d)
    decreases b - a
  {
    if a == b {
      assert Count(trace, j, a, b) == 0;
    } else if b - a <= d {
      hide Count, CeilDiv, Spaced;
      ShortWindowHasOne(trace, j, d, a, b);
      CeilDivIsPositive(b - a, d);
    } else {
      hide Count, CeilDiv, Spaced;
      SpacedWithin(trace, j, d, a, a + d, b);
      CountSplits(trace, j, a, a + d, b);
      ShortWindowHasOne(trace, j, d, a, a + d);
      SpacedCount(trace, j, d, a + d, b);
      CeilDivStep(b - a, d);
    }
  }

  lemma CeilDivStep(n: nat, d: nat)
    requires 0 < d <= n
    ensures CeilDiv(n, d) == 1 + CeilDiv(n - d, d)
  {
    var q, r := (n - 1) / d, (n - 1) % d;
    Distribute(q, d);
    Quotient(n - 1 + d, d, q + 1, r);
  }

  lemma Distribute(q: int, d: int)
    ensures (q + 1) * d == q * d + d
  {
  }

  lemma MultiplyGrows(a: int, b: int, d: int)
    requires a >= b && d >= 0
    ensures a * d >= b * d
  {
  }

  lemma Quotient(x: int, d: int, q: int, r: int)
    requires d > 0 && 0 <= r < d && x == q * d + r
    ensures x / d == q
  {
    var p := x / d;
    assert x == p * d + x % d;
    if p > q {
      MultiplyGrows(p, q + 1, d);
      Distribute(q, d);
    } else if p < q {
      MultiplyGrows(q, p + 1, d);
      Distribute(p, d);
    }
  }

  /** k iterations of at most `gap` seconds make up an interval only if k reaches its spacing. */
  lemma SpacingIsNeeded(interval: int, gap: int, k: int)
    requires gap > 0 && k > 0 && k * gap >= interval
    ensures k >= Spacing(interval, gap)
  {
    if interval > gap && k < CeilDiv(interval, gap) {
      var c := CeilDiv(interval, gap);
      var x := interval + gap - 1;
      assert x == c * gap + x % gap;
      MultiplyGrows(c - 1, k, gap);
      Distribute(c - 1, gap);
    }
  }

  // ---------------------------------------------------------- no starvation

  ghost function Trace(s: LoopState, intervals: seq<int>, ticks: seq<Tick>): (r: seq<Option<nat>>)
    requires |s.last| == |intervals|
    ensures |r| == |ticks|
  {
    seq(|ticks|, k requires 0 <= k < |ticks| => Ran(s, intervals, ticks, k))
  }

  /** State before iteration k. */
  ghost function Before(s: LoopState, intervals: seq<int>, ticks: seq<Tick>, k: nat): LoopState
    requires |s.last| == |intervals| && k <= |ticks|
  {
    After(s, intervals, ticks[..k])
  }

  lemma Iteration(s: LoopState, intervals: seq<int>, ticks: seq<Tick>, k: nat)
    requires |s.last| == |intervals| && k < |ticks|
    ensures Before(s, intervals, ticks, k + 1) == Next(Before(s, intervals, ticks, k), intervals, ticks[k])
    ensures Trace(s, intervals, ticks)[k] == Pick(Before(s, intervals, ticks, k), intervals, ticks[k])
    ensures Trace(s, intervals, ticks)[k].Some? ==> Trace(s, intervals, ticks)[k].value < |intervals|
    ensures |Before(s, intervals, ticks, k).last| == |intervals|
  {
    assert ticks[..k + 1][..k] == ticks[..k];
    var b := Before(s, intervals, ticks, k);
    FirstDueIsFirst(b.last, intervals, ticks[k].clock, 0);
  }

  lemma {:induction false} ClockGrows(ticks: seq<Tick>, gap: int, k: nat, m: nat, j: nat)
    requires Timed(ticks, gap) && k < m < |ticks|
    ensures gap > 0
    ensures ticks[k].finish <= ticks[m].clock(j) <= ticks[k].clock(0) + (m - k) * gap
    ensures ticks[k].clock(0) <= ticks[k].finish
    decreases m
  {
    assert Forward(ticks[k]);
    assert ticks[m - 1].finish <= ticks[m].clock(j) <= ticks[m - 1].clock(0) + gap;
    if k + 1 < m {
      assert Forward(ticks[m - 1]);
      ClockGrows(ticks, gap, k, m - 1, 0);
      Distribute(m - 1 - k, gap);
    }
  }

  /** After a run that did not throw, the timestamp is at least that run's end. */
  lemma {:induction false} StampStays(
    s: LoopState, intervals: seq<int>, ticks: seq<Tick>, gap: int, j: nat, k: nat, m: nat)
    requires |s.last| == |intervals| && Timed(ticks, gap) && k < m < |ticks| && j < |intervals| && !ticks[k].throws
    requires Trace(s, intervals, ticks)[k] == Some(j)
    ensures var last := Before(s, intervals, ticks, m).last;
      |last| == |intervals| && last[j].Some? && last[j].value >= ticks[k].finish
    decreases m
  {
    hide Trace, Before, After, FirstDue;
    Iteration(s, intervals, ticks, m - 1);
    if k + 1 < m {
      StampStays(s, intervals, ticks, gap, j, k, m - 1);
      ClockGrows(ticks, gap, k, m - 1, 0);
      assert Forward(ticks[m - 1]);
    }
  }

  /** What an iteration completed: its activity, unless that threw. */
  ghost function Completed(s: LoopState, intervals: seq<int>, ticks: seq<Tick>): (r: seq<Option<nat>>)
    requires |s.last| == |intervals|
    ensures |r| == |ticks|
  {
    seq(|ticks|, k requires 0 <= k < |ticks| => if ticks[k].throws then None else Ran(s, intervals, ticks, k))
  }

  lemma RunsAreSpaced(s: LoopState, intervals: seq<int>, ticks: seq<Tick>, gap: int, j: nat, a: nat, b: nat)
    requires |s.last| == |intervals| && Timed(ticks, gap) && a <= b <= |ticks| && j < |intervals|
    ensures Spaced(Completed(s, intervals, ticks), j, Spacing(intervals[j], gap), a, b)
  {
    var trace := Completed(s, intervals, ticks);
    forall k, m | a <= k < m < b && trace[k] == Some(j) && trace[m] == Some(j)
      ensures m - k >= Spacing(intervals[j], gap)
    {
      RunsApart(s, intervals, ticks, gap, j, k, m);
    }
  }

  lemma RunsApart(s: LoopState, intervals: seq<int>, ticks: seq<Tick>, gap: int, j: nat, k: nat, m: nat)
    requires |s.last| == |intervals| && Timed(ticks, gap) && k < m < |ticks| && j < |intervals|
    requires Trace(s, intervals, ticks)[k] == Some(j) && Trace(s, intervals, ticks)[m] == Some(j) && !ticks[k].throws
    ensures m - k >= Spacing(intervals[j], gap)
  {
    hide Timed, Trace, Before, After, FirstDue;
    StampStays(s, intervals, ticks, gap, j, k, m);
    ClockGrows(ticks, gap, k, m, j);
    Iteration(s, intervals, ticks, m);
    FirstDueIsFirst(Before(s, intervals, ticks, m).last, intervals, ticks[m].clock, 0);
    SpacingIsNeeded(intervals[j], gap, m - k);
  }

  /** How often activity j may complete in `len` iterations. */
  function Quota(intervals: seq<int>, gap: int, j: nat, len: nat): nat
    requires gap > 0 && j < |intervals|
  {
    CeilDiv(len, Spacing(intervals[j], gap))
  }

  function QuotaBefore(intervals: seq<int>, gap: int, i: nat, len: nat): nat
    requires gap > 0 && i <= |intervals|
  {
    if i == 0 then 0 else QuotaBefore(intervals, gap, i - 1, len) + Quota(intervals, gap, i - 1, len)
  }

  /** How often activity j threw in the iterations from a to b. */
  ghost function Thrown(trace: seq<Option<nat>>, ticks: seq<Tick>, j: nat, a: nat, b: nat): nat
    requires a <= b <= |trace| == |ticks|
    decreases b
  {
    if a == b then 0
    else Thrown(trace, ticks, j, a, b - 1) + if trace[b - 1] == Some(j) && ticks[b - 1].throws then 1 else 0
  }

  ghost function ThrownBefore(trace: seq<Option<nat>>, ticks: seq<Tick>, i: nat, a: nat, b: nat): nat
    requires a <= b <= |trace| == |ticks|
  {
    if i == 0 then 0 else ThrownBefore(trace, ticks, i - 1, a, b) + Thrown(trace, ticks, i - 1, a, b)
  }

  lemma {:induction false} RunsAreCompletedOrThrown(
    s: LoopState, intervals: seq<int>, ticks: seq<Tick>, j: nat, a: nat, b: nat)
    requires |s.last| == |intervals| && a <= b <= |ticks|
    ensures Count(Trace(s, intervals, ticks), j, a, b) ==
            Count(Completed(s, intervals, ticks), j, a, b) + Thrown(Trace(s, intervals, ticks), ticks, j, a, b)
    decreases b
  {
    if a < b {
      RunsAreCompletedOrThrown(s, intervals, ticks, j, a, b - 1);
      hide Ran;
    }
  }

  /** In any window of iterations an activity runs at most its quota, plus once for every time it threw. */
  lemma RunsWithinQuota(s: LoopState, intervals: seq<int>, ticks: seq<Tick>, gap: int, j: nat, a: nat, b: nat)
    requires |s.last| == |intervals| && Timed(ticks, gap) && a <= b <= |ticks| && j < |intervals|
    ensures Count(Trace(s, intervals, ticks), j, a, b) <=
            Quota(intervals, gap, j, b - a) + Thrown(Trace(s, intervals, ticks), ticks, j, a, b)
  {
    RunsAreSpaced(s, intervals, ticks, gap, j, a, b);
    hide Completed, Trace, Spaced, Count, Thrown;
    SpacedCount(Completed(s, intervals, ticks), j, Spacing(intervals[j], gap), a, b);
    RunsAreCompletedOrThrown(s, intervals, ticks, j, a, b);
  }

  function CountBelow(trace: seq<Option<nat>>, i: nat, a: nat, b: nat): nat
    requires a <= b <= |trace|
  {
    if i == 0 then 0 else CountBelow(trace, i - 1, a, b) + Count(trace, i - 1, a, b)
  }

  lemma {:induction false} CountBelowStep(trace: seq<Option<nat>>, i: nat, a: nat, b: nat)
    requires a < b <= |trace|
    ensures CountBelow(trace, i, a, b) == CountBelow(trace, i, a, b - 1) +
                                          (if trace[b - 1].Some? && trace[b - 1].value < i then 1 else 0)
    decreases i
  {
    if i > 0 {
      CountBelowStep(trace, i - 1, a, b);
    }
  }

  lemma {:induction false} CountBelowEmpty(trace: seq<Option<nat>>, i: nat, a: nat)
    requires a <= |trace|
    ensures CountBelow(trace, i, a, a) == 0
    decreases i
  {
    if i > 0 {
      CountBelowEmpty(trace, i - 1, a);
    }
  }

  lemma {:induction false} FullWindow(trace: seq<Option<nat>>, i: nat, a: nat, b: nat)
    requires a <= b <= |trace|
    requires forall k :: a <= k < b ==> trace[k].Some? && trace[k].value < i
    ensures CountBelow(trace, i, a, b) == b - a
    decreases b
  {
    if a < b {
      FullWindow(trace, i, a, b - 1);
      CountBelowStep(trace, i, a, b);
    } else {
      CountBelowEmpty(trace, i, a);
    }
  }

  lemma {:induction false} BelowWithinQuota(
    s: LoopState, intervals: seq<int>, ticks: seq<Tick>, gap: int, i: nat, a: nat, b: nat)
    requires |s.last| == |intervals| && Timed(ticks, gap) && a <= b <= |ticks| && i <= |intervals|
    ensures CountBelow(Trace(s, intervals, ticks), i, a, b) <=
            QuotaBefore(intervals, gap, i, b - a) + ThrownBefore(Trace(s, intervals, ticks), ticks, i, a, b)
    decreases i
  {
    if i > 0 {
      hide Trace, Timed, Quota, Count, Thrown;
      BelowWithinQuota(s, intervals, ticks, gap, i - 1, a, b);
      RunsWithinQuota(s, intervals, ticks, gap, i - 1, a, b);
    }
  }

  /** Activity i is due at its own test of iteration k, and the agent is enrolled. */
  ghost predicate DueAt(s: LoopState, intervals: seq<int>, ticks: seq<Tick>, i: nat, k: nat)
    requires |s.last| == |intervals| && k < |ticks| && i < |intervals|
  {
    var b := Before(s, intervals, ticks, k);
    b.enrolled && Due(b.last[i], intervals[i], ticks[k].clock(i))
  }

  // ------------------------------------------------- when an activity runs

  /** The interval has passed, at i's own test of iteration k, since the end of i's last completed run. */
  ghost predicate Elapsed(ran: seq<Option<nat>>, ticks: seq<Tick>, i: nat, k: nat, interval: int)
    requires k < |ticks| == |ran|
  {
    forall n :: 0 <= n < k && LastEnd(ran, ticks, i, n, k) ==> ticks[k].clock(i) - ticks[n].finish >= interval
  }

  /** Of the iterations before k, n is the last in which i completed. */
  ghost predicate LastEnd(ran: seq<Option<nat>>, ticks: seq<Tick>, i: nat, n: nat, k: nat)
    requires n < k <= |ticks| == |ran|
  {
    ran[n] == Some(i) && !ticks[n].throws && forall m :: n < m < k && ran[m] == Some(i) ==> ticks[m].throws
  }

  ghost predicate EverEnrolled(enrolledAtStart: bool, ticks: seq<Tick>, k: nat)
    requires k <= |ticks|
  {
    enrolledAtStart || exists n :: 0 <= n < k && ticks[n].enrollOk
  }

  lemma LastEndGrows(ran: seq<Option<nat>>, ticks: seq<Tick>, i: nat, k: nat, n: nat)
    requires n <= k < |ticks| == |ran|
    ensures var completes := ran[k] == Some(i) && !ticks[k].throws;
      LastEnd(ran, ticks, i, n, k + 1) <==>
      if n == k then completes else !completes && LastEnd(ran, ticks, i, n, k)
  {
    if n < k && LastEnd(ran, ticks, i, n, k + 1) {
      assert ran[k] == Some(i) ==> ticks[k].throws;
    }
  }

  /** The stamp is the end of the last completed run, or None if there was none. */
  ghost predicate StampFits(ran: seq<Option<nat>>, ticks: seq<Tick>, i: nat, k: nat, stamp: Option<int>)
    requires k <= |ticks| == |ran|
  {
    && (stamp.None? ==> forall n :: 0 <= n < k ==> !LastEnd(ran, ticks, i, n, k))
    && (stamp.Some? ==> exists n :: 0 <= n < k && LastEnd(ran, ticks, i, n, k))
    && (forall n :: 0 <= n < k && LastEnd(ran, ticks, i, n, k) ==> stamp == Some(ticks[n].finish))
  }

  lemma StampFitsGrows(ran: seq<Option<nat>>, ticks: seq<Tick>, i: nat, k: nat, stamp: Option<int>)
    requires k < |ticks| == |ran| && StampFits(ran, ticks, i, k, stamp)
    ensures StampFits(ran, ticks, i, k + 1,
                      if ran[k] == Some(i) && !ticks[k].throws then Some(ticks[k].finish) else stamp)
  {
    hide LastEnd;
    var end := k + 1;
    forall n | 0 <= n < end
      ensures LastEnd(ran, ticks, i, n, end) <==>
                if n == k then ran[k] == Some(i) && !ticks[k].throws
                else !(ran[k] == Some(i) && !ticks[k].throws) && LastEnd(ran, ticks, i, n, k)
    {
      LastEndGrows(ran, ticks, i, k, n);
    }
    if ran[k] == Some(i) && !ticks[k].throws {
      assert LastEnd(ran, ticks, i, k, end);
    } else if stamp.Some? {
      var n :| 0 <= n < k && LastEnd(ran, ticks, i, n, k);
      assert LastEnd(ran, ticks, i, n, end);
    }
  }

  lemma NextStamp(s: LoopState, intervals: seq<int>, t: Tick, i: nat)
    requires |s.last| == |intervals| && i < |intervals|
    ensures var picked := Pick(s, intervals, t); var after := Next(s, intervals, t);
      && (after.enrolled <==> s.enrolled || t.enrollOk)
      && after.last[i] == if picked == Some(i) && !t.throws then Some(t.finish) else s.last[i]
  {
    FirstDueIsFirst(s.last, intervals, t.clock, 0);
    hide FirstDue;
  }

  /** What the state holds before iteration k, in terms of what has run. */
  lemma {:induction false} StampsAreEnds(s: LoopState, intervals: seq<int>, ticks: seq<Tick>, k: nat, i: nat)
    requires |s.last| == |intervals| && k <= |ticks| && i < |intervals| && s.last[i].None?
    ensures var b := Before(s, intervals, ticks, k);
      && |b.last| == |intervals| && (b.enrolled <==> EverEnrolled(s.enrolled, ticks, k))
      && StampFits(Trace(s, intervals, ticks), ticks, i, k, b.last[i])
  {
    hide Trace, Due, FirstDue, Next, Pick, StampFits;
    if k == 0 {
      assert ticks[..0] == [];
      NothingHasRun(Trace(s, intervals, ticks), ticks, i);
    } else {
      StampsAreEnds(s, intervals, ticks, k - 1, i);
      Iteration(s, intervals, ticks, k - 1);
      NextStamp(Before(s, intervals, ticks, k - 1), intervals, ticks[k - 1], i);
      StampFitsGrows(Trace(s, intervals, ticks), ticks, i, k - 1, Before(s, intervals, ticks, k - 1).last[i]);
    }
  }

  lemma NothingHasRun(ran: seq<Option<nat>>, ticks: seq<Tick>, i: nat)
    requires |ticks| == |ran|
    ensures StampFits(ran, ticks, i, 0, None)
  {
  }

  /** The main loop in terms of its own past: iteration k runs activity i if and only if the agent has been
      enrolled by then, the interval of i has passed since i last completed, and that of no earlier one has. */
  lemma RunsExactlyWhen(enrolledAtStart: bool, intervals: seq<int>, ticks: seq<Tick>, k: nat, i: nat)
    requires |intervals| == ACTIVITIES && k < |ticks| && i < ACTIVITIES
    ensures var ran := Trace(LoopState(enrolledAtStart, seq(ACTIVITIES, _ => None)), intervals, ticks);
      ran[k] == Some(i) <==>
      && EverEnrolled(enrolledAtStart, ticks, k) && Elapsed(ran, ticks, i, k, intervals[i])
      && forall j :: 0 <= j < i ==> !Elapsed(ran, ticks, j, k, intervals[j])
  {
    hide Trace, Before, LastEnd, EverEnrolled;
    var s := LoopState(enrolledAtStart, seq(ACTIVITIES, _ => None));
    Iteration(s, intervals, ticks, k);
    PickedExactlyWhen(Before(s, intervals, ticks, k), intervals, ticks[k], i);
    forall j | 0 <= j <= i
      ensures EverEnrolled(enrolledAtStart, ticks, k) == Before(s, intervals, ticks, k).enrolled
      ensures Elapsed(Trace(s, intervals, ticks), ticks, j, k, intervals[j]) <==>
              (var stamp := Before(s, intervals, ticks, k).last[j];
               stamp.None? || ticks[k].clock(j) - stamp.value >= intervals[j])
    {
      ElapsedIsDue(s, intervals, ticks, k, j);
    }
  }

  lemma ElapsedIsDue(s: LoopState, intervals: seq<int>, ticks: seq<Tick>, k: nat, i: nat)
    requires |s.last| == |intervals| && k < |ticks| && i < |intervals| && s.last[i].None?
    ensures var b := Before(s, intervals, ticks, k);
      && |b.last| == |intervals| && (b.enrolled <==> EverEnrolled(s.enrolled, ticks, k))
      && (Elapsed(Trace(s, intervals, ticks), ticks, i, k, intervals[i]) <==>
          b.last[i].None? || ticks[k].clock(i) - b.last[i].value >= intervals[i])
  {
    hide Trace, Before, EverEnrolled;
    StampsAreEnds(s, intervals, ticks, k, i);
  }

  lemma {:induction false} StampUntil(
    s: LoopState, intervals: seq<int>, ticks: seq<Tick>, i: nat, k: nat, m: nat)
    requires |s.last| == |intervals| && k < m <= |ticks| && i < |intervals|
    requires Trace(s, intervals, ticks)[k] == Some(i) && !ticks[k].throws
    requires forall n :: k < n < m ==> Trace(s, intervals, ticks)[n] != Some(i)
    ensures var b := Before(s, intervals, ticks, m);
      |b.last| == |intervals| && b.enrolled && b.last[i] == Some(ticks[k].finish)
    decreases m
  {
    hide Trace, Due, FirstDue, Next, Before;
    Iteration(s, intervals, ticks, m - 1);
    NextStamp(Before(s, intervals, ticks, m - 1), intervals, ticks[m - 1], i);
    if k + 1 < m {
      StampUntil(s, intervals, ticks, i, k, m - 1);
    }
  }

  lemma {:induction false} NotBefore(s: LoopState, intervals: seq<int>, ticks: seq<Tick>, i: nat, k: nat, m: nat)
    requires |s.last| == |intervals| && k < m <= |ticks| && i < |intervals|
    requires Trace(s, intervals, ticks)[k] == Some(i) && !ticks[k].throws
    requires forall n :: k < n < m ==> ticks[n].clock(i) - ticks[k].finish < intervals[i]
    ensures forall n :: k < n < m ==> Trace(s, intervals, ticks)[n] != Some(i)
    decreases m
  {
    hide Trace, Due, FirstDue, Next, Before;
    if k + 1 < m {
      NotBefore(s, intervals, ticks, i, k, m - 1);
      StampUntil(s, intervals, ticks, i, k, m - 1);
      Iteration(s, intervals, ticks, m - 1);
      PickedExactlyWhen(Before(s, intervals, ticks, m - 1), intervals, ticks[m - 1], i);
    }
  }

  /** The other side of the quota: after a completed run at k, activity i does not run again before the first
      iteration m at which its interval has passed, and does within `len` iterations from there whenever the
      quotas of those before it, and the times they throw, add up to less than `len`. */
  lemma RunsAgain(
    s: LoopState, intervals: seq<int>, ticks: seq<Tick>, gap: int, i: nat, k: nat, m: nat, len: nat)
    requires |s.last| == |intervals| && Timed(ticks, gap) && i < |intervals|
    requires k < m && len > 0 && m + len <= |ticks|
    requires Trace(s, intervals, ticks)[k] == Some(i) && !ticks[k].throws
    requires forall n :: k < n < m ==> ticks[n].clock(i) - ticks[k].finish < intervals[i]
    requires ticks[m].clock(i) - ticks[k].finish >= intervals[i]
    requires QuotaBefore(intervals, gap, i, len) + ThrownBefore(Trace(s, intervals, ticks), ticks, i, m, m + len) < len
    ensures forall n :: k < n < m ==> Trace(s, intervals, ticks)[n] != Some(i)
    ensures exists n :: m <= n < m + len && Trace(s, intervals, ticks)[n] == Some(i)
  {
    hide Trace, Timed, Before, ThrownBefore, QuotaBefore;
    NotBefore(s, intervals, ticks, i, k, m);
    StampUntil(s, intervals, ticks, i, k, m);
    NoStarvation(s, intervals, ticks, gap, i, m, len);
  }

  /** An activity that is due stays due from one iteration to the next, unless it completes. */
  lemma DueStays(s: LoopState, intervals: seq<int>, ticks: seq<Tick>, gap: int, i: nat, k: nat)
    requires |s.last| == |intervals| && Timed(ticks, gap) && k + 1 < |ticks| && i < |intervals|
    requires DueAt(s, intervals, ticks, i, k)
    requires Trace(s, intervals, ticks)[k] == Some(i) ==> ticks[k].throws
    ensures DueAt(s, intervals, ticks, i, k + 1)
  {
    Iteration(s, intervals, ticks, k);
    assert Forward(ticks[k]);
    assert ticks[k].finish <= ticks[k + 1].clock(i);
  }

  lemma DueIsNotPassed(s: LoopState, intervals: seq<int>, ticks: seq<Tick>, i: nat, k: nat)
    requires |s.last| == |intervals| && k < |ticks| && i < |intervals| && DueAt(s, intervals, ticks, i, k)
    ensures Trace(s, intervals, ticks)[k].Some? && Trace(s, intervals, ticks)[k].value <= i
  {
    Iteration(s, intervals, ticks, k);
    FirstDueIsFirst(Before(s, intervals, ticks, k).last, intervals, ticks[k].clock, 0);
  }

  /** While an activity is due and does not complete it stays due, and nothing after it runs. */
  lemma {:induction false} WaitingIsOvertaken(
    s: LoopState, intervals: seq<int>, ticks: seq<Tick>, gap: int, i: nat, a: nat, k: nat)
    requires |s.last| == |intervals| && Timed(ticks, gap) && a <= k < |ticks| && i < |intervals|
    requires DueAt(s, intervals, ticks, i, a)
    requires forall m :: a <= m <= k && Trace(s, intervals, ticks)[m] == Some(i) ==> ticks[m].throws
    ensures DueAt(s, intervals, ticks, i, k)
    ensures Trace(s, intervals, ticks)[k].Some? && Trace(s, intervals, ticks)[k].value <= i
    decreases k
  {
    hide DueAt, Trace, Timed;
    if a < k {
      WaitingIsOvertaken(s, intervals, ticks, gap, i, a, k - 1);
      DueStays(s, intervals, ticks, gap, i, k - 1);
    }
    DueIsNotPassed(s, intervals, ticks, i, k);
  }

  lemma AllOvertaken(s: LoopState, intervals: seq<int>, ticks: seq<Tick>, gap: int, i: nat, a: nat, len: nat)
    requires |s.last| == |intervals| && Timed(ticks, gap) && i < |intervals|
    requires len > 0 && a + len <= |ticks| && DueAt(s, intervals, ticks, i, a)
    requires forall k :: a <= k < a + len ==> Trace(s, intervals, ticks)[k] != Some(i)
    ensures forall k :: a <= k < a + len ==>
              Trace(s, intervals, ticks)[k].Some? && Trace(s, intervals, ticks)[k].value < i
  {
    hide Trace, Timed, DueAt;
    forall k | a <= k < a + len
      ensures Trace(s, intervals, ticks)[k].Some? && Trace(s, intervals, ticks)[k].value < i
    {
      WaitingIsOvertaken(s, intervals, ticks, gap, i, a, k);
    }
  }

  /** No starvation: once due, activity i runs within `len` iterations whenever the quotas of the activities
      before it, and the times they throw in those iterations, add up to less than `len`. */
  lemma NoStarvation(s: LoopState, intervals: seq<int>, ticks: seq<Tick>, gap: int, i: nat, a: nat, len: nat)
    requires |s.last| == |intervals| && Timed(ticks, gap) && i < |intervals|
    requires len > 0 && a + len <= |ticks| && DueAt(s, intervals, ticks, i, a)
    requires QuotaBefore(intervals, gap, i, len) + ThrownBefore(Trace(s, intervals, ticks), ticks, i, a, a + len) < len
    ensures exists k :: a <= k < a + len && Trace(s, intervals, ticks)[k] == Some(i)
  {
    hide *;
    var trace := Trace(s, intervals, ticks);
    if forall k :: a <= k < a + len ==> trace[k] != Some(i) {
      AllOvertaken(s, intervals, ticks, gap, i, a, len);
      FullWindow(trace, i, a, a + len);
      BelowWithinQuota(s, intervals, ticks, gap, i, a, a + len);
    }
  }

  /** Intervals of AgentSettings.cs (seconds), in the order of the chain. */
  const DEFAULT_INTERVALS: seq<int> := [30, 15, 300, 300, 60, 1800, 3600]

  /** With the default settings and activities that take no time (one start every 5 seconds), everything
      that is due runs within 11 iterations, as long as nothing before it throws. */
  lemma DefaultsServeEveryoneWithinElevenTicks(s: LoopState, ticks: seq<Tick>, i: nat, a: nat)
    requires |s.last| == ACTIVITIES && Timed(ticks, 5) && i < ACTIVITIES
    requires a + 11 <= |ticks| && DueAt(s, DEFAULT_INTERVALS, ticks, i, a)
    requires ThrownBefore(Trace(s, DEFAULT_INTERVALS, ticks), ticks, i, a, a + 11) == 0
    ensures exists k :: a <= k < a + 11 && Trace(s, DEFAULT_INTERVALS, ticks)[k] == Some(i)
  {
    DefaultQuota(i);
    NoStarvation(s, DEFAULT_INTERVALS, ticks, 5, i, a, 11);
  }

  lemma {:induction false} DefaultQuota(i: nat)
    requires i < ACTIVITIES
    ensures QuotaBefore(DEFAULT_INTERVALS, 5, i, 11) < 11
  {
    assert QuotaBefore(DEFAULT_INTERVALS, 5, 1, 11) == 2;
    assert QuotaBefore(DEFAULT_INTERVALS, 5, 2, 11) == 6;
    assert QuotaBefore(DEFAULT_INTERVALS, 5, 3, 11) == 7;
    assert QuotaBefore(DEFAULT_INTERVALS, 5, 4, 11) == 8;
    assert QuotaBefore(DEFAULT_INTERVALS, 5, 5, 11) == 9;
    assert QuotaBefore(DEFAULT_INTERVALS, 5, 6, 11) == 10;
  }
}
