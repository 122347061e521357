/**
  The bounded pool of port probes (backend/services/ipAddresses.service.js:188-231). Probes settle in any
  order; a settled probe first adds its result and only later, in its `finally`, leaves the pool.
 */
module PortScan {
  import opened Common
  import opened Sorting

  datatype Probe = Probe(port: int, open: bool)

  datatype Pool = Pool(
    concurrency: int,
    queue: seq<int>,
    running: int,
    probing: set<int>,     // started, not settled
    finishing: set<int>,   // result added, not yet left
    results: seq<Probe>,
    resolved: bool)

  datatype Event = Settles(port: int, open: bool) | Leaves(port: int)

  /** Shift a port off the queue and start its probe. */
  function StartOne(p: Pool): Pool
    requires p.queue != []
  {
    p.(queue := p.queue[1..], running := p.running + 1, probing := p.probing + {p.queue[0]})
  }

  function Fill(p: Pool): Pool
    decreases |p.queue|
  {
    if p.running < p.concurrency && p.queue != [] then Fill(StartOne(p)) else p
  }

  function Kick(p: Pool): Pool {
    if p.queue == [] && p.running == 0 then p.(resolved := true) else Fill(p)
  }

  function Begin(ports: seq<int>, concurrency: int): Pool {
    Kick(Pool(concurrency, ports, 0, {}, {}, [], false))
  }

  function Step(p: Pool, e: Event): Pool {
    match e
    case Settles(port, open) =>
      if port in p.probing then
        p.(probing := p.probing - {port}, finishing := p.finishing + {port}, results := p.results + [Probe(port, open)])
      else p
    case Leaves(port) =>
      if port in p.finishing then Kick(p.(finishing := p.finishing - {port}, running := p.running - 1)) else p
  }

  function Run(ports: seq<int>, concurrency: int, es: seq<Event>): Pool {
    if es == [] then Begin(ports, concurrency) else Step(Run(ports, concurrency, es[..|es| - 1]), es[|es| - 1])
  }

  // --------------------------------------------------------------- invariant

  function PortsOf(results: seq<Probe>): seq<int> {
    if results == [] then [] else PortsOf(results[..|results| - 1]) + [results[|results| - 1].port]
  }

  /** Every port is in exactly one place: waiting, being probed, or in the results, and there once. */
  ghost predicate Accounted(p: Pool, ports: seq<int>) {
    multiset(p.queue) + multiset(p.probing) + multiset(PortsOf(p.results)) == multiset(ports)
  }

  ghost predicate Counted(p: Pool) {
    p.probing !! p.finishing && p.running == |p.probing| + |p.finishing|
  }

  /** Never more than `concurrency` probes, and never fewer while ports wait. */
  ghost predicate Busy(p: Pool) {
    p.running <= p.concurrency && (p.queue != [] ==> p.running == p.concurrency)
  }

  ghost predicate FinishingHaveResults(p: Pool) {
    forall port :: port in p.finishing ==> port in PortsOf(p.results)
  }

  ghost predicate Sound(p: Pool, ports: seq<int>) {
    && Accounted(p, ports) && Counted(p) && Busy(p)
    && FinishingHaveResults(p)
    && (p.resolved <==> p.queue == [] && p.running == 0)
  }

  lemma {:induction false} OnceEach(ports: seq<int>, port: int)
    requires NoDuplicates(ports)
    ensures multiset(ports)[port] <= 1
  {
    if ports != [] {
      var front, last := ports[..|ports| - 1], ports[|ports| - 1];
      assert ports == front + [last];
      OnceEach(front, port);
      if port == last {
        assert port !in front;
      }
    }
  }

  /** The head of the queue is in no other place. */
  lemma HeadIsElsewhereNot(p: Pool, ports: seq<int>)
    requires Accounted(p, ports) && NoDuplicates(ports) && p.queue != []
    ensures p.queue[0] !in p.probing && p.queue[0] !in PortsOf(p.results)
  {
    OnceEach(ports, p.queue[0]);
    assert p.queue[0] in multiset(p.queue);
  }

  lemma NoResultNotFinishing(p: Pool, port: int)
    requires FinishingHaveResults(p) && port !in PortsOf(p.results)
    ensures port !in p.finishing
  {
  }

  lemma StartOneIsSound(p: Pool, ports: seq<int>)
    requires Accounted(p, ports) && NoDuplicates(ports) && p.queue != []
    ensures Accounted(StartOne(p), ports) && |StartOne(p).probing| == |p.probing| + 1
    ensures Counted(p) && FinishingHaveResults(p) ==> Counted(StartOne(p))
  {
    var q := StartOne(p);
    HeadIsElsewhereNot(p, ports);
    assert p.queue == [p.queue[0]] + q.queue;
    assert multiset(q.probing) == multiset(p.probing) + multiset{p.queue[0]};
    if Counted(p) && FinishingHaveResults(p) {
      NoResultNotFinishing(p, p.queue[0]);
    }
  }

  lemma {:induction false} FillIsSound(p: Pool, ports: seq<int>)
    requires Accounted(p, ports) && Counted(p) && FinishingHaveResults(p) && NoDuplicates(ports)
    requires p.running <= p.concurrency
    ensures var f := Fill(p);
      && Accounted(f, ports) && Counted(f) && Busy(f) && FinishingHaveResults(f)
      && f.concurrency == p.concurrency && f.results == p.results && f.resolved == p.resolved && f.running >= p.running
      && (p.queue != [] && p.running < p.concurrency ==> f.running > p.running)
    decreases |p.queue|
  {
    hide Accounted, Counted, NoDuplicates;
    if p.running < p.concurrency && p.queue != [] {
      StartOneIsSound(p, ports);
      FillIsSound(StartOne(p), ports);
    }
  }

  lemma CountsAreNatural(p: Pool)
    requires Counted(p)
    ensures p.running >= 0
  {
  }

  lemma KickIsSound(p: Pool, ports: seq<int>)
    requires Accounted(p, ports) && Counted(p) && FinishingHaveResults(p) && NoDuplicates(ports)
    requires p.running <= p.concurrency && 1 <= p.concurrency && !p.resolved
    ensures Sound(Kick(p), ports) && Kick(p).concurrency == p.concurrency
  {
    hide NoDuplicates, Fill;
    CountsAreNatural(p);
    if !(p.queue == [] && p.running == 0) {
      FillIsSound(p, ports);
    }
  }

  lemma SettleIsSound(p: Pool, ports: seq<int>, port: int, open: bool)
    requires Sound(p, ports) && NoDuplicates(ports) && port in p.probing
    ensures Sound(Step(p, Settles(port, open)), ports)
  {
    var q := Step(p, Settles(port, open));
    assert q.results[..|p.results|] == p.results;
    assert PortsOf(q.results) == PortsOf(p.results) + [port];
    assert multiset(p.probing) == multiset(q.probing) + multiset{port};
    assert |q.probing| == |p.probing| - 1 && |q.finishing| == |p.finishing| + 1;
  }

  lemma StepIsSound(p: Pool, ports: seq<int>, e: Event)
    requires Sound(p, ports) && NoDuplicates(ports) && 1 <= p.concurrency
    ensures Sound(Step(p, e), ports) && Step(p, e).concurrency == p.concurrency
  {
    hide Kick, Accounted;
    match e
    case Settles(port, open) =>
      if port in p.probing {
        SettleIsSound(p, ports, port, open);
      }
    case Leaves(port) =>
      if port in p.finishing {
        var q := p.(finishing := p.finishing - {port}, running := p.running - 1);
        SamePlaces(p, q, ports);
        KickIsSound(q, ports);
      }
  }

  lemma SamePlaces(p: Pool, q: Pool, ports: seq<int>)
    requires q.queue == p.queue && q.probing == p.probing && q.results == p.results
    ensures Accounted(p, ports) ==> Accounted(q, ports)
  {
  }

  /** In every order of completion: at most `concurrency` probes at once and exactly that many while ports
      wait; every port waits, is probed or has its result, once; and the scan resolves exactly when all
      have left. */
  lemma {:induction false} EveryRunIsSound(ports: seq<int>, concurrency: int, es: seq<Event>)
    requires NoDuplicates(ports) && 1 <= concurrency
    ensures Sound(Run(ports, concurrency, es), ports) && Run(ports, concurrency, es).concurrency == concurrency
  {
    if es == [] {
      var p := Pool(concurrency, ports, 0, {}, {}, [], false);
      assert Accounted(p, ports);
      KickIsSound(p, ports);
    } else {
      hide Sound;
      EveryRunIsSound(ports, concurrency, es[..|es| - 1]);
      StepIsSound(Run(ports, concurrency, es[..|es| - 1]), ports, es[|es| - 1]);
    }
  }

  /** When the scan resolves, the results are those of all ports, each once. */
  lemma ResolvedIsComplete(ports: seq<int>, concurrency: int, es: seq<Event>)
    requires NoDuplicates(ports) && 1 <= concurrency && Run(ports, concurrency, es).resolved
    ensures multiset(PortsOf(Run(ports, concurrency, es).results)) == multiset(ports)
    ensures |Run(ports, concurrency, es).results| == |ports|
  {
    EveryRunIsSound(ports, concurrency, es);
    var p := Run(ports, concurrency, es);
    assert p.probing == {} && p.queue == [];
    PortsOfLength(p.results);
    assert |multiset(PortsOf(p.results))| == |PortsOf(p.results)| && |multiset(ports)| == |ports|;
  }

  lemma {:induction false} PortsOfLength(results: seq<Probe>)
    ensures |PortsOf(results)| == |results|
  {
    if results != [] {
      PortsOfLength(results[..|results| - 1]);
    }
  }

  // ----------------------------------------------------------------- progress

  predicate Enabled(p: Pool, e: Event) {
    match e
    case Settles(port, _) => port in p.probing
    case Leaves(port) => port in p.finishing
  }

  /** The events still to come: two for every port that has not settled, one for every probe that has not left. */
  function Remaining(p: Pool): nat {
    2 * (|p.queue| + |p.probing|) + |p.finishing|
  }

  lemma {:induction false} FillKeepsRemaining(p: Pool, ports: seq<int>)
    requires Accounted(p, ports) && NoDuplicates(ports)
    ensures Remaining(Fill(p)) == Remaining(p)
    decreases |p.queue|
  {
    if p.running < p.concurrency && p.queue != [] {
      StartOneIsSound(p, ports);
      FillKeepsRemaining(StartOne(p), ports);
    }
  }

  lemma StepLowersRemaining(p: Pool, ports: seq<int>, e: Event)
    requires Sound(p, ports) && NoDuplicates(ports) && Enabled(p, e)
    ensures Remaining(Step(p, e)) == Remaining(p) - 1
  {
    match e
    case Settles(port, open) =>
      var q := Step(p, e);
      assert |q.probing| == |p.probing| - 1 && |q.finishing| == |p.finishing| + 1;
    case Leaves(port) =>
      var q := p.(finishing := p.finishing - {port}, running := p.running - 1);
      assert |q.finishing| == |p.finishing| - 1;
      FillKeepsRemaining(q, ports);
  }

  ghost predicate AllEnabled(ports: seq<int>, concurrency: int, es: seq<Event>) {
    es == [] ||
    (AllEnabled(ports, concurrency, es[..|es| - 1]) && Enabled(Run(ports, concurrency, es[..|es| - 1]), es[|es| - 1]))
  }

  lemma {:induction false} RemainingCountsDown(ports: seq<int>, concurrency: int, es: seq<Event>)
    requires NoDuplicates(ports) && 1 <= concurrency && AllEnabled(ports, concurrency, es)
    ensures Remaining(Run(ports, concurrency, es)) == 2 * |ports| - |es|
  {
    if es == [] {
      var p := Pool(concurrency, ports, 0, {}, {}, [], false);
      assert Accounted(p, ports);
      FillKeepsRemaining(p, ports);
    } else {
      hide Step, Remaining;
      var front := es[..|es| - 1];
      RemainingCountsDown(ports, concurrency, front);
      EveryRunIsSound(ports, concurrency, front);
      StepLowersRemaining(Run(ports, concurrency, front), ports, es[|es| - 1]);
    }
  }

  /** Work never stalls: until the scan resolves some probe is running, and the scan resolves after exactly
      two events for every port, in whatever order they come. */
  lemma ResolvesAfterEveryProbe(ports: seq<int>, concurrency: int, es: seq<Event>)
    requires NoDuplicates(ports) && 1 <= concurrency && AllEnabled(ports, concurrency, es)
    ensures var p := Run(ports, concurrency, es);
      && (!p.resolved ==> p.probing + p.finishing != {})
      && (p.resolved <==> |es| == 2 * |ports|)
  {
    EveryRunIsSound(ports, concurrency, es);
    RemainingCountsDown(ports, concurrency, es);
    var p := Run(ports, concurrency, es);
    if p.probing + p.finishing == {} {
      assert p.probing == {} && p.finishing == {};
    }
  }

  /** Without room for a single probe nothing is ever started, and the scan of a non-empty list never
      resolves; together with the above, it can resolve exactly when the concurrency is at least 1. */
  lemma {:induction false} NoRoomNeverResolves(ports: seq<int>, concurrency: int, es: seq<Event>)
    requires ports != [] && concurrency <= 0
    ensures Run(ports, concurrency, es) == Pool(concurrency, ports, 0, {}, {}, [], false)
  {
    if es != [] {
      NoRoomNeverResolves(ports, concurrency, es[..|es| - 1]);
    }
  }

  // --------------------------------------------------------------- the answer

  datatype Answer = Answer(scanned: nat, openCount: nat, open: seq<Probe>)

  function OpenOf(results: seq<Probe>): seq<Probe> {
    if results == [] then []
    else
      var front, last := OpenOf(results[..|results| - 1]), results[|results| - 1];
      if last.open then front + [last] else front
  }

  predicate PortOrder(a: Probe, b: Probe) { a.port <= b.port }

  function AnswerOf(p: Pool): Answer {
    Answer(|p.results|, |OpenOf(p.results)|, Sort(OpenOf(p.results), PortOrder))
  }

  /** The open ones of a list of ports, in its order. */
  function OpenPorts(ports: seq<int>, up: int -> bool): seq<Probe> {
    if ports == [] then []
    else
      var front, last := OpenPorts(ports[..|ports| - 1], up), ports[|ports| - 1];
      if up(last) then front + [Probe(last, true)] else front
  }

  ghost predicate AllOpen(s: seq<Probe>) {
    forall q :: q in s ==> q.open
  }

  lemma AllOpenDistinguish(s: seq<Probe>)
    requires AllOpen(s)
    ensures Distinguished(s, PortOrder)
  {
  }

  lemma {:induction false} OpenCounts(results: seq<Probe>, q: Probe)
    ensures multiset(OpenOf(results))[q] == if q.open then multiset(results)[q] else 0
  {
    if results != [] {
      OpenCounts(results[..|results| - 1], q);
      assert results == results[..|results| - 1] + [results[|results| - 1]];
    }
  }

  /** Every probe says what is true of its port. */
  ghost predicate Truthful(results: seq<Probe>, up: int -> bool) {
    forall i :: 0 <= i < |results| ==> results[i].open == up(results[i].port)
  }

  lemma {:induction false} PortCounts(results: seq<Probe>, up: int -> bool, port: int)
    requires Truthful(results, up)
    ensures multiset(results)[Probe(port, up(port))] == multiset(PortsOf(results))[port]
    ensures multiset(results)[Probe(port, !up(port))] == 0
  {
    if results != [] {
      PortCounts(results[..|results| - 1], up, port);
      assert results == results[..|results| - 1] + [results[|results| - 1]];
    }
  }

  lemma {:induction false} OpenPortsCount(ports: seq<int>, up: int -> bool, q: Probe)
    ensures multiset(OpenPorts(ports, up))[q] == if q.open && up(q.port) then multiset(ports)[q.port] else 0
  {
    if ports != [] {
      OpenPortsCount(ports[..|ports| - 1], up, q);
      assert ports == ports[..|ports| - 1] + [ports[|ports| - 1]];
    }
  }

  lemma {:induction false} OpenPortsSorted(ports: seq<int>, up: int -> bool)
    requires Ascending(ports)
    ensures Sorted(OpenPorts(ports, up), PortOrder) && AllOpen(OpenPorts(ports, up))
    ensures forall q :: q in OpenPorts(ports, up) ==> q.port in ports
  {
    if ports != [] {
      var front, last := ports[..|ports| - 1], ports[|ports| - 1];
      OpenPortsSorted(front, up);
      assert forall p :: p in front ==> p < last;
    }
  }

  ghost predicate EventsTruthful(es: seq<Event>, up: int -> bool) {
    forall i :: 0 <= i < |es| ==> es[i].Settles? ==> es[i].open == up(es[i].port)
  }

  lemma {:induction false} FillKeepsResults(p: Pool)
    ensures Fill(p).results == p.results
    decreases |p.queue|
  {
    if p.running < p.concurrency && p.queue != [] {
      FillKeepsResults(StartOne(p));
    }
  }

  lemma {:induction false} ResultsTruthful(ports: seq<int>, concurrency: int, es: seq<Event>, up: int -> bool)
    requires EventsTruthful(es, up)
    ensures Truthful(Run(ports, concurrency, es).results, up)
  {
    if es == [] {
      FillKeepsResults(Pool(concurrency, ports, 0, {}, {}, [], false));
    } else {
      var front, e := es[..|es| - 1], es[|es| - 1];
      ResultsTruthful(ports, concurrency, front, up);
      var p := Run(ports, concurrency, front);
      if e.Leaves? && e.port in p.finishing {
        FillKeepsResults(p.(finishing := p.finishing - {e.port}, running := p.running - 1));
      }
    }
  }

  lemma AscendingIsDistinct(ports: seq<int>)
    requires Ascending(ports)
    ensures NoDuplicates(ports)
  {
  }

  lemma SameOpen(results: seq<Probe>, ports: seq<int>, up: int -> bool)
    requires Truthful(results, up) && multiset(PortsOf(results)) == multiset(ports)
    ensures multiset(OpenOf(results)) == multiset(OpenPorts(ports, up))
  {
    forall q: Probe
      ensures multiset(OpenOf(results))[q] == multiset(OpenPorts(ports, up))[q]
    {
      OpenCounts(results, q);
      PortCounts(results, up, q.port);
      OpenPortsCount(ports, up, q);
    }
  }

  /** What a scan answers does not depend on how many probes ran at once or in which order they ended: the
      open ports of the list, in ascending order, out of exactly as many results as there are ports. */
  lemma AnswerIsTheOpenPorts(ports: seq<int>, concurrency: int, es: seq<Event>, up: int -> bool)
    requires Ascending(ports) && 1 <= concurrency && EventsTruthful(es, up) && Run(ports, concurrency, es).resolved
    ensures AnswerOf(Run(ports, concurrency, es)) == Answer(|ports|, |OpenPorts(ports, up)|, OpenPorts(ports, up))
  {
    var results := Run(ports, concurrency, es).results;
    AscendingIsDistinct(ports);
    ResolvedIsComplete(ports, concurrency, es);
    ResultsTruthful(ports, concurrency, es, up);
    SameOpen(results, ports, up);
    hide Run, PortsOf;
    SortSorts(OpenOf(results), PortOrder);
    OpenPortsSorted(ports, up);
    AllOpenDistinguish(OpenPorts(ports, up));
    OrderIsUnique(OpenPorts(ports, up), Sort(OpenOf(results), PortOrder), PortOrder);
    SameMembers(OpenOf(results), OpenPorts(ports, up));
  }

  // ------------------------------------------------------------ the scanner

  class Scanner {
    const concurrency: int
    var queue: seq<int>
    var running: int
    var probing: set<int>
    var finishing: set<int>
    var results: seq<Probe>
    var resolved: bool

    ghost function State(): Pool reads this {
      Pool(concurrency, queue, running, probing, finishing, results, resolved)
    }

    constructor (portList: seq<int>, concurrency: int)
      ensures State() == Begin(portList, concurrency)
    {
      this.concurrency := concurrency;
      queue, running, probing, finishing, results, resolved := portList, 0, {}, {}, [], false;
      new;
      DoKick();
    }

    method DoKick()
      modifies this
      ensures State() == Kick(old(State()))
    {
      if queue == [] && running == 0 {
        resolved := true;
        return;
      }
      while running < concurrency && queue != []
        invariant Fill(State()) == Fill(old(State()))
        decreases |queue|
      {
        var port := queue[0];
        queue, running, probing := queue[1..], running + 1, probing + {port};
      }
    }

    method OnSettled(port: int, open: bool)
      requires port in probing
      modifies this
      ensures State() == Step(old(State()), Settles(port, open))
    {
      probing, finishing, results := probing - {port}, finishing + {port}, results + [Probe(port, open)];
    }

    method OnLeft(port: int)
      requires port in finishing
      modifies this
      ensures State() == Step(old(State()), Leaves(port))
    {
      finishing, running := finishing - {port}, running - 1;
      DoKick();
    }

    method Report() returns (a: Answer)
      ensures a == AnswerOf(State())
    {
      var found := OpenOf(results);
      return Answer(|results|, |found|, Sort(found, PortOrder));
    }
  }
}
