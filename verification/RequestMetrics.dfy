/**
  The sliding window of recent requests (backend/utils/requestMetrics.js:1-76). Times are milliseconds of a
  clock that does not run backwards; durations and averages are reals.
 */
module RequestMetrics {
  import opened Common
  import opened Sorting

  const WINDOW_MS := 300000

  datatype Request = Request(ts: int, route: string, status: int, durationMs: real)

  // ------------------------------------------------------------------- window

  /** The requests from `cutoff` on. */
  function Recent(events: seq<Request>, cutoff: int): seq<Request> {
    if events == [] then []
    else
      var front, last := Recent(events[..|events| - 1], cutoff), events[|events| - 1];
      if last.ts >= cutoff then front + [last] else front
  }

  ghost predicate InOrder(events: seq<Request>) {
    forall i, j :: 0 <= i < j < |events| ==> events[i].ts <= events[j].ts
  }

  lemma {:induction false} RecentTwice(events: seq<Request>, c1: int, c2: int)
    requires c1 <= c2
    ensures Recent(Recent(events, c1), c2) == Recent(events, c2)
  {
    if events != [] {
      var front, last := events[..|events| - 1], events[|events| - 1];
      RecentTwice(front, c1, c2);
      var r := Recent(front, c1);
      assert (r + [last])[..|r|] == r;
    }
  }

  lemma PrefixInOrder(events: seq<Request>, i: nat)
    requires InOrder(events) && i < |events|
    ensures InOrder(events[..|events| - 1]) && events[i].ts <= events[|events| - 1].ts
  {
  }

  /** In a log that is in order, what is recent is what follows the old prefix. */
  lemma {:induction false} RecentIsSuffix(events: seq<Request>, cutoff: int, i: nat)
    requires InOrder(events) && i <= |events|
    requires forall k :: 0 <= k < i ==> events[k].ts < cutoff
    requires i < |events| ==> events[i].ts >= cutoff
    ensures Recent(events, cutoff) == events[i..]
  {
    hide InOrder;
    if events != [] {
      var front, last := events[..|events| - 1], events[|events| - 1];
      PrefixInOrder(events, if i < |events| then i else 0);
      if i == |events| {
        RecentIsSuffix(front, cutoff, i - 1);
      } else {
        RecentIsSuffix(front, cutoff, i);
        assert events[i..] == front[i..] + [last];
      }
    }
  }

  lemma {:induction false} RecentInOrder(events: seq<Request>, cutoff: int)
    requires InOrder(events)
    ensures InOrder(Recent(events, cutoff))
    ensures forall r :: r in Recent(events, cutoff) <==> r in events && r.ts >= cutoff
  {
    if events != [] {
      var front, last := events[..|events| - 1], events[|events| - 1];
      RecentInOrder(front, cutoff);
      assert events == front + [last];
      forall r | r in Recent(front, cutoff)
        ensures r.ts <= last.ts
      {
        var k :| 0 <= k < |front| && front[k] == r;
        assert events[k] == r;
      }
    }
  }

  // ------------------------------------------------------------------ the sums

  function Errors(events: seq<Request>): nat {
    if events == [] then 0 else Errors(events[..|events| - 1]) + if events[|events| - 1].status >= 500 then 1 else 0
  }

  function TotalMs(events: seq<Request>): real {
    if events == [] then 0.0 else TotalMs(events[..|events| - 1]) + events[|events| - 1].durationMs
  }

  function OnRoute(events: seq<Request>, route: string): seq<Request> {
    if events == [] then []
    else
      var front, last := OnRoute(events[..|events| - 1], route), events[|events| - 1];
      if last.route == route then front + [last] else front
  }

  datatype Aggregate = Aggregate(count: nat, totalMs: real, errors: nat)

  function AggregateOf(events: seq<Request>): Aggregate {
    Aggregate(|events|, TotalMs(events), Errors(events))
  }

  /** The per-route totals after a loop over the requests; every route is set when it is first met. */
  ghost predicate IsPerRoute(perRoute: map<string, Aggregate>, events: seq<Request>) {
    forall route :: (route in perRoute <==> OnRoute(events, route) != []) &&
                    (route in perRoute ==> perRoute[route] == AggregateOf(OnRoute(events, route)))
  }

  lemma OnRouteGrows(events: seq<Request>, e: Request, route: string)
    ensures OnRoute(events + [e], route) ==
            if e.route == route then OnRoute(events, route) + [e] else OnRoute(events, route)
  {
    assert (events + [e])[..|events|] == events;
  }

  lemma AggregateGrows(events: seq<Request>, e: Request)
    ensures var a := AggregateOf(events);
      AggregateOf(events + [e]) ==
        Aggregate(a.count + 1, a.totalMs + e.durationMs, a.errors + if e.status >= 500 then 1 else 0)
  {
    assert (events + [e])[..|events|] == events;
  }

  function Added(perRoute: map<string, Aggregate>, e: Request): map<string, Aggregate> {
    var a := if e.route in perRoute then perRoute[e.route] else Aggregate(0, 0.0, 0);
    perRoute[e.route := Aggregate(a.count + 1, a.totalMs + e.durationMs, a.errors + if e.status >= 500 then 1 else 0)]
  }

  lemma AddedIsPerRoute(perRoute: map<string, Aggregate>, events: seq<Request>, e: Request)
    requires IsPerRoute(perRoute, events)
    ensures IsPerRoute(Added(perRoute, e), events + [e])
  {
    hide OnRoute, AggregateOf;
    var added := Added(perRoute, e);
    forall route
      ensures route in added <==> OnRoute(events + [e], route) != []
      ensures route in added ==> added[route] == AggregateOf(OnRoute(events + [e], route))
    {
      OnRouteGrows(events, e, route);
      AggregateGrows(OnRoute(events, route), e);
      NothingYet();
    }
  }

  lemma StartsEmpty()
    ensures IsPerRoute(map[], [])
  {
  }

  lemma NothingYet()
    ensures AggregateOf([]) == Aggregate(0, 0.0, 0)
  {
  }

  /** The counts of a sequence of distinct routes, summed. */
  function CountsOf(routes: seq<string>, events: seq<Request>): nat {
    if routes == [] then 0 else CountsOf(routes[..|routes| - 1], events) + |OnRoute(events, routes[|routes| - 1])|
  }

  lemma {:induction false} CountsGrow(routes: seq<string>, events: seq<Request>, e: Request)
    requires NoDuplicates(routes)
    ensures CountsOf(routes, events + [e]) == CountsOf(routes, events) + if e.route in routes then 1 else 0
  {
    if routes != [] {
      var front, last := routes[..|routes| - 1], routes[|routes| - 1];
      CountsGrow(front, events, e);
      OnRouteGrows(events, e, last);
      assert routes == front + [last];
    }
  }

  lemma {:induction false} NoCounts(routes: seq<string>)
    ensures CountsOf(routes, []) == 0
  {
    if routes != [] {
      NoCounts(routes[..|routes| - 1]);
    }
  }

  lemma {:induction false} RoutesPartitionRequests(routes: seq<string>, events: seq<Request>)
    requires NoDuplicates(routes) && forall e :: e in events ==> e.route in routes
    ensures CountsOf(routes, events) == |events|
  {
    if events == [] {
      NoCounts(routes);
    } else {
      var front, last := events[..|events| - 1], events[|events| - 1];
      assert events == front + [last];
      RoutesPartitionRequests(routes, front);
      CountsGrow(routes, front, last);
    }
  }

  function SumCounts(perRoute: map<string, Aggregate>, routes: seq<string>): nat
    requires forall r :: r in routes ==> r in perRoute
  {
    if routes == [] then 0 else SumCounts(perRoute, routes[..|routes| - 1]) + perRoute[routes[|routes| - 1]].count
  }

  lemma {:induction false} SumIsCounts(perRoute: map<string, Aggregate>, routes: seq<string>, events: seq<Request>)
    requires IsPerRoute(perRoute, events) && forall r :: r in routes ==> r in perRoute
    ensures SumCounts(perRoute, routes) == CountsOf(routes, events)
  {
    if routes != [] {
      SumIsCounts(perRoute, routes[..|routes| - 1], events);
    }
  }

  lemma {:induction false} MetOnRoute(events: seq<Request>, e: Request)
    requires e in events
    ensures OnRoute(events, e.route) != []
  {
    if events[|events| - 1] != e {
      MetOnRoute(events[..|events| - 1], e);
    }
  }

  /** In whatever order the routes are listed, their counts add up to the requests of the window. */
  lemma PerRouteAddsUp(perRoute: map<string, Aggregate>, routes: seq<string>, events: seq<Request>)
    requires IsPerRoute(perRoute, events) && NoDuplicates(routes) && forall r :: r in routes <==> r in perRoute
    ensures SumCounts(perRoute, routes) == |events|
  {
    SumIsCounts(perRoute, routes, events);
    forall e | e in events
      ensures e.route in routes
    {
      MetOnRoute(events, e);
    }
    RoutesPartitionRequests(routes, events);
  }

  // --------------------------------------------------------------- percentiles

  function Durations(events: seq<Request>): (r: seq<real>)
    ensures |r| == |events|
  {
    if events == [] then [] else Durations(events[..|events| - 1]) + [events[|events| - 1].durationMs]
  }

  predicate NotLonger(x: real, y: real) { x <= y }

  function SortedDurations(events: seq<Request>): (r: seq<real>)
    ensures |r| == |events|
  {
    Sort(Durations(events), NotLonger)
  }

  /** The durations in rising order, each as often as it occurs. */
  lemma DurationsAreSorted(events: seq<Request>)
    ensures Sorted(SortedDurations(events), NotLonger)
    ensures multiset(SortedDurations(events)) == multiset(Durations(events))
  {
    SortSorts(Durations(events), NotLonger);
  }

  /** floor(p / 100 * n), capped to the last index. */
  function RankOf(n: nat, p: nat): nat
    requires n > 0
  {
    var idx := p * n / 100;
    if n - 1 <= idx then n - 1 else idx
  }

  function Percentile(sorted: seq<real>, p: nat): int {
    if sorted == [] then 0 else Round(sorted[RankOf(|sorted|, p)])
  }

  lemma RanksRise(n: nat, p: nat, q: nat)
    requires n > 0 && p <= q
    ensures RankOf(n, p) <= RankOf(n, q)
  {
    assert p * n <= q * n;
  }

  /** A higher percentile is never smaller; in particular p95 <= p99. */
  lemma PercentilesRise(events: seq<Request>, p: nat, q: nat)
    requires p <= q
    ensures Percentile(SortedDurations(events), p) <= Percentile(SortedDurations(events), q)
  {
    DurationsAreSorted(events);
    if events != [] {
      RanksRise(|events|, p, q);
      var s := SortedDurations(events);
      assert RankOf(|s|, p) == RankOf(|s|, q) || NotLonger(s[RankOf(|s|, p)], s[RankOf(|s|, q)]);
    }
  }

  lemma ScaleUp(n: nat, p: nat)
    requires p <= 100
    ensures p * n <= 100 * n
  {
  }

  lemma RankShare(n: nat, p: nat)
    requires n > 0 && p <= 100
    ensures (RankOf(n, p) + 1) * 100 >= p * n
  {
    ScaleUp(n, p);
  }

  /** At least p percent of the requests took no longer than the value at the rank of p. */
  lemma RankCoversItsShare(events: seq<Request>, p: nat)
    requires events != [] && p <= 100
    ensures var s := SortedDurations(events);
      && (RankOf(|s|, p) + 1) * 100 >= p * |s|
      && (forall i :: 0 <= i <= RankOf(|s|, p) ==> s[i] <= s[RankOf(|s|, p)])
  {
    DurationsAreSorted(events);
    hide SortedDurations;
    var s := SortedDurations(events);
    RankShare(|s|, p);
    RankInRange(|s|, p);
    forall i | 0 <= i <= RankOf(|s|, p)
      ensures s[i] <= s[RankOf(|s|, p)]
    {
      assert i == RankOf(|s|, p) || NotLonger(s[i], s[RankOf(|s|, p)]);
    }
  }

  lemma RankInRange(n: nat, p: nat)
    requires n > 0
    ensures RankOf(n, p) < n
  {
  }

  // ------------------------------------------------------------------ the stats

  datatype RouteStats = RouteStats(route: string, count: nat, avgMs: int, errors: nat)

  datatype Stats = Stats(
    requestsPerMin: int,
    avgResponseMs: int,
    p95ResponseMs: int,
    p99ResponseMs: int,
    errorRatePct: real,
    topRoutes: seq<RouteStats>)

  const TOP := 15

  /** The routes in the order in which they are first met. */
  function Routes(events: seq<Request>): seq<string> {
    if events == [] then []
    else
      var front, route := Routes(events[..|events| - 1]), events[|events| - 1].route;
      if route in front then front else front + [route]
  }

  lemma {:induction false} RoutesAreMet(events: seq<Request>)
    ensures NoDuplicates(Routes(events))
    ensures forall route :: route in Routes(events) <==> OnRoute(events, route) != []
  {
    if events != [] {
      var front, last := events[..|events| - 1], events[|events| - 1];
      RoutesAreMet(front);
      assert events == front + [last];
      forall route
        ensures route in Routes(events) <==> OnRoute(events, route) != []
      {
        OnRouteGrows(front, last, route);
      }
    }
  }

  function RouteLine(route: string, a: Aggregate): RouteStats {
    RouteStats(route, a.count, if a.count > 0 then Round(a.totalMs / (a.count as real)) else 0, a.errors)
  }

  function RouteLines(events: seq<Request>, routes: seq<string>): (r: seq<RouteStats>)
    ensures |r| == |routes|
    ensures forall i :: 0 <= i < |routes| ==> r[i] == RouteLine(routes[i], AggregateOf(OnRoute(events, routes[i])))
  {
    seq(|routes|, i requires 0 <= i < |routes| => RouteLine(routes[i], AggregateOf(OnRoute(events, routes[i]))))
  }

  predicate Busier(a: RouteStats, b: RouteStats) { a.count >= b.count }

  function TopOf(lines: seq<RouteStats>): seq<RouteStats> {
    var sorted := Sort(lines, Busier);
    if |sorted| <= TOP then sorted else sorted[..TOP]
  }

  function TopRoutes(events: seq<Request>): seq<RouteStats> {
    TopOf(RouteLines(events, Routes(events)))
  }

  /** The line shows a route of the window with that route's own figures. */
  ghost predicate OwnLine(events: seq<Request>, line: RouteStats) {
    line.route in Routes(events) && line == RouteLine(line.route, AggregateOf(OnRoute(events, line.route)))
  }

  ghost predicate Listed(top: seq<RouteStats>, route: string) {
    exists i :: 0 <= i < |top| && top[i].route == route
  }

  lemma LinesAreOwn(events: seq<Request>)
    ensures var lines := RouteLines(events, Routes(events));
      && DistinctRoutes(lines)
      && (forall line :: line in lines ==> OwnLine(events, line))
      && (forall route :: route in Routes(events) ==> Listed(lines, route))
  {
    RoutesAreMet(events);
    hide Routes, OnRoute, AggregateOf;
    var lines := RouteLines(events, Routes(events));
    forall route | route in Routes(events)
      ensures Listed(lines, route)
    {
      var i :| 0 <= i < |Routes(events)| && Routes(events)[i] == route;
      assert lines[i].route == route;
    }
  }

  lemma ListedAnywhere(lines: seq<RouteStats>, sorted: seq<RouteStats>, route: string)
    requires Listed(lines, route) && forall line :: line in lines ==> line in sorted
    ensures Listed(sorted, route)
  {
    var i :| 0 <= i < |lines| && lines[i].route == route;
    assert lines[i] in sorted;
  }

  lemma SortedLines(events: seq<Request>)
    ensures var sorted := Sort(RouteLines(events, Routes(events)), Busier);
      && |sorted| == |Routes(events)| && Sorted(sorted, Busier) && DistinctRoutes(sorted)
      && (forall line :: line in sorted ==> OwnLine(events, line))
      && (forall route :: route in Routes(events) ==> Listed(sorted, route))
  {
    var lines := RouteLines(events, Routes(events));
    LinesAreOwn(events);
    SortSorts(lines, Busier);
    hide RouteLine, AggregateOf, OnRoute, RouteLines, Routes, Sort, Sorted, DistinctRoutes, OwnLine, Listed;
    var sorted := Sort(lines, Busier);
    SameMembers(sorted, lines);
    LinesStayDistinct(lines, sorted);
    forall route | route in Routes(events)
      ensures Listed(sorted, route)
    {
      ListedAnywhere(lines, sorted, route);
    }
  }

  lemma CutKeepsOrder(sorted: seq<RouteStats>)
    requires Sorted(sorted, Busier) && DistinctRoutes(sorted)
    ensures var top := if |sorted| <= TOP then sorted else sorted[..TOP];
      && |top| == Min(TOP, |sorted|) && Sorted(top, Busier) && DistinctRoutes(top)
      && (forall line :: line in top ==> line in sorted)
      && (forall line, i :: line in sorted && !Listed(top, line.route) && 0 <= i < |top| ==> Busier(top[i], line))
  {
    var top := if |sorted| <= TOP then sorted else sorted[..TOP];
    forall line, i | line in sorted && !Listed(top, line.route) && 0 <= i < |top|
      ensures Busier(top[i], line)
    {
      var k :| 0 <= k < |sorted| && sorted[k] == line;
    }
  }

  /** The listed routes are routes of the window with their own figures, each once, at most fifteen, busiest
      first; a route that is left out is not busier than any listed one. */
  lemma TopRoutesAreTheBusiest(events: seq<Request>)
    ensures |TopRoutes(events)| == Min(15, |Routes(events)|)
    ensures Sorted(TopRoutes(events), Busier) && DistinctRoutes(TopRoutes(events))
    ensures forall line :: line in TopRoutes(events) ==> OwnLine(events, line)
    ensures forall route, i ::
              route in Routes(events) && !Listed(TopRoutes(events), route) && 0 <= i < |TopRoutes(events)| ==>
                |OnRoute(events, route)| <= TopRoutes(events)[i].count
  {
    SortedLines(events);
    var sorted := Sort(RouteLines(events, Routes(events)), Busier);
    CutKeepsOrder(sorted);
    var top := TopRoutes(events);
    hide Sort, Routes, RouteLines, OnRoute, TopRoutes, Sorted, DistinctRoutes;
    forall route, i | route in Routes(events) && !Listed(top, route) && 0 <= i < |top|
      ensures |OnRoute(events, route)| <= top[i].count
    {
      var k :| 0 <= k < |sorted| && sorted[k].route == route;
      assert OwnLine(events, sorted[k]);
      assert Busier(top[i], sorted[k]);
    }
  }

  ghost predicate DistinctRoutes(lines: seq<RouteStats>) {
    forall i, j :: 0 <= i < j < |lines| ==> lines[i].route != lines[j].route
  }

  /** Rearranging lines of distinct routes leaves lines of distinct routes. */
  lemma LinesStayDistinct(lines: seq<RouteStats>, sorted: seq<RouteStats>)
    requires multiset(lines) == multiset(sorted)
    ensures DistinctRoutes(lines) ==> DistinctRoutes(sorted)
  {
    if DistinctRoutes(lines) {
      forall i, j | 0 <= i < j < |sorted|
        ensures sorted[i].route != sorted[j].route
      {
        if sorted[i].route == sorted[j].route {
          OneLinePerRoute(lines, sorted[i]);
          SameMembers(lines, sorted);
          assert sorted[i] in lines && sorted[j] in lines;
          TwiceIn(sorted, i, j);
        }
      }
    }
  }

  lemma {:induction false} OneLinePerRoute(lines: seq<RouteStats>, line: RouteStats)
    requires DistinctRoutes(lines)
    ensures multiset(lines)[line] <= 1
    ensures line in lines ==> forall x :: x in lines && x.route == line.route ==> x == line
  {
    if lines != [] {
      OneLinePerRoute(lines[..|lines| - 1], line);
      assert lines == lines[..|lines| - 1] + [lines[|lines| - 1]];
      if lines[|lines| - 1] == line {
        assert line !in lines[..|lines| - 1];
      }
    }
  }

  lemma TwiceIn(s: seq<RouteStats>, i: nat, j: nat)
    requires i < j < |s| && s[i] == s[j]
    ensures multiset(s)[s[i]] >= 2
  {
    assert s == s[..j] + s[j..];
    assert s[i] in s[..j] && s[i] in s[j..];
  }

  /** How many requests failed. */
  lemma {:induction false} ErrorsAre(events: seq<Request>)
    ensures Errors(events) == |set i | 0 <= i < |events| && events[i].status >= 500|
  {
    if events != [] {
      var front, last := events[..|events| - 1], events[|events| - 1];
      ErrorsAre(front);
      var some := set i | 0 <= i < |front| && front[i].status >= 500;
      var all := set i | 0 <= i < |events| && events[i].status >= 500;
      SameSets(all, if last.status >= 500 then some + {|front|} else some);
    }
  }

  /** `value` is the rounded duration at the rank of p: the last one whose share of the smaller ones is at most
      p percent, or the longest. */
  ghost predicate IsPercentile(sorted: seq<real>, p: nat, value: int) {
    if sorted == [] then value == 0
    else exists i :: 0 <= i < |sorted| && i * 100 <= p * |sorted| &&
                     (p * |sorted| < (i + 1) * 100 || i == |sorted| - 1) &&
                     sorted[i] - 0.5 < value as real <= sorted[i] + 0.5
  }

  lemma PercentileMeans(sorted: seq<real>, p: nat)
    ensures IsPercentile(sorted, p, Percentile(sorted, p))
  {
    if sorted != [] {
      var i := RankOf(|sorted|, p);
      RankMeans(|sorted|, p);
      assert sorted[i] - 0.5 < Percentile(sorted, p) as real <= sorted[i] + 0.5;
    }
  }

  lemma RankMeans(n: nat, p: nat)
    requires n > 0
    ensures var i := RankOf(n, p);
      i < n && i * 100 <= p * n && (p * n < (i + 1) * 100 || i == n - 1)
  {
  }

  /** `value` is x rounded. */
  predicate Rounds(value: int, x: real) {
    x - 0.5 < value as real <= x + 0.5
  }

  /** What the figures are: requests of the window per minute; their mean duration; the percentiles of all the
      retained ones; the share of failed ones in percent, to one decimal. */
  ghost predicate Figures(r: Stats, recent: seq<Request>, retained: seq<Request>, windowMs: int)
    requires windowMs > 0
  {
    && Rounds(r.requestsPerMin, (|recent| as real) / (windowMs as real) * 60000.0)
    && (recent == [] ==> r.avgResponseMs == 0 && r.errorRatePct == 0.0)
    && (recent != [] ==> Rounds(r.avgResponseMs, TotalMs(recent) / (|recent| as real)))
    && (recent != [] ==>
          var failed := |set i | 0 <= i < |recent| && recent[i].status >= 500|;
          var tenths := (r.errorRatePct * 10.0).Floor;
          && r.errorRatePct == (tenths as real) / 10.0
          && Rounds(tenths, (failed as real) / (|recent| as real) * 1000.0))
    && (exists sorted :: multiset(sorted) == multiset(Durations(retained)) && Sorted(sorted, NotLonger) &&
                         IsPercentile(sorted, 95, r.p95ResponseMs) && IsPercentile(sorted, 99, r.p99ResponseMs))
  }

  lemma StatsAreFigures(recent: seq<Request>, retained: seq<Request>, windowMs: int)
    requires windowMs > 0
    ensures Figures(StatsOf(recent, retained, windowMs), recent, retained, windowMs)
  {
    hide Percentile, SortedDurations, Errors, TotalMs, TopRoutes, IsPercentile, Sorted, Durations;
    ErrorsAre(recent);
    DurationsAreSorted(retained);
    PercentileMeans(SortedDurations(retained), 95);
    PercentileMeans(SortedDurations(retained), 99);
    var r := StatsOf(recent, retained, windowMs);
    if recent != [] {
      var tenths := Round((Errors(recent) as real) / (|recent| as real) * 1000.0);
      assert r.errorRatePct == (tenths as real) / 10.0;
      assert Rounds(tenths, (Errors(recent) as real) / (|recent| as real) * 1000.0);
    }
  }

  /** The summary over the requests of a window, with percentiles over all that are retained. */
  function StatsOf(recent: seq<Request>, retained: seq<Request>, windowMs: int): Stats
    requires windowMs > 0
  {
    var count := |recent|;
    Stats(Round((count as real) / (windowMs as real) * 60000.0),
          if count > 0 then Round(TotalMs(recent) / (count as real)) else 0,
          Percentile(SortedDurations(retained), 95),
          Percentile(SortedDurations(retained), 99),
          if count > 0 then (Round((Errors(recent) as real) / (count as real) * 1000.0) as real) / 10.0 else 0.0,
          TopRoutes(recent))
  }

  lemma {:induction false} ErrorsAreRequests(events: seq<Request>)
    ensures Errors(events) <= |events|
  {
    if events != [] {
      ErrorsAreRequests(events[..|events| - 1]);
    }
  }

  lemma Share(part: real, whole: real)
    requires 0.0 <= part <= whole && whole > 0.0
    ensures 0.0 <= part / whole <= 1.0
  {
  }

  function Times(n: nat, m: real): real { (n as real) * m }

  lemma OneMoreTime(n: nat, m: real)
    ensures Times(n + 1, m) == Times(n, m) + m
  {
  }

  lemma {:induction false} TotalBetween(events: seq<Request>, lo: real, hi: real)
    requires forall e :: e in events ==> lo <= e.durationMs <= hi
    ensures Times(|events|, lo) <= TotalMs(events) <= Times(|events|, hi)
  {
    if events != [] {
      hide Times;
      var front, last := events[..|events| - 1], events[|events| - 1];
      assert events == front + [last];
      TotalBetween(front, lo, hi);
      OneMoreTime(|front|, lo);
      OneMoreTime(|front|, hi);
    }
  }

  lemma DivideBetween(n: real, lo: real, total: real, hi: real)
    requires n > 0.0 && n * lo <= total <= n * hi
    ensures lo <= total / n <= hi
  {
    var q := total / n;
    assert n * q == total;
    if q < lo {
      Scale(n, q, lo);
    } else if q > hi {
      Scale(n, hi, q);
    }
  }

  lemma Scale(n: real, a: real, b: real)
    requires n > 0.0 && a < b
    ensures n * a < n * b
  {
  }

  /** The figures make sense: the error rate is a percentage, the average lies between the shortest and the
      longest duration, and p95 does not exceed p99. */
  lemma StatsAreSane(recent: seq<Request>, retained: seq<Request>, windowMs: int, lo: real, hi: real)
    requires windowMs > 0 && recent != []
    requires forall e :: e in recent ==> lo <= e.durationMs <= hi
    ensures var r := StatsOf(recent, retained, windowMs);
      && 0.0 <= r.errorRatePct <= 100.0
      && Round(lo) <= r.avgResponseMs <= Round(hi)
      && r.p95ResponseMs <= r.p99ResponseMs
  {
    hide Percentile, SortedDurations, Errors, TotalMs, TopRoutes;
    ErrorsAreRequests(recent);
    var n := |recent| as real;
    Share(Errors(recent) as real, n);
    TotalBetween(recent, lo, hi);
    DivideBetween(n, lo, TotalMs(recent), hi);
    PercentilesRise(retained, 95, 99);
  }

  ghost predicate UpTo(log: seq<Request>, clock: int) {
    forall r :: r in log ==> r.ts <= clock
  }

  lemma LaterUpTo(log: seq<Request>, clock: int, now: int)
    requires UpTo(log, clock) && clock <= now
    ensures UpTo(log, now)
  {
  }

  lemma AppendedLog(log: seq<Request>, clock: int, e: Request, cutoff: int)
    requires InOrder(log) && UpTo(log, clock) && clock <= e.ts && cutoff <= e.ts
    ensures InOrder(log + [e]) && UpTo(log + [e], e.ts) && Recent(log + [e], cutoff) == Recent(log, cutoff) + [e]
  {
    assert (log + [e])[..|log|] == log;
    assert forall i :: 0 <= i < |log| ==> log[i] in log;
  }

  lemma PrunedTail(log: seq<Request>, cutoff: int, limit: int, i: nat)
    requires InOrder(log) && cutoff <= limit && i <= |Recent(log, cutoff)|
    requires i < |Recent(log, cutoff)| ==> Recent(log, cutoff)[i].ts >= limit
    requires forall k :: 0 <= k < i ==> Recent(log, cutoff)[k].ts < limit
    ensures Recent(log, cutoff)[i..] == Recent(log, limit)
    ensures i == 0 ==> Recent(log, cutoff) == Recent(log, limit)
  {
    RecentInOrder(log, cutoff);
    RecentTwice(log, cutoff, limit);
    RecentIsSuffix(Recent(log, cutoff), limit, i);
    assert Recent(log, cutoff)[0..] == Recent(log, cutoff);
  }

  method FirstKept(events: seq<Request>, limit: int) returns (i: nat)
    ensures i <= |events| && (i < |events| ==> events[i].ts >= limit)
    ensures forall k :: 0 <= k < i ==> events[k].ts < limit
  {
    i := 0;
    while i < |events| && events[i].ts < limit
      invariant i <= |events|
      invariant forall k :: 0 <= k < i ==> events[k].ts < limit
    {
      i := i + 1;
    }
  }

  /** The keys of `perRoute` are kept in the order of insertion. */
  method AggregateByRoute(recent: seq<Request>) returns (perRoute: map<string, Aggregate>, keys: seq<string>)
    ensures IsPerRoute(perRoute, recent)
    ensures keys == Routes(recent)
  {
    perRoute, keys := map[], [];
    StartsEmpty();
    hide IsPerRoute;
    for i := 0 to |recent|
      invariant IsPerRoute(perRoute, recent[..i])
      invariant keys == Routes(recent[..i])
      invariant forall route :: route in perRoute <==> route in keys
    {
      AddedIsPerRoute(perRoute, recent[..i], recent[i]);
      assert recent[..i + 1] == recent[..i] + [recent[i]];
      if recent[i].route !in perRoute {
        keys := keys + [recent[i].route];
      }
      perRoute := Added(perRoute, recent[i]);
    }
    assert recent[..|recent|] == recent;
  }

  method ListTopRoutes(recent: seq<Request>) returns (top: seq<RouteStats>)
    ensures top == TopRoutes(recent)
  {
    var perRoute, keys := AggregateByRoute(recent);
    RoutesAreMet(recent);
    var lines :=
      seq(|keys|, i requires 0 <= i < |keys| && keys[i] in perRoute => RouteLine(keys[i], perRoute[keys[i]]));
    assert lines == RouteLines(recent, Routes(recent));
    var sorted := Sort(lines, Busier);
    return if |sorted| <= TOP then sorted else sorted[..TOP];
  }

  lemma TopOfStats(recent: seq<Request>, retained: seq<Request>, windowMs: int)
    requires windowMs > 0
    ensures StatsOf(recent, retained, windowMs).topRoutes == TopRoutes(recent)
  {
  }

  method Summarise(recent: seq<Request>, retained: seq<Request>, windowMs: int) returns (r: Stats)
    requires windowMs > 0
    ensures r == StatsOf(recent, retained, windowMs)
  {
    var count := |recent|;
    var topRoutes := ListTopRoutes(recent);
    var sorted := SortedDurations(retained);
    hide Percentile, SortedDurations, Errors, TotalMs, TopRoutes;
    r := Stats(Round((count as real) / (windowMs as real) * 60000.0),
               if count > 0 then Round(TotalMs(recent) / (count as real)) else 0,
               Percentile(sorted, 95),
               Percentile(sorted, 99),
               if count > 0 then (Round((Errors(recent) as real) / (count as real) * 1000.0) as real) / 10.0 else 0.0,
               topRoutes);
  }

  class Metrics {
    var events: seq<Request>
    ghost var log: seq<Request>   // every request ever recorded
    ghost var clock: int          // the latest time read
    ghost var cutoff: int         // where the last pruning cut

    /** What is retained is exactly the part of the whole log from the last cut on. */
    ghost predicate Valid() reads this {
      && InOrder(log) && UpTo(log, clock)
      && cutoff <= clock - WINDOW_MS
      && events == Recent(log, cutoff)
    }

    constructor (now: int)
      ensures Valid() && log == [] && clock == now
    {
      events, log, clock, cutoff := [], [], now, now - WINDOW_MS;
    }

    /** Drop the leading events that have left the window. */
    method PruneOld(now: int)
      requires Valid() && clock <= now
      modifies this
      ensures Valid() && log == old(log) && clock == now
      ensures events == Recent(log, now - WINDOW_MS)
    {
      var limit := now - WINDOW_MS;
      var i := FirstKept(events, limit);
      hide InOrder, Recent, UpTo;
      PrunedTail(log, cutoff, limit, i);
      LaterUpTo(log, clock, now);
      if i > 0 {
        events := events[i..];
      }
      clock, cutoff := now, limit;
    }

    method RecordRequest(now: int, later: int, route: string, status: int, durationMs: real)
      requires Valid() && clock <= now <= later
      modifies this
      ensures Valid() && log == old(log) + [Request(now, route, status, durationMs)] && clock == later
      ensures events == Recent(log, later - WINDOW_MS)
    {
      var e := Request(now, route, status, durationMs);
      AppendedLog(log, clock, e, cutoff);
      hide InOrder, Recent, UpTo;
      events := events + [e];
      log, clock := log + [e], now;
      PruneOld(later);
    }

    /** For any window of up to five minutes, the figures are those of the whole log, although most of it
        has been dropped; the percentiles are those of the last five minutes. */
    method GetLiveRequestStats(windowMs: int, now: int, later: int) returns (r: Stats)
      requires Valid() && clock <= now <= later && windowMs > 0
      modifies this
      ensures Valid() && log == old(log) && clock == later
      ensures windowMs <= WINDOW_MS ==>
                r == StatsOf(Recent(log, later - windowMs), Recent(log, now - WINDOW_MS), windowMs)
      ensures windowMs <= 300000 ==>
                && Figures(r, Recent(log, later - windowMs), Recent(log, now - 300000), windowMs)
                && r.topRoutes == TopRoutes(Recent(log, later - windowMs))
    {
      hide Figures, TopRoutes;
      hide StatsOf, InOrder, Recent, UpTo;
      PruneOld(now);
      LaterUpTo(log, now, later);
      var recent := Recent(events, later - windowMs);
      if windowMs <= WINDOW_MS {
        RecentTwice(log, cutoff, later - windowMs);
      }
      r := Summarise(recent, events, windowMs);
      StatsAreFigures(recent, events, windowMs);
      TopOfStats(recent, events, windowMs);
      clock := later;
    }
  }
}
