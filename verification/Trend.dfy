/**
  The disk-fill projection (backend/utils/trendAnalysis.js:25-70). A row's time is its instant in milliseconds.
 */
module Trend {
  import opened Common
  import opened Regression
  import opened Sorting

  // ---------------------------------------------------------- the projection

  datatype Reading = Reading(recordedAt: int, value: Option<real>)

  datatype Projection = Projection(slopePctPerDay: real, currentPct: real, daysUntilThreshold: int)

  function NonNull(rows: seq<Reading>): seq<Reading> {
    if rows == [] then []
    else
      var front, last := NonNull(rows[..|rows| - 1]), rows[|rows| - 1];
      if last.value.Some? then front + [last] else front
  }

  predicate NotLater(a: Reading, b: Reading) { a.recordedAt <= b.recordedAt }

  function SortByTime(rows: seq<Reading>): (r: seq<Reading>)
    ensures |r| == |rows|
  {
    Sort(rows, NotLater)
  }

  /** Sorting orders the readings by time and keeps each as often as it was. */
  lemma ReadingsInOrder(rows: seq<Reading>)
    ensures Sorted(SortByTime(rows), NotLater) && multiset(SortByTime(rows)) == multiset(rows)
  {
    SortSorts(rows, NotLater);
  }

  const DAY_MS := 86400000.0

  function ToPoints(sorted: seq<Reading>, first: int): (ps: seq<Point>)
    requires forall r :: r in sorted ==> r.value.Some?
    ensures |ps| == |sorted|
    ensures forall i :: 0 <= i < |ps| ==>
              ps[i] == Point(((sorted[i].recordedAt - first) as real) / DAY_MS, sorted[i].value.value)
  {
    if sorted == [] then []
    else
      var last := sorted[|sorted| - 1];
      ToPoints(sorted[..|sorted| - 1], first) + [Point(((last.recordedAt - first) as real) / DAY_MS, last.value.value)]
  }

  lemma {:induction false} NonNullCounts(rows: seq<Reading>, r: Reading)
    ensures multiset(NonNull(rows))[r] == if r.value.Some? then multiset(rows)[r] else 0
  {
    if rows != [] {
      NonNullCounts(rows[..|rows| - 1], r);
      assert rows == rows[..|rows| - 1] + [rows[|rows| - 1]];
    }
  }

  lemma SortedPointsHaveValues(rows: seq<Reading>)
    ensures forall r :: r in SortByTime(NonNull(rows)) <==> r in rows && r.value.Some?
  {
    ReadingsInOrder(NonNull(rows));
    forall r: Reading
      ensures r in SortByTime(NonNull(rows)) <==> r in rows && r.value.Some?
    {
      NonNullCounts(rows, r);
      assert r in SortByTime(NonNull(rows)) <==> r in multiset(SortByTime(NonNull(rows)));
      assert r in rows <==> r in multiset(rows);
    }
  }

  function SortedPoints(rows: seq<Reading>): (sorted: seq<Reading>)
    ensures forall r :: r in sorted ==> r.value.Some?
    ensures |sorted| == |NonNull(rows)|
  {
    SortedPointsHaveValues(rows);
    SortByTime(NonNull(rows))
  }

  function Project(rows: seq<Reading>, threshold: real, minPoints: int, maxDays: int): Option<Projection>
    requires |NonNull(rows)| > 0 || minPoints > 0
  {
    var sorted := SortedPoints(rows);
    if |sorted| < minPoints then None
    else
      var points := ToPoints(sorted, sorted[0].recordedAt);
      var current := points[|points| - 1].y;
      if current >= threshold then None
      else if Slope(points) <= 0.0 || (threshold - current) / Slope(points) > maxDays as real then None
      else Some(Projection(Slope(points), current, Round((threshold - current) / Slope(points))))
  }

  /** The readings with a value in time order, each as often as it is given. */
  ghost predicate InTime(rows: seq<Reading>, sorted: seq<Reading>) {
    && (forall r :: multiset(sorted)[r] == if r.value.Some? then multiset(rows)[r] else 0)
    && (forall i, j :: 0 <= i < j < |sorted| ==> sorted[i].recordedAt <= sorted[j].recordedAt)
  }

  /** The points of a regression: days since the first reading, and its value. */
  ghost predicate ArePoints(sorted: seq<Reading>, points: seq<Point>) {
    && |points| == |sorted|
    && (forall i :: 0 <= i < |sorted| ==>
          && sorted[i].value == Some(points[i].y)
          && points[i].x == ((sorted[i].recordedAt - sorted[0].recordedAt) as real) / 86400000.0)
  }

  /** What a projection is made of, and when there is one: enough readings, the latest below the threshold, a
      rising slope, and the threshold reached within the horizon. */
  ghost predicate Projects(points: seq<Point>, threshold: real, minPoints: int, maxDays: int, p: Option<Projection>)
  {
    && (p.Some? <==>
        && |points| >= minPoints && |points| > 0 && points[|points| - 1].y < threshold && Slope(points) > 0.0
        && (threshold - points[|points| - 1].y) / Slope(points) <= maxDays as real)
    && (p.Some? && |points| > 0 && Slope(points) > 0.0 ==>
          && p.value.currentPct == points[|points| - 1].y && p.value.slopePctPerDay == Slope(points)
          && (var days := (threshold - points[|points| - 1].y) / Slope(points);
              days - 0.5 < p.value.daysUntilThreshold as real <= days + 0.5))
  }

  lemma ProjectsExactlyWhen(rows: seq<Reading>, threshold: real, minPoints: int, maxDays: int)
    requires |NonNull(rows)| > 0 || minPoints > 0
    ensures exists sorted, points ::
              InTime(rows, sorted) && ArePoints(sorted, points) &&
              Projects(points, threshold, minPoints, maxDays, Project(rows, threshold, minPoints, maxDays))
  {
    hide InTime, Projects, Project, ToPoints, SortedPoints, ArePoints, Slope;
    SortedAreInTime(rows);
    var sorted := SortedPoints(rows);
    if sorted == [] {
      NoPoints(rows, threshold, minPoints, maxDays);
      assert ArePoints(sorted, []);
    } else {
      PointsAre(sorted);
      ProjectOnPoints(rows, threshold, minPoints, maxDays);
      assert ArePoints(sorted, ToPoints(sorted, sorted[0].recordedAt));
    }
  }

  lemma PointsAre(sorted: seq<Reading>)
    requires sorted != [] && forall r :: r in sorted ==> r.value.Some?
    ensures ArePoints(sorted, ToPoints(sorted, sorted[0].recordedAt))
  {
  }

  lemma NoPoints(rows: seq<Reading>, threshold: real, minPoints: int, maxDays: int)
    requires minPoints > 0 && SortedPoints(rows) == []
    ensures Projects([], threshold, minPoints, maxDays, Project(rows, threshold, minPoints, maxDays))
    ensures ArePoints([], [])
  {
    hide SortedPoints, Slope;
  }

  lemma ProjectOnPoints(rows: seq<Reading>, threshold: real, minPoints: int, maxDays: int)
    requires SortedPoints(rows) != [] && |NonNull(rows)| > 0
    ensures var points := ToPoints(SortedPoints(rows), SortedPoints(rows)[0].recordedAt);
      Projects(points, threshold, minPoints, maxDays, Project(rows, threshold, minPoints, maxDays))
  {
    hide SortedPoints, Slope, ToPoints;
  }

  lemma SortedAreInTime(rows: seq<Reading>)
    ensures InTime(rows, SortedPoints(rows))
  {
    ReadingsInOrder(NonNull(rows));
    var sorted := SortedPoints(rows);
    forall r: Reading
      ensures multiset(sorted)[r] == if r.value.Some? then multiset(rows)[r] else 0
    {
      NonNullCounts(rows, r);
    }
    forall i, j | 0 <= i < j < |sorted|
      ensures sorted[i].recordedAt <= sorted[j].recordedAt
    {
      assert NotLater(sorted[i], sorted[j]);
    }
  }

  method ComputeThresholdProjection(rows: seq<Reading>, threshold: real, minPoints: int, maxDays: int)
    returns (r: Option<Projection>)
    requires |NonNull(rows)| > 0 || minPoints > 0
    ensures r == Project(rows, threshold, minPoints, maxDays)
    ensures exists sorted, points :: InTime(rows, sorted) && ArePoints(sorted, points) &&
                                     Projects(points, threshold, minPoints, maxDays, r)
  {
    ProjectsExactlyWhen(rows, threshold, minPoints, maxDays);
    hide InTime, ArePoints, Projects;
    var sorted := SortedPoints(rows);
    if |sorted| < minPoints {
      return None;
    }
    var points := ToPoints(sorted, sorted[0].recordedAt);
    var current := points[|points| - 1].y;
    if current >= threshold {
      return None;
    }
    var slope := LinearRegressionSlope(points);
    if slope <= 0.0 {
      return None;
    }
    var days := (threshold - current) / slope;
    if days > maxDays as real {
      return None;
    }
    return Some(Projection(slope, current, Round(days)));
  }

  ghost predicate DistinctTimes(rows: seq<Reading>) {
    forall i, j :: 0 <= i < j < |rows| ==> rows[i].recordedAt != rows[j].recordedAt
  }

  /** Readings at distinct times are told apart by their time. */
  lemma DistinctTimesDistinguish(rows: seq<Reading>)
    requires DistinctTimes(rows)
    ensures Distinguished(SortByTime(rows), NotLater)
  {
    ReadingsInOrder(rows);
    SameMembers(SortByTime(rows), rows);
    forall x, y | x in SortByTime(rows) && y in SortByTime(rows) && NotLater(x, y) && NotLater(y, x)
      ensures x == y
    {
      var i :| 0 <= i < |rows| && rows[i] == x;
      var j :| 0 <= j < |rows| && rows[j] == y;
    }
  }

  lemma NonNullPermutes(a: seq<Reading>, b: seq<Reading>)
    requires multiset(a) == multiset(b)
    ensures multiset(NonNull(a)) == multiset(NonNull(b))
  {
    forall r: Reading
      ensures multiset(NonNull(a))[r] == multiset(NonNull(b))[r]
    {
      NonNullCounts(a, r);
      NonNullCounts(b, r);
    }
  }

  lemma SamePoints(a: seq<Reading>, b: seq<Reading>)
    requires multiset(a) == multiset(b) && DistinctTimes(NonNull(a))
    ensures SortedPoints(a) == SortedPoints(b)
  {
    var va, vb := NonNull(a), NonNull(b);
    NonNullPermutes(a, b);
    DistinctTimesDistinguish(va);
    ReadingsInOrder(va);
    ReadingsInOrder(vb);
    OrderIsUnique(SortByTime(va), SortByTime(vb), NotLater);
  }

  /** The order in which the rows arrive does not matter, as long as the readings have distinct times. */
  lemma OrderDoesNotMatter(a: seq<Reading>, b: seq<Reading>, threshold: real, minPoints: int, maxDays: int)
    requires multiset(a) == multiset(b) && DistinctTimes(NonNull(a))
    requires |NonNull(a)| > 0 || minPoints > 0
    ensures |NonNull(b)| == |NonNull(a)|
    ensures Project(a, threshold, minPoints, maxDays) == Project(b, threshold, minPoints, maxDays)
  {
    SamePoints(a, b);
    hide SortedPoints, NonNull, DistinctTimes, Slope, ToPoints;
  }

  lemma RoundIsNear(x: real, limit: int)
    requires 0.0 <= x <= limit as real
    ensures 0 <= Round(x) <= limit && x - 0.5 < Round(x) as real <= x + 0.5
  {
  }

  lemma HalfADay(slope: real, gap: real, days: int)
    requires slope > 0.0 && gap / slope - 0.5 < days as real <= gap / slope + 0.5
    ensures gap - slope / 2.0 < slope * (days as real) <= gap + slope / 2.0
  {
    var x := gap / slope;
    assert slope * x == gap;
    assert slope * (x - 0.5) == gap - slope / 2.0;
    assert slope * (x + 0.5) == gap + slope / 2.0;
    Scaled(slope, gap / slope - 0.5, days as real);
    Scaled(slope, days as real, gap / slope + 0.5);
  }

  lemma Scaled(s: real, u: real, v: real)
    requires s > 0.0 && u <= v
    ensures s * u <= s * v && (u < v ==> s * u < s * v)
  {
  }

  /** The latest reading with a value. */
  ghost predicate Latest(rows: seq<Reading>, r: Reading) {
    r in rows && r.value.Some? && forall q :: q in rows && q.value.Some? ==> q.recordedAt <= r.recordedAt
  }

  /** A projection is made only from a latest value below the threshold and a rising trend; it lies within
      the horizon, and over that many days the trend makes up the gap to within half a day's growth. */
  lemma ProjectionIsActionable(rows: seq<Reading>, threshold: real, minPoints: int, maxDays: int)
    requires |NonNull(rows)| > 0 || minPoints > 0
    requires Project(rows, threshold, minPoints, maxDays).Some?
    ensures var p := Project(rows, threshold, minPoints, maxDays).value;
      && (exists r :: Latest(rows, r) && r.value == Some(p.currentPct))
      && p.currentPct < threshold && p.slopePctPerDay > 0.0
      && 0 <= p.daysUntilThreshold <= maxDays
      && threshold - p.currentPct - p.slopePctPerDay / 2.0
         < p.slopePctPerDay * (p.daysUntilThreshold as real)
         <= threshold - p.currentPct + p.slopePctPerDay / 2.0
  {
    hide Slope, SortedPoints, NonNull, Latest, Round, ToPoints;
    var sorted := SortedPoints(rows);
    var points := ToPoints(sorted, sorted[0].recordedAt);
    var current := points[|points| - 1].y;
    var gap, slope := threshold - current, Slope(points);
    LastIsLatest(rows);
    assert Latest(rows, sorted[|sorted| - 1]) && sorted[|sorted| - 1].value == Some(current);
    Quotient(gap, slope);
    RoundIsNear(gap / slope, maxDays);
    HalfADay(slope, gap, Round(gap / slope));
  }

  lemma LastIsLatest(rows: seq<Reading>)
    requires SortedPoints(rows) != []
    ensures Latest(rows, SortedPoints(rows)[|SortedPoints(rows)| - 1])
  {
    SortedPointsHaveValues(rows);
    ReadingsInOrder(NonNull(rows));
    var s := SortedPoints(rows);
    forall q | q in rows && q.value.Some?
      ensures q.recordedAt <= s[|s| - 1].recordedAt
    {
      LastIsGreatest(s, q, NotLater);
    }
  }
}
