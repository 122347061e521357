/**
  The aggregated DNS queries and the bulk seeding of flagged domains
  (backend/repositories/dnsLogs.repo.js:39-68, 203-224).
 */
module DnsLogs {
  import opened Common

  datatype Key = Key(ipEntryId: int, domain: string)

  datatype Totals = Totals(firstSeen: int, lastSeen: int, count: int)

  datatype Row = Row(key: Key, totals: Totals)

  // -------------------------------------------------------------- the upsert

  function Merge(a: Totals, b: Totals): Totals {
    Totals(Min(a.firstSeen, b.firstSeen), Max(a.lastSeen, b.lastSeen), a.count + b.count)
  }

  function Upsert(t: map<Key, Totals>, row: Row): map<Key, Totals> {
    t[row.key := if row.key in t then Merge(t[row.key], row.totals) else row.totals]
  }

  /** INSERT … ON DUPLICATE KEY UPDATE over the rows of one batch, in order. */
  function UpsertAll(t: map<Key, Totals>, rows: seq<Row>): map<Key, Totals> {
    if rows == [] then t else Upsert(UpsertAll(t, rows[..|rows| - 1]), rows[|rows| - 1])
  }

  function RowsOf(rows: seq<Row>, key: Key): seq<Totals> {
    if rows == [] then []
    else
      var front := RowsOf(rows[..|rows| - 1], key);
      if rows[|rows| - 1].key == key then front + [rows[|rows| - 1].totals] else front
  }

  function CountOf(totals: seq<Totals>): int {
    if totals == [] then 0 else CountOf(totals[..|totals| - 1]) + totals[|totals| - 1].count
  }

  function Stored(t: map<Key, Totals>, key: Key): seq<Totals> {
    if key in t then [t[key]] else []
  }

  /** `m` is the earliest first sighting, the latest last sighting and the sum of counts of `all`. */
  ghost predicate Summarises(m: Totals, all: seq<Totals>) {
    && (forall i :: 0 <= i < |all| ==> m.firstSeen <= all[i].firstSeen && all[i].lastSeen <= m.lastSeen)
    && (exists i :: 0 <= i < |all| && all[i].firstSeen == m.firstSeen)
    && (exists i :: 0 <= i < |all| && all[i].lastSeen == m.lastSeen)
    && m.count == CountOf(all)
  }

  lemma SummaryGrows(m: Totals, all: seq<Totals>, x: Totals)
    requires Summarises(m, all)
    ensures Summarises(Merge(m, x), all + [x])
  {
    var more := all + [x];
    assert more[..|all|] == all && more[|all|] == x;
    var i :| 0 <= i < |all| && all[i].firstSeen == m.firstSeen;
    var j :| 0 <= j < |all| && all[j].lastSeen == m.lastSeen;
    assert more[i] == all[i] && more[j] == all[j];
    var merged := Merge(m, x);
    assert more[if m.firstSeen <= x.firstSeen then i else |all|].firstSeen == merged.firstSeen;
    assert more[if m.lastSeen >= x.lastSeen then j else |all|].lastSeen == merged.lastSeen;
  }

  lemma SummaryStarts(x: Totals)
    ensures Summarises(x, [x])
  {
    assert [x][..0] == [] && [x][0] == x;
  }

  /** After any batch, every key has exactly what was stored for it and what the batch brings, aggregated:
      nothing is lost, counted twice or given to another key. */
  lemma {:induction false} UpsertAggregates(t: map<Key, Totals>, rows: seq<Row>, key: Key)
    ensures var all := Stored(t, key) + RowsOf(rows, key);
      && (key in UpsertAll(t, rows) <==> all != [])
      && (all != [] ==> Summarises(UpsertAll(t, rows)[key], all))
  {
    hide Summarises, Merge;
    if rows == [] {
      if key in t {
        SummaryStarts(t[key]);
        assert Stored(t, key) + RowsOf(rows, key) == [t[key]];
      }
    } else {
      var front, last := rows[..|rows| - 1], rows[|rows| - 1];
      UpsertAggregates(t, front, key);
      var was := Stored(t, key) + RowsOf(front, key);
      if last.key == key {
        assert Stored(t, key) + RowsOf(rows, key) == was + [last.totals];
        if was == [] {
          assert was + [last.totals] == [last.totals];
          SummaryStarts(last.totals);
        } else {
          SummaryGrows(UpsertAll(t, front)[key], was, last.totals);
        }
      }
    }
  }

  lemma UpsertsCommute(t: map<Key, Totals>, a: Row, b: Row)
    ensures Upsert(Upsert(t, a), b) == Upsert(Upsert(t, b), a)
  {
    var ab, ba := Upsert(Upsert(t, a), b), Upsert(Upsert(t, b), a);
    assert ab.Keys == ba.Keys;
    forall key | key in ab ensures ab[key] == ba[key] {
    }
  }

  function Without(rows: seq<Row>, k: nat): (r: seq<Row>)
    requires k < |rows|
    ensures |r| == |rows| - 1
  {
    rows[..k] + rows[k + 1..]
  }

  lemma {:induction false} AnyRowCanBeLast(t: map<Key, Totals>, rows: seq<Row>, k: nat)
    requires k < |rows|
    ensures UpsertAll(t, rows) == Upsert(UpsertAll(t, Without(rows, k)), rows[k])
  {
    hide Upsert;
    var n := |rows| - 1;
    if k < n {
      AnyRowCanBeLast(t, rows[..n], k);
      assert Without(rows, k)[..n - 1] == Without(rows[..n], k);
      UpsertsCommute(UpsertAll(t, Without(rows[..n], k)), rows[k], rows[n]);
    } else {
      assert Without(rows, k) == rows[..n];
    }
  }

  lemma MultisetWithout(rows: seq<Row>, k: nat)
    requires k < |rows|
    ensures multiset(Without(rows, k)) == multiset(rows) - multiset{rows[k]}
  {
    assert rows == rows[..k] + [rows[k]] + rows[k + 1..];
  }

  /** The order of the rows in a batch does not matter. */
  lemma {:induction false} BatchOrderDoesNotMatter(t: map<Key, Totals>, a: seq<Row>, b: seq<Row>)
    requires multiset(a) == multiset(b)
    ensures UpsertAll(t, a) == UpsertAll(t, b)
    decreases |a|
  {
    if a == [] {
      assert |multiset(b)| == 0;
    } else {
      hide Upsert, UpsertAll, Without;
      var n := |a| - 1;
      assert a[n] in multiset(b);
      var k :| 0 <= k < |b| && b[k] == a[n];
      MultisetWithout(a, n);
      MultisetWithout(b, k);
      BatchOrderDoesNotMatter(t, Without(a, n), Without(b, k));
      AnyRowCanBeLast(t, a, n);
      AnyRowCanBeLast(t, b, k);
    }
  }

  lemma {:induction false} RowsOfConcat(a: seq<Row>, b: seq<Row>, key: Key)
    ensures RowsOf(a + b, key) == RowsOf(a, key) + RowsOf(b, key)
  {
    if b == [] {
      assert a + b == a;
    } else {
      assert (a + b)[..|a + b| - 1] == a + b[..|b| - 1];
      RowsOfConcat(a, b[..|b| - 1], key);
    }
  }

  lemma {:induction false} CountOfConcat(a: seq<Totals>, b: seq<Totals>)
    ensures CountOf(a + b) == CountOf(a) + CountOf(b)
  {
    if b == [] {
      assert a + b == a;
    } else {
      assert (a + b)[..|a + b| - 1] == a + b[..|b| - 1];
      CountOfConcat(a, b[..|b| - 1]);
    }
  }

  /** For no key do the rows add to the count. */
  ghost predicate BringsNothing(rows: seq<Row>) {
    forall key :: CountOf(RowsOf(rows, key)) == 0
  }

  /** Sending the same batch again changes nothing exactly when, for every key, its counts cancel out;
      so a repeated batch of real queries is counted twice, contrary to the comment on the statement. */
  lemma ResendIsIdleExactlyWhenEmpty(t: map<Key, Totals>, rows: seq<Row>)
    ensures UpsertAll(t, rows + rows) == UpsertAll(t, rows) <==> BringsNothing(rows)
  {
    var once, twice := UpsertAll(t, rows), UpsertAll(t, rows + rows);
    forall key
      ensures key in once <==> key in twice
      ensures key in once ==> twice[key].count == once[key].count + CountOf(RowsOf(rows, key))
      ensures key in once ==> twice[key].firstSeen == once[key].firstSeen && twice[key].lastSeen == once[key].lastSeen
      ensures key !in once ==> CountOf(RowsOf(rows, key)) == 0
    {
      ResendOneKey(t, rows, key);
    }
    if twice == once {
      forall key
        ensures CountOf(RowsOf(rows, key)) == 0
      {
        if key in once {
          assert twice[key].count == once[key].count;
        }
      }
    }
    if BringsNothing(rows) {
      assert twice.Keys == once.Keys;
      forall key | key in once
        ensures twice[key] == once[key]
      {
        assert CountOf(RowsOf(rows, key)) == 0;
      }
      assert twice == once;
    }
  }

  /** A batch with one row of three queries, sent twice, is stored as six. */
  lemma ResentBatchIsCountedTwice()
    ensures var key := Key(1, "example.rs");
      var batch := [Row(key, Totals(10, 20, 3))];
      UpsertAll(map[], batch) == map[key := Totals(10, 20, 3)] &&
      UpsertAll(map[], batch + batch) == map[key := Totals(10, 20, 6)]
  {
    var key := Key(1, "example.rs");
    var row := Row(key, Totals(10, 20, 3));
    assert [row][..0] == [] && ([row] + [row])[..1] == [row];
  }

  lemma ResendOneKey(t: map<Key, Totals>, rows: seq<Row>, key: Key)
    ensures var once, twice := UpsertAll(t, rows), UpsertAll(t, rows + rows);
      && (key in once <==> key in twice)
      && (key in once ==> twice[key].count == once[key].count + CountOf(RowsOf(rows, key)))
      && (key in once ==> twice[key].firstSeen == once[key].firstSeen && twice[key].lastSeen == once[key].lastSeen)
      && (key !in once ==> CountOf(RowsOf(rows, key)) == 0)
  {
    hide UpsertAll, RowsOf, Stored, Summarises;
    UpsertAggregates(t, rows, key);
    UpsertAggregates(t, rows + rows, key);
    RowsOfConcat(rows, rows, key);
    var batch := RowsOf(rows, key);
    var all := Stored(t, key) + batch;
    assert Stored(t, key) + (batch + batch) == all + batch;
    CountOfConcat(all, batch);
    if all != [] {
      SameExtremes(UpsertAll(t, rows)[key], UpsertAll(t, rows + rows)[key], Stored(t, key), batch);
    }
  }

  lemma SameExtremes(a: Totals, b: Totals, stored: seq<Totals>, batch: seq<Totals>)
    requires Summarises(a, stored + batch) && Summarises(b, stored + batch + batch)
    ensures a.firstSeen == b.firstSeen && a.lastSeen == b.lastSeen
    ensures a.count == CountOf(stored + batch) && b.count == CountOf(stored + batch + batch)
  {
    var all, more := stored + batch, stored + batch + batch;
    assert forall i :: 0 <= i < |all| ==> more[i] == all[i];
    assert forall i :: |all| <= i < |more| ==> more[i] == all[i - |batch|];
  }

  // -------------------------------------------------------- flagged domains

  datatype Flagged = Flagged(domain: string, reason: Option<string>)

  /** INSERT IGNORE: a domain that is already there keeps its row. */
  function InsertIgnore(t: map<string, Option<string>>, rows: seq<Flagged>): map<string, Option<string>> {
    if rows == [] then t
    else
      var front, last := InsertIgnore(t, rows[..|rows| - 1]), rows[|rows| - 1];
      if last.domain in front then front else front[last.domain := last.reason]
  }

  lemma {:induction false} InsertIgnoreConcat(t: map<string, Option<string>>, a: seq<Flagged>, b: seq<Flagged>)
    ensures InsertIgnore(t, a + b) == InsertIgnore(InsertIgnore(t, a), b)
  {
    if b == [] {
      assert a + b == a;
    } else {
      assert (a + b)[..|a + b| - 1] == a + b[..|b| - 1];
      InsertIgnoreConcat(t, a, b[..|b| - 1]);
    }
  }

  /** Row `i` is the first one of its domain. */
  ghost predicate IsFirst(rows: seq<Flagged>, i: nat) {
    i < |rows| && forall j :: 0 <= j < i ==> rows[j].domain != rows[i].domain
  }

  lemma FirstInPrefix(front: seq<Flagged>, last: Flagged, i: nat)
    requires IsFirst(front, i)
    ensures IsFirst(front + [last], i) && (front + [last])[i] == front[i]
  {
  }

  /** Seeding never overwrites or removes a domain, and adds exactly the listed ones, each with the reason
      of its first row. */
  lemma {:induction false} SeedingOnlyAdds(t: map<string, Option<string>>, rows: seq<Flagged>, d: string)
    ensures var r := InsertIgnore(t, rows);
      && (d in t ==> d in r && r[d] == t[d])
      && (d in r <==> d in t || exists i :: 0 <= i < |rows| && rows[i].domain == d)
      && (d in r && d !in t ==> exists i: nat :: IsFirst(rows, i) && rows[i] == Flagged(d, r[d]))
  {
    if rows != [] {
      hide IsFirst;
      var front, last := rows[..|rows| - 1], rows[|rows| - 1];
      assert rows == front + [last];
      SeedingOnlyAdds(t, front, d);
      var was, r := InsertIgnore(t, front), InsertIgnore(t, rows);
      if d in was && d !in t {
        var i: nat :| IsFirst(front, i) && front[i] == Flagged(d, was[d]);
        FirstInPrefix(front, last, i);
      } else if d in r && d !in t {
        LastIsFirst(front, last);
        assert IsFirst(rows, |front|) && rows[|front|] == Flagged(d, r[d]);
      }
    }
  }

  lemma LastIsFirst(front: seq<Flagged>, last: Flagged)
    requires forall i :: 0 <= i < |front| ==> front[i].domain != last.domain
    ensures IsFirst(front + [last], |front|)
  {
  }

  lemma {:induction false} InsertIgnoreGrows(t: map<string, Option<string>>, rows: seq<Flagged>)
    ensures |InsertIgnore(t, rows)| >= |t|
  {
    if rows != [] {
      InsertIgnoreGrows(t, rows[..|rows| - 1]);
      var front, last := InsertIgnore(t, rows[..|rows| - 1]), rows[|rows| - 1];
      if last.domain !in front {
        assert InsertIgnore(t, rows).Keys == front.Keys + {last.domain};
      }
    }
  }

  const CHUNK := 1000

  class DnsTables {
    var queries: map<Key, Totals>
    var flagged: map<string, Option<string>>

    method UpsertDnsQueriesBulk(rows: seq<Row>)
      modifies this`queries
      ensures queries == UpsertAll(old(queries), rows)
    {
      if rows == [] {
        return;
      }
      queries := UpsertAll(queries, rows);
    }

    /** One INSERT IGNORE statement; the affected rows are the ones it really added. */
    method InsertChunk(chunk: seq<Flagged>) returns (affected: nat)
      modifies this`flagged
      ensures flagged == InsertIgnore(old(flagged), chunk)
      ensures affected == |flagged| - |old(flagged)|
    {
      InsertIgnoreGrows(flagged, chunk);
      affected := |InsertIgnore(flagged, chunk)| - |flagged|;
      flagged := InsertIgnore(flagged, chunk);
    }

    /** The chunks do not show: the result is that of one statement, and the count is that of the domains
        that were really added. */
    method BulkInsertFlaggedDomains(rows: seq<Flagged>) returns (affected: nat)
      modifies this`flagged
      ensures flagged == InsertIgnore(old(flagged), rows)
      ensures affected == |flagged| - |old(flagged)|
    {
      affected := 0;
      if rows == [] {
        return;
      }
      var i := 0;
      ghost var done := 0;
      assert rows[..0] == [];
      while i < |rows|
        invariant done == if i < |rows| then i else |rows|
        invariant 0 <= done <= |rows| && flagged == InsertIgnore(old(flagged), rows[..done])
        invariant affected == |flagged| - |old(flagged)|
      {
        hide InsertIgnore;
        var end := if i + CHUNK < |rows| then i + CHUNK else |rows|;
        var chunk := rows[i..end];
        assert rows[..end] == rows[..i] + chunk;
        InsertIgnoreConcat(old(flagged), rows[..i], chunk);
        var result := InsertChunk(chunk);
        affected := affected + result;
        i, done := i + CHUNK, end;
      }
      assert rows[..|rows|] == rows;
    }
  }
}
