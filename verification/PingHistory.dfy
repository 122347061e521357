/**
  The ping loop's change detection (backend/utils/pingService.js:36-162), the status history it writes
  and the periods read back from it (backend/services/ipStatusHistory.service.js:8-44).
 */
module PingHistory {
  import opened Common

  datatype Entry = Entry(id: int, isOnline: bool, lastChecked: Option<int>, lastStatusChange: Option<int>)

  datatype Change = Change(entryId: int, isOnline: bool, changedAt: int)

  datatype Db = Db(entries: seq<Entry>, history: seq<Change>)

  /** How far a tick gets before a statement fails. */
  datatype Outcome = SelectFails | StatusFails | StampFails | HistoryFails | Done

  // ------------------------------------------------------------------ a tick

  /** The statuses have been stored before the tick fails, if it does. */
  predicate Stores(outcome: Outcome) { !outcome.SelectFails? && !outcome.StatusFails? }

  /** `alive(id)` is the probe's verdict on the entry's address; a probe that throws counts as false. */
  function Checked(e: Entry, alive: int -> bool, now: int): Entry {
    e.(isOnline := alive(e.id), lastChecked := Some(now))
  }

  function Stamped(e: Entry, alive: int -> bool, now: int): Entry {
    if alive(e.id) != e.isOnline then Checked(e, alive, now).(lastStatusChange := Some(now)) else Checked(e, alive, now)
  }

  function CheckAll(entries: seq<Entry>, alive: int -> bool, now: int): seq<Entry> {
    seq(|entries|, i requires 0 <= i < |entries| => Checked(entries[i], alive, now))
  }

  function StampAll(entries: seq<Entry>, alive: int -> bool, now: int): seq<Entry> {
    seq(|entries|, i requires 0 <= i < |entries| => Stamped(entries[i], alive, now))
  }

  function Changes(entries: seq<Entry>, alive: int -> bool, now: int): seq<Change> {
    if entries == [] then []
    else
      var front, last := Changes(entries[..|entries| - 1], alive, now), entries[|entries| - 1];
      if alive(last.id) != last.isOnline then front + [Change(last.id, alive(last.id), now)] else front
  }

  function Tick(db: Db, alive: int -> bool, now: int, outcome: Outcome): (r: Db)
    ensures |r.entries| == |db.entries|
  {
    match outcome
    case SelectFails => db
    case StatusFails => db
    case StampFails => Db(CheckAll(db.entries, alive, now), db.history)
    case HistoryFails => Db(StampAll(db.entries, alive, now), db.history)
    case Done => Db(StampAll(db.entries, alive, now), db.history + Changes(db.entries, alive, now))
  }

  // ------------------------------------------------------------- consistency

  function RowsOf(history: seq<Change>, id: int): seq<Change> {
    if history == [] then []
    else
      var front, last := RowsOf(history[..|history| - 1], id), history[|history| - 1];
      if last.entryId == id then front + [last] else front
  }

  ghost predicate Alternates(rows: seq<Change>) {
    forall i :: 0 < i < |rows| ==> rows[i].isOnline != rows[i - 1].isOnline
  }

  ghost predicate InOrder(rows: seq<Change>) {
    forall i :: 0 < i < |rows| ==> rows[i - 1].changedAt < rows[i].changedAt
  }

  /** The entry's history alternates, its newest row is the entry's status and the time of its last change,
      and all rows are up to `clock`. */
  ghost predicate Consistent(db: Db, k: nat, clock: int)
    requires k < |db.entries|
  {
    var rows := RowsOf(db.history, db.entries[k].id);
    && Alternates(rows) && InOrder(rows)
    && (rows != [] ==>
          && rows[|rows| - 1].isOnline == db.entries[k].isOnline && rows[|rows| - 1].changedAt <= clock
          && db.entries[k].lastStatusChange == Some(rows[|rows| - 1].changedAt))
  }

  ghost predicate DistinctIds(entries: seq<Entry>) {
    forall i, j :: 0 <= i < j < |entries| ==> entries[i].id != entries[j].id
  }

  lemma {:induction false} RowsOfConcat(a: seq<Change>, b: seq<Change>, id: int)
    ensures RowsOf(a + b, id) == RowsOf(a, id) + RowsOf(b, id)
  {
    if b == [] {
      assert a + b == a;
    } else {
      assert (a + b)[..|a + b| - 1] == a + b[..|b| - 1];
      RowsOfConcat(a, b[..|b| - 1], id);
    }
  }

  lemma {:induction false} NoRowForOthers(entries: seq<Entry>, alive: int -> bool, now: int, id: int)
    requires forall i :: 0 <= i < |entries| ==> entries[i].id != id
    ensures RowsOf(Changes(entries, alive, now), id) == []
  {
    if entries != [] {
      var front, last := entries[..|entries| - 1], entries[|entries| - 1];
      NoRowForOthers(front, alive, now, id);
      RowsOfConcat(Changes(front, alive, now), [Change(last.id, alive(last.id), now)], id);
      assert [Change(last.id, alive(last.id), now)][..0] == [];
    }
  }

  /** A tick writes one row for each entry whose status changed, and none for the others. */
  lemma {:induction false} OneRowPerChange(entries: seq<Entry>, alive: int -> bool, now: int, k: nat)
    requires DistinctIds(entries) && k < |entries|
    ensures RowsOf(Changes(entries, alive, now), entries[k].id) ==
            if alive(entries[k].id) != entries[k].isOnline
            then [Change(entries[k].id, alive(entries[k].id), now)]
            else []
  {
    var front, last := entries[..|entries| - 1], entries[|entries| - 1];
    var row := Change(last.id, alive(last.id), now);
    RowsOfConcat(Changes(front, alive, now), [row], entries[k].id);
    assert [row][..0] == [];
    if k < |front| {
      OneRowPerChange(front, alive, now, k);
    } else {
      NoRowForOthers(front, alive, now, last.id);
    }
  }

  /** What a tick does to one entry. */
  lemma TickAt(db: Db, alive: int -> bool, now: int, outcome: Outcome, k: nat)
    requires k < |db.entries|
    ensures var was, after := db.entries[k], Tick(db, alive, now, outcome);
      && after.entries[k] == (if !Stores(outcome) then was
                              else if outcome.StampFails? then Checked(was, alive, now)
                              else Stamped(was, alive, now))
      && after.history == db.history + if outcome.Done? then Changes(db.entries, alive, now) else []
  {
  }

  lemma TickKeepsIds(db: Db, alive: int -> bool, now: int, outcome: Outcome)
    requires DistinctIds(db.entries)
    ensures DistinctIds(Tick(db, alive, now, outcome).entries)
  {
    var after := Tick(db, alive, now, outcome);
    forall i, j | 0 <= i < j < |after.entries| ensures after.entries[i].id != after.entries[j].id {
      hide Tick;
      TickAt(db, alive, now, outcome, i);
      TickAt(db, alive, now, outcome, j);
    }
  }

  /** A tick that stores the statuses and then fails leaves an entry consistent exactly when its status did
      not change or it has no history yet; one that fails earlier does no harm. */
  lemma FailedTickBreaksExactlyWhen(db: Db, alive: int -> bool, now: int, k: nat, clock: int, outcome: Outcome)
    requires k < |db.entries| && Consistent(db, k, clock) && clock < now && !outcome.Done?
    ensures Consistent(Tick(db, alive, now, outcome), k, now) <==>
            || outcome.SelectFails? || outcome.StatusFails?
            || alive(db.entries[k].id) == db.entries[k].isOnline
            || RowsOf(db.history, db.entries[k].id) == []
  {
    var rows := RowsOf(db.history, db.entries[k].id);
    var after := Tick(db, alive, now, outcome);
    assert RowsOf(after.history, after.entries[k].id) == rows;
  }

  // -------------------------------------------------------------------- runs

  datatype Sweep = Sweep(alive: int -> bool, now: int, outcome: Outcome)

  function Run(db: Db, sweeps: seq<Sweep>): (r: Db)
    ensures |r.entries| == |db.entries|
  {
    if sweeps == [] then db
    else
      var last := sweeps[|sweeps| - 1];
      Tick(Run(db, sweeps[..|sweeps| - 1]), last.alive, last.now, last.outcome)
  }

  function ClockAfter(clock: int, sweeps: seq<Sweep>): int {
    if sweeps == [] then clock else sweeps[|sweeps| - 1].now
  }

  ghost predicate ClockRuns(clock: int, sweeps: seq<Sweep>) {
    sweeps == [] ||
    (ClockRuns(clock, sweeps[..|sweeps| - 1]) && ClockAfter(clock, sweeps[..|sweeps| - 1]) < sweeps[|sweeps| - 1].now)
  }

  /** The outcomes of the ticks that changed the entry's status, in order: `Done` if the change was recorded. */
  function Moves(db: Db, sweeps: seq<Sweep>, k: nat): seq<Outcome>
    requires k < |db.entries|
  {
    if sweeps == [] then []
    else
      var front, last := sweeps[..|sweeps| - 1], sweeps[|sweeps| - 1];
      Moves(db, front, k) + MovedBy(Run(db, front).entries[k], last)
  }

  function MovedBy(e: Entry, sweep: Sweep): seq<Outcome> {
    if Stores(sweep.outcome) && sweep.alive(e.id) != e.isOnline then [sweep.outcome] else []
  }

  /** The changes lost since the last recorded one. */
  function LostSince(moves: seq<Outcome>): nat {
    if moves == [] || moves[|moves| - 1].Done? then 0 else 1 + LostSince(moves[..|moves| - 1])
  }

  /** Between two recorded changes an even number was lost; `had` says that something was recorded before. */
  predicate GapsEven(moves: seq<Outcome>, had: bool) {
    moves == [] ||
    var front := moves[..|moves| - 1];
    GapsEven(front, had) && (moves[|moves| - 1].Done? && (had || Done in front) ==> LostSince(front) % 2 == 0)
  }

  /** The last change whose time was stored is the last recorded one. */
  predicate StampKept(moves: seq<Outcome>) {
    moves == [] || moves[|moves| - 1].Done? || (moves[|moves| - 1].StampFails? && StampKept(moves[..|moves| - 1]))
  }

  /** How the entry and its history stand after these changes. */
  ghost predicate Tracks(db: Db, k: nat, clock: int, moves: seq<Outcome>, had: bool)
    requires k < |db.entries|
  {
    var e := db.entries[k];
    var rows := RowsOf(db.history, e.id);
    && (rows != [] <==> had || Done in moves)
    && InOrder(rows)
    && (Alternates(rows) <==> GapsEven(moves, had))
    && (rows != [] ==>
          var newest := rows[|rows| - 1];
          && newest.changedAt <= clock
          && (newest.isOnline == e.isOnline <==> LostSince(moves) % 2 == 0)
          && (e.lastStatusChange == Some(newest.changedAt) <==> StampKept(moves)))
  }

  lemma RowAppended(rows: seq<Change>, row: Change)
    requires InOrder(rows) && (rows != [] ==> rows[|rows| - 1].changedAt < row.changedAt)
    ensures InOrder(rows + [row])
    ensures Alternates(rows + [row]) <==> Alternates(rows) && (rows != [] ==> rows[|rows| - 1].isOnline != row.isOnline)
  {
    var more := rows + [row];
    assert forall i :: 0 <= i < |rows| ==> more[i] == rows[i];
    assert rows != [] && Alternates(more) ==> more[|rows|].isOnline != more[|rows| - 1].isOnline;
  }

  lemma MoveAppended(moves: seq<Outcome>, move: Outcome, had: bool)
    ensures var more := moves + [move];
      && LostSince(more) == (if move.Done? then 0 else 1 + LostSince(moves))
      && (GapsEven(more, had) <==>
          GapsEven(moves, had) && (move.Done? && (had || Done in moves) ==> LostSince(moves) % 2 == 0))
      && (StampKept(more) <==> move.Done? || (move.StampFails? && StampKept(moves)))
      && (Done in more <==> move.Done? || Done in moves)
  {
    assert (moves + [move])[..|moves|] == moves;
  }

  lemma TickTracks(db: Db, sweep: Sweep, k: nat, clock: int, moves: seq<Outcome>, had: bool)
    requires DistinctIds(db.entries) && k < |db.entries| && Tracks(db, k, clock, moves, had) && clock < sweep.now
    ensures Tracks(Tick(db, sweep.alive, sweep.now, sweep.outcome), k, sweep.now,
                   moves + MovedBy(db.entries[k], sweep), had)
  {
    hide Tick, RowsOf, Changes, DistinctIds, Alternates, InOrder, LostSince, GapsEven, StampKept;
    var e := db.entries[k];
    var rows := RowsOf(db.history, e.id);
    TickAt(db, sweep.alive, sweep.now, sweep.outcome, k);
    RowsOfConcat(db.history, Changes(db.entries, sweep.alive, sweep.now), e.id);
    OneRowPerChange(db.entries, sweep.alive, sweep.now, k);
    assert db.history + [] == db.history && rows + [] == rows && moves + [] == moves;
    if MovedBy(e, sweep) != [] {
      MoveAppended(moves, sweep.outcome, had);
      if sweep.outcome.Done? {
        RowAppended(rows, Change(e.id, sweep.alive(e.id), sweep.now));
      }
    }
  }

  lemma {:induction false} RunTracks(db: Db, sweeps: seq<Sweep>, clock: int, k: nat)
    requires DistinctIds(db.entries) && k < |db.entries| && Consistent(db, k, clock) && ClockRuns(clock, sweeps)
    ensures DistinctIds(Run(db, sweeps).entries) && Run(db, sweeps).entries[k].id == db.entries[k].id
    ensures Tracks(Run(db, sweeps), k, ClockAfter(clock, sweeps), Moves(db, sweeps, k),
                   RowsOf(db.history, db.entries[k].id) != [])
  {
    if sweeps != [] {
      hide Consistent, Tracks, Tick, RowsOf;
      var front, last := sweeps[..|sweeps| - 1], sweeps[|sweeps| - 1];
      RunTracks(db, front, clock, k);
      TickTracks(Run(db, front), last, k, ClockAfter(clock, front), Moves(db, front, k),
                 RowsOf(db.history, db.entries[k].id) != []);
      TickAt(Run(db, front), last.alive, last.now, last.outcome, k);
      TickKeepsIds(Run(db, front), last.alive, last.now, last.outcome);
    }
  }

  /** Over any ticks, failed or not: an entry's history alternates exactly when an even number of its changes
      was lost between any two recorded ones, and its newest row is its status exactly when an even number was
      lost since. */
  lemma HistoryAlternatesExactlyWhen(db: Db, sweeps: seq<Sweep>, clock: int, k: nat)
    requires DistinctIds(db.entries) && k < |db.entries| && Consistent(db, k, clock) && ClockRuns(clock, sweeps)
    ensures var e := Run(db, sweeps).entries[k];
      var rows, moves := RowsOf(Run(db, sweeps).history, e.id), Moves(db, sweeps, k);
      var had := RowsOf(db.history, db.entries[k].id) != [];
      && (Alternates(rows) <==> GapsEven(moves, had))
      && (rows != [] ==> (rows[|rows| - 1].isOnline == e.isOnline <==> LostSince(moves) % 2 == 0))
  {
    RunTracks(db, sweeps, clock, k);
  }

  /** The entry is consistent exactly when, besides, the time of no lost change was stored since. */
  lemma RunIsConsistentExactlyWhen(db: Db, sweeps: seq<Sweep>, clock: int, k: nat)
    requires DistinctIds(db.entries) && k < |db.entries| && Consistent(db, k, clock) && ClockRuns(clock, sweeps)
    ensures var moves, had := Moves(db, sweeps, k), RowsOf(db.history, db.entries[k].id) != [];
      Consistent(Run(db, sweeps), k, ClockAfter(clock, sweeps)) <==>
      GapsEven(moves, had) && (had || Done in moves ==> LostSince(moves) % 2 == 0 && StampKept(moves))
  {
    RunTracks(db, sweeps, clock, k);
  }

  lemma {:induction false} NothingLost(moves: seq<Outcome>, had: bool)
    requires forall i :: 0 <= i < |moves| ==> moves[i].Done?
    ensures GapsEven(moves, had) && LostSince(moves) == 0 && StampKept(moves)
  {
    if moves != [] {
      NothingLost(moves[..|moves| - 1], had);
    }
  }

  lemma {:induction false} DoneTicksMoveDone(db: Db, sweeps: seq<Sweep>, k: nat)
    requires k < |db.entries| && forall i :: 0 <= i < |sweeps| ==> sweeps[i].outcome.Done?
    ensures forall i :: 0 <= i < |Moves(db, sweeps, k)| ==> Moves(db, sweeps, k)[i].Done?
  {
    if sweeps != [] {
      hide Run;
      DoneTicksMoveDone(db, sweeps[..|sweeps| - 1], k);
    }
  }

  /** Over ticks that do not fail, every entry's history alternates and ends in its status. */
  lemma RunsStayConsistent(db: Db, sweeps: seq<Sweep>, clock: int, k: nat)
    requires DistinctIds(db.entries) && k < |db.entries| && Consistent(db, k, clock) && ClockRuns(clock, sweeps)
    requires forall i :: 0 <= i < |sweeps| ==> sweeps[i].outcome.Done?
    ensures Consistent(Run(db, sweeps), k, ClockAfter(clock, sweeps))
  {
    hide Consistent, Run, Moves;
    DoneTicksMoveDone(db, sweeps, k);
    NothingLost(Moves(db, sweeps, k), RowsOf(db.history, db.entries[k].id) != []);
    RunIsConsistentExactlyWhen(db, sweeps, clock, k);
  }

  lemma RowsOfOne(row: Change)
    ensures RowsOf([row], row.entryId) == [row]
  {
    assert [row][..0] == [] && [row][0] == row;
  }

  lemma RunOne(db: Db, sweeps: seq<Sweep>, sweep: Sweep)
    ensures Run(db, sweeps + [sweep]) == Tick(Run(db, sweeps), sweep.alive, sweep.now, sweep.outcome)
  {
    assert (sweeps + [sweep])[..|sweeps|] == sweeps;
  }

  /** The database at the start, and after the tick whose change is lost. */
  const ONLINE := Db([Entry(1, true, Some(5), Some(5))], [Change(1, true, 5)])

  const WENT_OFF := Db([Entry(1, false, Some(10), Some(5))], [Change(1, true, 5)])

  const OFF := Sweep(_ => false, 10, StampFails)

  const ON_AGAIN := Sweep(_ => true, 15, Done)

  lemma TickLosesTheChange()
    ensures Run(ONLINE, [OFF]) == WENT_OFF
    ensures Consistent(ONLINE, 0, 5) && !Consistent(WENT_OFF, 0, 10)
  {
    RowsOfOne(Change(1, true, 5));
    RunOne(ONLINE, [], OFF);
    assert [] + [OFF] == [OFF];
    hide RowsOf, Changes, Tick;
    TickAt(ONLINE, OFF.alive, 10, StampFails, 0);
    assert Tick(ONLINE, OFF.alive, 10, StampFails).entries == WENT_OFF.entries;
  }

  lemma TickRecordsTheNext()
    ensures RowsOf(Tick(WENT_OFF, ON_AGAIN.alive, 15, Done).history, 1) == [Change(1, true, 5), Change(1, true, 15)]
  {
    RowsOfOne(Change(1, true, 5));
    hide RowsOf, Changes, Tick;
    TickAt(WENT_OFF, ON_AGAIN.alive, 15, Done, 0);
    OneRowPerChange(WENT_OFF.entries, ON_AGAIN.alive, 15, 0);
    RowsOfConcat(WENT_OFF.history, Changes(WENT_OFF.entries, ON_AGAIN.alive, 15), 1);
  }

  /** An entry that is online goes off and on again, and the tick that sees it off fails after storing the
      statuses: the entry contradicts its newest row, and then its history says "online" twice. */
  lemma LostChangeBreaksTheHistory()
    ensures Consistent(ONLINE, 0, 5) && !Consistent(Run(ONLINE, [OFF]), 0, 10)
    ensures var rows := RowsOf(Run(ONLINE, [OFF, ON_AGAIN]).history, 1);
      rows == [Change(1, true, 5), Change(1, true, 15)] && !Alternates(rows)
  {
    hide Run, RowsOf, Changes, Tick, Consistent;
    TickLosesTheChange();
    TickRecordsTheNext();
    RunOne(ONLINE, [OFF], ON_AGAIN);
    assert [OFF] + [ON_AGAIN] == [OFF, ON_AGAIN];
    var rows := RowsOf(Run(ONLINE, [OFF, ON_AGAIN]).history, 1);
    assert rows[1].isOnline == rows[0].isOnline;
  }

  // ----------------------------------------------------------------- periods

  datatype Period = Period(online: bool, from: int, to: Option<int>)

  function Reverse<T>(s: seq<T>): (r: seq<T>)
    ensures |r| == |s|
    ensures forall i :: 0 <= i < |s| ==> r[i] == s[|s| - 1 - i]
  {
    if s == [] then [] else [s[|s| - 1]] + Reverse(s[..|s| - 1])
  }

  function BuildPeriods(entry: Entry, historyDesc: seq<Change>): seq<Period> {
    var ascending := Reverse(historyDesc);
    if ascending == [] then
      if entry.lastStatusChange.None? then [] else [Period(entry.isOnline, entry.lastStatusChange.value, None)]
    else
      Reverse(seq(|ascending|, i requires 0 <= i < |ascending| =>
        Period(ascending[i].isOnline, ascending[i].changedAt,
               if i + 1 < |ascending| then Some(ascending[i + 1].changedAt) else None)))
  }

  /** The newest rows, up to the limit. */
  function Read(rows: seq<Change>, limit: nat): seq<Change> {
    if |rows| <= limit then rows else rows[|rows| - limit..]
  }

  /** ORDER BY changed_at DESC LIMIT: the newest rows first. */
  function Newest(rows: seq<Change>, limit: nat): seq<Change> {
    Reverse(Read(rows, limit))
  }

  /** Newest first: the period is open exactly if it is the newest; any other ends where the one after it
      began, and has the other status. */
  ghost predicate Fits(periods: seq<Period>, i: nat)
    requires i < |periods|
  {
    && (periods[i].to.None? <==> i == 0)
    && (i > 0 ==>
          && periods[i].to == Some(periods[i - 1].from) && periods[i].online != periods[i - 1].online
          && periods[i].from < periods[i - 1].from)
  }

  ghost predicate Contiguous(periods: seq<Period>) {
    forall i :: 0 <= i < |periods| ==> Fits(periods, i)
  }

  function Shown(rows: seq<Change>, limit: nat): nat { if |rows| <= limit then |rows| else limit }

  lemma NewestAt(rows: seq<Change>, limit: nat)
    ensures |Newest(rows, limit)| == Shown(rows, limit)
    ensures forall i :: 0 <= i < Shown(rows, limit) ==> Newest(rows, limit)[i] == rows[|rows| - 1 - i]
  {
  }

  /** The i-th newest period runs from the i-th newest change to the one after it. */
  lemma PeriodAt(entry: Entry, desc: seq<Change>, i: nat)
    requires i < |desc|
    ensures |BuildPeriods(entry, desc)| == |desc|
    ensures BuildPeriods(entry, desc)[i] ==
            Period(desc[i].isOnline, desc[i].changedAt, if i == 0 then None else Some(desc[i - 1].changedAt))
  {
    var ascending := Reverse(desc);
    assert ascending[|desc| - 1 - i] == desc[i];
    if i > 0 {
      assert ascending[|desc| - i] == desc[i - 1];
    }
  }

  lemma FitsAt(entry: Entry, rows: seq<Change>, limit: nat, i: nat)
    requires InOrder(rows) && i < Shown(rows, limit)
    ensures |BuildPeriods(entry, Newest(rows, limit))| == Shown(rows, limit)
    ensures Fits(BuildPeriods(entry, Newest(rows, limit)), i) <==>
            i == 0 || rows[|rows| - 1 - i].isOnline != rows[|rows| - i].isOnline
  {
    hide BuildPeriods, Newest, InOrder;
    var desc := Newest(rows, limit);
    NewestAt(rows, limit);
    PeriodAt(entry, desc, i);
    if i > 0 {
      PeriodAt(entry, desc, i - 1);
      Earlier(rows, |rows| - i);
    }
  }

  lemma Earlier(rows: seq<Change>, i: nat)
    requires InOrder(rows) && 0 < i < |rows|
    ensures rows[i - 1].changedAt < rows[i].changedAt
  {
  }

  /** The i-th newest row that is read has another status than the next newer one. */
  predicate Differs(read: seq<Change>, i: nat) {
    0 < i < |read| ==> read[|read| - 1 - i].isOnline != read[|read| - i].isOnline
  }

  lemma DiffersExactlyWhen(read: seq<Change>)
    ensures (forall i :: 0 <= i < |read| ==> Differs(read, i)) <==> Alternates(read)
  {
    if forall i :: 0 <= i < |read| ==> Differs(read, i) {
      forall i | 0 < i < |read|
        ensures read[i].isOnline != read[i - 1].isOnline
      {
        assert Differs(read, |read| - i);
      }
    }
  }

  lemma FitsOfRead(entry: Entry, rows: seq<Change>, limit: nat, i: nat)
    requires InOrder(rows) && i < Shown(rows, limit)
    ensures |BuildPeriods(entry, Newest(rows, limit))| == Shown(rows, limit) == |Read(rows, limit)|
    ensures Fits(BuildPeriods(entry, Newest(rows, limit)), i) <==> Differs(Read(rows, limit), i)
  {
    hide BuildPeriods, Newest, InOrder, Fits;
    FitsAt(entry, rows, limit, i);
  }

  /** The periods are gapless and alternate exactly when the rows that are read do. */
  lemma PeriodsOf(entry: Entry, rows: seq<Change>, limit: nat)
    requires InOrder(rows) && rows != [] && limit > 0
    ensures var periods := BuildPeriods(entry, Newest(rows, limit));
      && (Contiguous(periods) <==> Alternates(Read(rows, limit)))
      && |periods| == Shown(rows, limit)
      && periods[0] == Period(rows[|rows| - 1].isOnline, rows[|rows| - 1].changedAt, None)
  {
    NewestAt(rows, limit);
    hide BuildPeriods, Newest, InOrder, Fits, Alternates, Differs, Read;
    PeriodAt(entry, Newest(rows, limit), 0);
    var periods, read := BuildPeriods(entry, Newest(rows, limit)), Read(rows, limit);
    FitsOfRead(entry, rows, limit, 0);
    forall i | 0 <= i < |periods|
      ensures Fits(periods, i) <==> Differs(read, i)
    {
      FitsOfRead(entry, rows, limit, i);
    }
    DiffersExactlyWhen(read);
  }

  lemma AlternatesInPart(rows: seq<Change>, limit: nat)
    requires Alternates(rows)
    ensures Alternates(Read(rows, limit))
  {
  }

  /** Without history the one period comes from the entry itself. */
  lemma NoRowsOnePeriod(entry: Entry, limit: nat)
    ensures var periods := BuildPeriods(entry, Newest([], limit));
      && Contiguous(periods)
      && match entry.lastStatusChange
         case None => periods == []
         case Some(since) => periods == [Period(entry.isOnline, since, None)]
  {
    NewestAt([], limit);
  }

  /** What the uptime page shows after any ticks, failed or not: if an even number of changes was lost between
      any two recorded ones, gapless periods of alternating status for any limit on the rows read, and only
      then if all are read; the open period has the entry's status exactly when an even number was lost since. */
  lemma UptimeIsGaplessExactlyWhen(db: Db, sweeps: seq<Sweep>, clock: int, k: nat, limit: nat)
    requires DistinctIds(db.entries) && k < |db.entries| && Consistent(db, k, clock) && ClockRuns(clock, sweeps)
    requires limit > 0
    ensures var entry := Run(db, sweeps).entries[k];
      var rows := RowsOf(Run(db, sweeps).history, entry.id);
      var periods := BuildPeriods(entry, Newest(rows, limit));
      var moves, had := Moves(db, sweeps, k), RowsOf(db.history, db.entries[k].id) != [];
      && (GapsEven(moves, had) ==> Contiguous(periods))
      && (|rows| <= limit ==> (Contiguous(periods) <==> GapsEven(moves, had)))
      && (periods != [] ==> (periods[0].online == entry.isOnline <==> rows == [] || LostSince(moves) % 2 == 0))
  {
    hide Run, Moves, BuildPeriods, Newest, RowsOf, Contiguous, Alternates, InOrder;
    RunTracks(db, sweeps, clock, k);
    var entry := Run(db, sweeps).entries[k];
    var rows := RowsOf(Run(db, sweeps).history, entry.id);
    if rows == [] {
      NoRowsOnePeriod(entry, limit);
      NothingAlternates();
    } else {
      PeriodsOf(entry, rows, limit);
      if Alternates(rows) {
        AlternatesInPart(rows, limit);
      }
    }
  }

  lemma NothingAlternates()
    ensures Alternates([])
  {
  }

  // ----------------------------------------------------------------- the loop

  datatype Probed = Probed(id: int, prev: bool, alive: bool)

  predicate Mentions(changed: seq<Change>, id: int) {
    exists i :: 0 <= i < |changed| && changed[i].entryId == id
  }

  lemma {:induction false} MentionsByRows(changed: seq<Change>, id: int)
    ensures Mentions(changed, id) <==> RowsOf(changed, id) != []
  {
    if changed != [] {
      var front, last := changed[..|changed| - 1], changed[|changed| - 1];
      MentionsByRows(front, id);
      assert changed == front + [last];
      if Mentions(front, id) {
        var i :| 0 <= i < |front| && front[i].entryId == id;
        assert changed[i].entryId == id;
      }
      if last.entryId == id {
        assert changed[|front|].entryId == id;
      }
    }
  }

  /** The update "WHERE id IN (changed)" reaches exactly the entries whose status changed. */
  lemma MentionedAreChanged(entries: seq<Entry>, alive: int -> bool, now: int)
    requires DistinctIds(entries)
    ensures forall k :: 0 <= k < |entries| ==>
              (Mentions(Changes(entries, alive, now), entries[k].id) <==> alive(entries[k].id) != entries[k].isOnline)
  {
    forall k | 0 <= k < |entries|
      ensures Mentions(Changes(entries, alive, now), entries[k].id) <==> alive(entries[k].id) != entries[k].isOnline
    {
      OneRowPerChange(entries, alive, now, k);
      MentionsByRows(Changes(entries, alive, now), entries[k].id);
    }
  }

  class PingService {
    var entries: seq<Entry>
    var history: seq<Change>

    ghost function State(): Db reads this {
      Db(entries, history)
    }

    method Probe(alive: int -> bool) returns (results: seq<Probed>)
      ensures |results| == |entries|
      ensures forall i :: 0 <= i < |entries| ==>
                results[i] == Probed(entries[i].id, entries[i].isOnline, alive(entries[i].id))
    {
      results := seq(|entries|, i requires 0 <= i < |entries| reads this =>
        Probed(entries[i].id, entries[i].isOnline, alive(entries[i].id)));
    }

    method DoTick(alive: int -> bool, now: int, outcome: Outcome)
      requires DistinctIds(entries)
      modifies this
      ensures State() == Tick(old(State()), alive, now, outcome)
    {
      if outcome == SelectFails {
        return;
      }
      var results := Probe(alive);
      var changed: seq<Change> := [];
      for i := 0 to |results|
        invariant changed == Changes(entries[..i], alive, now)
      {
        assert entries[..i + 1][..i] == entries[..i];
        var r := results[i];
        if r.prev != r.alive {
          changed := changed + [Change(r.id, r.alive, now)];
        }
      }
      assert entries[..|results|] == entries;
      if outcome == StatusFails {
        return;
      }
      MentionedAreChanged(entries, alive, now);
      entries := CheckAll(entries, alive, now);
      if changed != [] {
        if outcome == StampFails {
          return;
        }
        entries := seq(|entries|, i requires 0 <= i < |entries| reads this =>
          if Mentions(changed, entries[i].id) then entries[i].(lastStatusChange := Some(now)) else entries[i]);
        if outcome == HistoryFails {
          return;
        }
        history := history + changed;
      }
    }
  }
}
