/**
  Removal of ghost references (backend/repositories/dbCleanup.repo.js).
  The database is a map from (table, primary key) to a row; a column that is absent or None is NULL.
 */
module DbCleanup {
  import opened Common

  datatype TableName =
    | IpEntries | Agents | AvailableUpdates | Drivers | EventLogs | ComputerMetadata | ComputerPrinters
    | Services | Software | Updates | StatusHistory | Printers | PrinterConnectedComputers
    | AgentJobs | AgentMonitoring | AgentMonitoringHistory | AgentUpdateLog
    | MetadataGpus | MetadataNics | MetadataRamModules | MetadataStorage

  datatype Column = IpEntryId | HostComputerId | AgentId | MetadataId

  datatype Rel = Rel(table: TableName, column: Column, parent: TableName, nullable: bool)

  datatype Key = Key(table: TableName, id: int)

  type Row = map<Column, Option<int>>

  type Db = map<Key, Row>

  /** The list and its order as in the source. */
  const RELATIONSHIPS: seq<Rel> := [
    Rel(Agents, IpEntryId, IpEntries, true),
    Rel(AvailableUpdates, IpEntryId, IpEntries, false),
    Rel(Drivers, IpEntryId, IpEntries, false),
    Rel(EventLogs, IpEntryId, IpEntries, false),
    Rel(ComputerMetadata, IpEntryId, IpEntries, false),
    Rel(ComputerPrinters, IpEntryId, IpEntries, false),
    Rel(Services, IpEntryId, IpEntries, false),
    Rel(Software, IpEntryId, IpEntries, false),
    Rel(Updates, IpEntryId, IpEntries, false),
    Rel(StatusHistory, IpEntryId, IpEntries, false),
    Rel(Printers, HostComputerId, IpEntries, true),
    Rel(PrinterConnectedComputers, IpEntryId, IpEntries, false),
    Rel(AgentJobs, AgentId, Agents, false),
    Rel(AgentMonitoring, AgentId, Agents, false),
    Rel(AgentMonitoringHistory, AgentId, Agents, false),
    Rel(AgentUpdateLog, AgentId, Agents, false),
    Rel(MetadataGpus, MetadataId, ComputerMetadata, false),
    Rel(MetadataNics, MetadataId, ComputerMetadata, false),
    Rel(MetadataRamModules, MetadataId, ComputerMetadata, false),
    Rel(MetadataStorage, MetadataId, ComputerMetadata, false)
  ]

  function Cell(row: Row, column: Column): Option<int> {
    if column in row then row[column] else None
  }

  /** `orphanWhere`: NOT EXISTS a parent; a NULL finds no parent either, so only a nullable column excuses it. */
  predicate Orphan(db: Db, rel: Rel, k: Key) {
    && k in db && k.table == rel.table
    && match Cell(db[k], rel.column)
       case None => !rel.nullable
       case Some(id) => Key(rel.parent, id) !in db
  }

  function Orphans(db: Db, rel: Rel): set<Key> {
    set k | k in db && Orphan(db, rel, k)
  }

  function DeleteOrphans(db: Db, rel: Rel): Db {
    map k | k in db && !Orphan(db, rel, k) :: db[k]
  }

  /** One DELETE per relation, in list order. */
  function Clean(db: Db, rels: seq<Rel>): Db {
    if rels == [] then db else DeleteOrphans(Clean(db, rels[..|rels| - 1]), rels[|rels| - 1])
  }

  /** The entries of `cleaned` for the deletions. */
  function Report(db: Db, rels: seq<Rel>): seq<(TableName, Column, nat)> {
    if rels == [] then []
    else
      var rel := rels[|rels| - 1];
      var deleted := |Orphans(Clean(db, rels[..|rels| - 1]), rel)|;
      Report(db, rels[..|rels| - 1]) + (if deleted > 0 then [(rel.table, rel.column, deleted)] else [])
  }

  // --------------------------------------------- the denormalised pointer

  predicate DescribedBy(db: Db, entry: Key, meta: Key) {
    && meta in db && meta.table == ComputerMetadata && entry.table == IpEntries
    && Cell(db[meta], IpEntryId) == Some(entry.id)
  }

  /** ip_entries.metadata_id is NULL although a computer_metadata row for the entry exists. */
  predicate Desynced(db: Db, entry: Key, meta: Key) {
    entry in db && DescribedBy(db, entry, meta) && Cell(db[entry], MetadataId).None?
  }

  /** The rows of the join: an entry counts once for every metadata row that describes it. */
  function DesyncedPairs(db: Db): set<(Key, Key)> {
    set k, meta | k in db && meta in db && Desynced(db, k, meta) :: (k, meta)
  }

  /** The rows the UPDATE changes: an entry counts once. */
  function DesyncedEntries(db: Db): set<Key> {
    set k, meta | k in db && meta in db && Desynced(db, k, meta) :: k
  }

  ghost predicate NeedsPointer(db: Db, entry: Key) {
    exists meta :: Desynced(db, entry, meta)
  }

  ghost predicate FixedRow(before: Db, k: Key, row: Row)
    requires k in before
  {
    if NeedsPointer(before, k)
    then exists meta :: Desynced(before, k, meta) && row == before[k][MetadataId := Some(meta.id)]
    else row == before[k]
  }

  /** Effect of the UPDATE ... JOIN: which of several matching rows wins is left open. */
  ghost predicate PointersFixed(before: Db, after: Db) {
    after.Keys == before.Keys && forall k :: k in before ==> FixedRow(before, k, after[k])
  }

  /** The UPDATE has reached every entry but those `left`. */
  ghost predicate PartlyFixed(before: Db, now: Db, left: set<Key>) {
    && now.Keys == before.Keys
    && (forall k :: k in left ==> k in before && now[k] == before[k] && NeedsPointer(before, k))
    && (forall k :: k in before && k !in left ==> FixedRow(before, k, now[k]))
    && (forall k :: k in before && k.table != IpEntries ==> now[k] == before[k])
  }

  lemma FixingStarts(before: Db)
    ensures PartlyFixed(before, before, DesyncedEntries(before))
  {
    forall k
      ensures k in DesyncedEntries(before) <==> NeedsPointer(before, k)
    {
      if meta :| Desynced(before, k, meta) {
        assert k in before && meta in before;
      }
    }
  }

  lemma FixingFindsARow(before: Db, now: Db, left: set<Key>, k: Key)
    requires PartlyFixed(before, now, left) && k in left
    ensures exists meta :: meta in now && Desynced(now, k, meta)
  {
    var meta :| Desynced(before, k, meta);
    assert meta in now && Desynced(now, k, meta);
  }

  lemma FixingOne(before: Db, now: Db, left: set<Key>, k: Key, meta: Key)
    requires PartlyFixed(before, now, left) && k in left && Desynced(now, k, meta)
    ensures PartlyFixed(before, now[k := now[k][MetadataId := Some(meta.id)]], left - {k})
  {
    assert Desynced(before, k, meta);
    var row := now[k][MetadataId := Some(meta.id)];
    assert FixedRow(before, k, row);
  }

  // ------------------------------------------------- in terms of rows and cells

  predicate Holds(row: Row, c: Column, id: int) {
    c in row && row[c] == Some(id)
  }

  predicate HoldsSomething(row: Row, c: Column) {
    c in row && row[c].Some?
  }

  /** The row names a row of the parent table, or none where none is needed. */
  predicate Refers(db: Db, k: Key, rel: Rel)
    requires k in db
  {
    if HoldsSomething(db[k], rel.column) then Key(rel.parent, db[k][rel.column].value) in db else rel.nullable
  }

  ghost predicate EveryRowRefers(db: Db) {
    forall i, k :: 0 <= i < |RELATIONSHIPS| && k in db && k.table == RELATIONSHIPS[i].table ==>
      Refers(db, k, RELATIONSHIPS[i])
  }

  /** A row is gone only because what it would refer to is not there, or because it names nothing and must. */
  ghost predicate RemovedForAReason(before: Db, after: Db) {
    forall k :: k in before && k !in after ==>
      exists i :: 0 <= i < |RELATIONSHIPS| && k.table == RELATIONSHIPS[i].table &&
        if HoldsSomething(before[k], RELATIONSHIPS[i].column)
        then Key(RELATIONSHIPS[i].parent, before[k][RELATIONSHIPS[i].column].value) !in after
        else !RELATIONSHIPS[i].nullable
  }

  /** No row is new, and one that is still there is unchanged, unless it is an entry that had no metadata_id:
      that may now be the id of a metadata row of this entry. */
  ghost predicate OnlyPointersChange(before: Db, after: Db) {
    forall k :: k in after ==>
      && k in before
      && (after[k] != before[k] ==>
            && k.table == IpEntries && !HoldsSomething(before[k], MetadataId)
            && exists id :: Key(ComputerMetadata, id) in after &&
                            Holds(after[Key(ComputerMetadata, id)], IpEntryId, k.id) &&
                            after[k] == before[k][MetadataId := Some(id)])
  }

  /** An entry for which there is a metadata row has a metadata_id. */
  ghost predicate PointersAreSet(db: Db) {
    forall k, id ::
      k in db && k.table == IpEntries && Key(ComputerMetadata, id) in db &&
      Holds(db[Key(ComputerMetadata, id)], IpEntryId, k.id) ==>
        HoldsSomething(db[k], MetadataId)
  }

  lemma OrphanMeans(db: Db, rel: Rel, k: Key)
    ensures Orphan(db, rel, k) <==> k in db && k.table == rel.table && !Refers(db, k, rel)
  {
  }

  lemma DesyncedMeans(db: Db, entry: Key, meta: Key)
    ensures Desynced(db, entry, meta) <==>
            && entry in db && meta in db && entry.table == IpEntries && meta.table == ComputerMetadata
            && !HoldsSomething(db[entry], MetadataId) && Holds(db[meta], IpEntryId, entry.id)
  {
  }

  lemma AuditMeans(db: Db)
    ensures forall i :: 0 <= i < |RELATIONSHIPS| ==>
              Orphans(db, RELATIONSHIPS[i]) ==
              set k | k in db && k.table == RELATIONSHIPS[i].table && !Refers(db, k, RELATIONSHIPS[i])
    ensures DesyncedPairs(db) ==
            set entry, meta |
              entry in db && meta in db && entry.table == IpEntries && meta.table == ComputerMetadata &&
              !HoldsSomething(db[entry], MetadataId) && Holds(db[meta], IpEntryId, entry.id) :: (entry, meta)
  {
    hide Orphan, Refers, Desynced, Holds, HoldsSomething;
    forall i | 0 <= i < |RELATIONSHIPS|
      ensures Orphans(db, RELATIONSHIPS[i]) ==
              set k | k in db && k.table == RELATIONSHIPS[i].table && !Refers(db, k, RELATIONSHIPS[i])
    {
      forall k ensures Orphan(db, RELATIONSHIPS[i], k) <==>
                       k in db && k.table == RELATIONSHIPS[i].table && !Refers(db, k, RELATIONSHIPS[i]) {
        OrphanMeans(db, RELATIONSHIPS[i], k);
      }
      SameSets(Orphans(db, RELATIONSHIPS[i]),
               set k | k in db && k.table == RELATIONSHIPS[i].table && !Refers(db, k, RELATIONSHIPS[i]));
    }
    PairsMean(db);
  }

  lemma PairsMean(db: Db)
    ensures DesyncedPairs(db) ==
            set entry, meta |
              entry in db && meta in db && entry.table == IpEntries && meta.table == ComputerMetadata &&
              !HoldsSomething(db[entry], MetadataId) && Holds(db[meta], IpEntryId, entry.id) :: (entry, meta)
  {
    hide Desynced, Holds, HoldsSomething;
    forall entry, meta
      ensures Desynced(db, entry, meta) <==>
              && entry in db && meta in db && entry.table == IpEntries && meta.table == ComputerMetadata
              && !HoldsSomething(db[entry], MetadataId) && Holds(db[meta], IpEntryId, entry.id)
    {
      DesyncedMeans(db, entry, meta);
    }
  }

  /** A removed row was an orphan when its relation's turn came, and what it lacked then it lacks at the end. */
  lemma {:induction false} RemovedWasOrphan(db: Db, rels: seq<Rel>, k: Key) returns (i: nat)
    requires k in db && k !in Clean(db, rels) && ParentsFirst(rels)
    ensures i < |rels| && k.table == rels[i].table
    ensures match Cell(db[k], rels[i].column)
            case None => !rels[i].nullable
            case Some(id) => Key(rels[i].parent, id) !in Clean(db, rels)
  {
    var front, rel := rels[..|rels| - 1], rels[|rels| - 1];
    CleanKeepsRows(db, front);
    if k in Clean(db, front) {
      i := |rels| - 1;
    } else {
      i := RemovedWasOrphan(db, front, k);
    }
  }

  lemma RowsAreAsTheyShould(before: Db, after: Db)
    requires PointersFixed(Clean(before, RELATIONSHIPS), after)
    ensures EveryRowRefers(after) && RemovedForAReason(before, after)
  {
    var cleaned := Clean(before, RELATIONSHIPS);
    RelationshipsAreParentsFirst();
    OnePassLeavesNoOrphans(before, RELATIONSHIPS);
    CleanKeepsRows(before, RELATIONSHIPS);
    hide Clean, NeedsPointer, Orphan, ParentsFirst;
    forall i, k | 0 <= i < |RELATIONSHIPS| && k in after && k.table == RELATIONSHIPS[i].table
      ensures Refers(after, k, RELATIONSHIPS[i])
    {
      assert !Orphan(cleaned, RELATIONSHIPS[i], k);
      OrphanMeans(cleaned, RELATIONSHIPS[i], k);
      assert FixedRow(cleaned, k, after[k]);
      NotAnEntry(cleaned, k, after[k]);
    }
    forall k | k in before && k !in after
      ensures exists i :: 0 <= i < |RELATIONSHIPS| && k.table == RELATIONSHIPS[i].table &&
                if HoldsSomething(before[k], RELATIONSHIPS[i].column)
                then Key(RELATIONSHIPS[i].parent, before[k][RELATIONSHIPS[i].column].value) !in after
                else !RELATIONSHIPS[i].nullable
    {
      var i := RemovedWasOrphan(before, RELATIONSHIPS, k);
    }
  }

  lemma NotAnEntry(db: Db, k: Key, row: Row)
    requires k in db && FixedRow(db, k, row) && k.table != IpEntries
    ensures row == db[k]
  {
  }

  lemma OnlyPointersAreChanged(before: Db, after: Db)
    requires PointersFixed(Clean(before, RELATIONSHIPS), after)
    ensures OnlyPointersChange(before, after)
    ensures forall k :: k in DesyncedEntries(Clean(before, RELATIONSHIPS)) <==>
                        k in before && k in after && after[k] != before[k]
  {
    hide Clean, Desynced, DesyncedEntries, Holds, HoldsSomething, FixedRow;
    var cleaned := Clean(before, RELATIONSHIPS);
    CleanKeepsRows(before, RELATIONSHIPS);
    forall k | k in after
      ensures k in before
      ensures after[k] != before[k] ==>
                && k.table == IpEntries && !HoldsSomething(before[k], MetadataId)
                && exists id :: Key(ComputerMetadata, id) in after &&
                                Holds(after[Key(ComputerMetadata, id)], IpEntryId, k.id) &&
                                after[k] == before[k][MetadataId := Some(id)]
      ensures k in DesyncedEntries(cleaned) <==> after[k] != before[k]
    {
      PointerMeans(cleaned, after, k);
    }
    DesyncedAreRows(cleaned);
  }

  lemma DesyncedAreRows(db: Db)
    ensures forall k :: k in DesyncedEntries(db) ==> k in db
  {
  }

  lemma NoPointerIsMissing(cleaned: Db, after: Db)
    requires PointersFixed(cleaned, after)
    ensures PointersAreSet(after)
  {
    forall k, id | k in after && k.table == IpEntries && Key(ComputerMetadata, id) in after &&
                   Holds(after[Key(ComputerMetadata, id)], IpEntryId, k.id)
      ensures HoldsSomething(after[k], MetadataId)
    {
      var meta := Key(ComputerMetadata, id);
      assert FixedRow(cleaned, meta, after[meta]) && FixedRow(cleaned, k, after[k]);
      hide Desynced, FixedRow;
      MetadataStays(cleaned, meta, after[meta]);
      PointedWhenDescribed(cleaned, after, k, meta);
    }
  }

  lemma PointedWhenDescribed(cleaned: Db, after: Db, k: Key, meta: Key)
    requires k in cleaned && k in after && meta in cleaned && FixedRow(cleaned, k, after[k])
    requires k.table == IpEntries && meta.table == ComputerMetadata && Holds(cleaned[meta], IpEntryId, k.id)
    ensures HoldsSomething(after[k], MetadataId)
  {
    DesyncedMeans(cleaned, k, meta);
  }

  lemma MetadataStays(db: Db, k: Key, row: Row)
    requires k in db && FixedRow(db, k, row) && k.table == ComputerMetadata
    ensures row == db[k]
  {
  }

  lemma PointerMeans(cleaned: Db, after: Db, k: Key)
    requires PointersFixed(cleaned, after) && k in cleaned
    ensures after[k] != cleaned[k] ==>
              && k.table == IpEntries && !HoldsSomething(cleaned[k], MetadataId)
              && exists id :: Key(ComputerMetadata, id) in after &&
                              Holds(after[Key(ComputerMetadata, id)], IpEntryId, k.id) &&
                              after[k] == cleaned[k][MetadataId := Some(id)]
    ensures k in DesyncedEntries(cleaned) <==> after[k] != cleaned[k]
  {
    assert FixedRow(cleaned, k, after[k]);
    hide Desynced;
    if NeedsPointer(cleaned, k) {
      var meta :| Desynced(cleaned, k, meta) && after[k] == cleaned[k][MetadataId := Some(meta.id)];
      DesyncedMeans(cleaned, k, meta);
      assert FixedRow(cleaned, meta, after[meta]);
      MetadataStays(cleaned, meta, after[meta]);
      assert meta == Key(ComputerMetadata, meta.id);
      assert MetadataId in after[k] && after[k][MetadataId].Some?;
    }
  }

  class Database {
    var db: Db

    method AuditGhostReferences() returns (orphanCounts: seq<nat>, desynced: nat)
      ensures |orphanCounts| == |RELATIONSHIPS|
      ensures forall i :: 0 <= i < |RELATIONSHIPS| ==> orphanCounts[i] == |Orphans(db, RELATIONSHIPS[i])|
      ensures forall i :: 0 <= i < |RELATIONSHIPS| ==>
                orphanCounts[i] == |set k | k in db && k.table == RELATIONSHIPS[i].table &&
                                            !Refers(db, k, RELATIONSHIPS[i])|
      ensures desynced == |DesyncedPairs(db)|
      ensures desynced ==
              |set entry, meta |
                entry in db && meta in db && entry.table == IpEntries && meta.table == ComputerMetadata &&
                !HoldsSomething(db[entry], MetadataId) && Holds(db[meta], IpEntryId, entry.id) :: (entry, meta)|
    {
      AuditMeans(db);
      orphanCounts := [];
      for i := 0 to |RELATIONSHIPS|
        invariant |orphanCounts| == i
        invariant forall j :: 0 <= j < i ==> orphanCounts[j] == |Orphans(db, RELATIONSHIPS[j])|
      {
        orphanCounts := orphanCounts + [|Orphans(db, RELATIONSHIPS[i])|];
      }
      desynced := |DesyncedPairs(db)|;
    }

    method CleanGhostReferences() returns (cleaned: seq<(TableName, Column, nat)>, fixed: nat)
      modifies this
      ensures PointersFixed(Clean(old(db), RELATIONSHIPS), db)
      ensures cleaned == Report(old(db), RELATIONSHIPS)
      ensures fixed == |DesyncedEntries(Clean(old(db), RELATIONSHIPS))|
      ensures EveryRowRefers(db) && RemovedForAReason(old(db), db) && OnlyPointersChange(old(db), db)
      ensures PointersAreSet(db)
      ensures fixed == |set k | k in old(db) && k in db && db[k] != old(db)[k]|
      ensures forall i :: 0 <= i < |RELATIONSHIPS| ==>
                var rel := RELATIONSHIPS[i];
                var gone := |set k | k in old(db) && k !in db && k.table == rel.table|;
                if gone > 0 then (rel.table, rel.column, gone) in cleaned
                else forall n :: (rel.table, rel.column, n) !in cleaned
    {
      hide PointersFixed, Clean, Report, DesyncedEntries, EveryRowRefers, RemovedForAReason, OnlyPointersChange;
      hide PointersAreSet;
      cleaned := DeleteGhosts(RELATIONSHIPS);
      fixed := FixPointers();
      CleanUpMeans(old(db), db);
    }

    /** The loop over the relations. */
    method DeleteGhosts(rels: seq<Rel>) returns (cleaned: seq<(TableName, Column, nat)>)
      modifies this
      ensures db == Clean(old(db), rels)
      ensures cleaned == Report(old(db), rels)
    {
      hide Orphans, DeleteOrphans;
      cleaned := [];
      for i := 0 to |rels|
        invariant db == Clean(old(db), rels[..i])
        invariant cleaned == Report(old(db), rels[..i])
      {
        var rel := rels[i];
        assert rels[..i + 1][..i] == rels[..i];
        var deleted := |Orphans(db, rel)|;
        db := DeleteOrphans(db, rel);
        if deleted > 0 {
          cleaned := cleaned + [(rel.table, rel.column, deleted)];
        }
      }
      assert rels[..|rels|] == rels;
    }

    method FixPointers() returns (fixed: nat)
      modifies this
      ensures PointersFixed(old(db), db)
      ensures fixed == |DesyncedEntries(old(db))|
    {
      ghost var before := db;
      var left := DesyncedEntries(db);
      fixed := |left|;
      FixingStarts(before);
      hide DesyncedEntries, NeedsPointer, FixedRow, DescribedBy;
      while left != {}
        invariant PartlyFixed(before, db, left)
        decreases left
      {
        var k :| k in left;
        FixingFindsARow(before, db, left, k);
        var meta :| meta in db && Desynced(db, k, meta);
        FixingOne(before, db, left, k, meta);
        db := db[k := db[k][MetadataId := Some(meta.id)]];
        left := left - {k};
      }
    }
  }

  // ------------------------------------------------------- one pass is enough

  /** No relation deletes from a table that an earlier relation, or the relation itself, uses as parent. */
  ghost predicate ParentsFirst(rels: seq<Rel>) {
    forall i, j :: 0 <= i <= j < |rels| ==> rels[j].table != rels[i].parent
  }

  lemma RelationshipsAreParentsFirst()
    ensures ParentsFirst(RELATIONSHIPS)
    ensures forall i :: 0 <= i < |RELATIONSHIPS| ==> RELATIONSHIPS[i].table != IpEntries
  {
    var r := RELATIONSHIPS;
    assert forall i :: 0 <= i < 12 ==> r[i].parent == IpEntries;
    assert forall i :: 12 <= i < 16 ==> r[i].parent == Agents;
    assert forall i :: 16 <= i < 20 ==> r[i].parent == ComputerMetadata;
    assert forall i :: 0 <= i < 20 ==> r[i].table != IpEntries;
    assert forall i :: 12 <= i < 20 ==> r[i].table != Agents && r[i].table != ComputerMetadata;
  }

  ghost predicate NoOrphans(db: Db, rels: seq<Rel>) {
    forall i, k :: 0 <= i < |rels| ==> !Orphan(db, rels[i], k)
  }

  lemma {:induction false} CleanKeepsRows(db: Db, rels: seq<Rel>)
    ensures forall k :: k in Clean(db, rels) ==> k in db && Clean(db, rels)[k] == db[k]
  {
    if rels != [] {
      CleanKeepsRows(db, rels[..|rels| - 1]);
    }
  }

  /** One pass in list order leaves nothing for the audit to find. */
  lemma {:induction false} OnePassLeavesNoOrphans(db: Db, rels: seq<Rel>)
    requires ParentsFirst(rels)
    ensures NoOrphans(Clean(db, rels), rels)
  {
    if rels != [] {
      var front, rel := rels[..|rels| - 1], rels[|rels| - 1];
      OnePassLeavesNoOrphans(db, front);
      var before, after := Clean(db, front), Clean(db, rels);
      forall i, k | 0 <= i < |rels| && k in after ensures !Orphan(after, rels[i], k) {
        assert !Orphan(before, rel, k);
        assert i < |front| ==> !Orphan(before, front[i], k);
        assert rels[i].parent != rel.table;
      }
    }
  }

  // ------------------------------------------------------- the least fixpoint

  /** The row would be an orphan if the rows of `gone` were removed. */
  predicate OrphanedBy(db: Db, gone: set<Key>, rel: Rel, k: Key) {
    && k in db && k.table == rel.table
    && match Cell(db[k], rel.column)
       case None => !rel.nullable
       case Some(id) => Key(rel.parent, id) !in db || Key(rel.parent, id) in gone
  }

  /** Contains every orphan and every child of a row it contains. */
  ghost predicate Closed(db: Db, rels: seq<Rel>, gone: set<Key>) {
    forall i, k :: 0 <= i < |rels| && OrphanedBy(db, gone, rels[i], k) ==> k in gone
  }

  function Removed(db: Db, rels: seq<Rel>): set<Key> {
    db.Keys - Clean(db, rels).Keys
  }

  lemma {:induction false} RemovedIsInEveryClosedSet(db: Db, rels: seq<Rel>, gone: set<Key>)
    requires Closed(db, rels, gone)
    ensures Removed(db, rels) <= gone
  {
    if rels != [] {
      var front, rel := rels[..|rels| - 1], rels[|rels| - 1];
      assert Closed(db, front, gone) by {
        forall i, k | 0 <= i < |front| && OrphanedBy(db, gone, front[i], k) ensures k in gone {
          assert front[i] == rels[i];
        }
      }
      RemovedIsInEveryClosedSet(db, front, gone);
      CleanKeepsRows(db, front);
      var before := Clean(db, front);
      forall k | k in before && Orphan(before, rel, k) ensures k in gone {
        assert OrphanedBy(db, gone, rels[|rels| - 1], k);
      }
    }
  }

  /** The removed rows are exactly the least set closed under being an orphan or a child of a removed row. */
  lemma RemovedIsTheLeastClosedSet(db: Db, rels: seq<Rel>)
    requires ParentsFirst(rels)
    ensures Closed(db, rels, Removed(db, rels))
    ensures forall gone :: Closed(db, rels, gone) ==> Removed(db, rels) <= gone
  {
    OnePassLeavesNoOrphans(db, rels);
    CleanKeepsRows(db, rels);
    var after := Clean(db, rels);
    forall i, k | 0 <= i < |rels| && OrphanedBy(db, Removed(db, rels), rels[i], k) ensures k in Removed(db, rels) {
      assert !Orphan(after, rels[i], k);
    }
    forall gone | Closed(db, rels, gone) ensures Removed(db, rels) <= gone {
      RemovedIsInEveryClosedSet(db, rels, gone);
    }
  }

  // --------------------------------------------- against repeat-until-clean

  /** Any order of deleting rows one by one, each an orphan of some relation when its turn comes. */
  ghost predicate Naive(db: Db, rels: seq<Rel>, deleted: seq<Key>) {
    deleted == [] ||
    (Naive(db, rels, deleted[..|deleted| - 1]) &&
     exists i :: 0 <= i < |rels| && Orphan(NaiveResult(db, deleted[..|deleted| - 1]), rels[i], deleted[|deleted| - 1]))
  }

  function NaiveResult(db: Db, deleted: seq<Key>): Db {
    map k | k in db && k !in deleted :: db[k]
  }

  lemma {:induction false} NaiveDeletesOnlyClosedRows(db: Db, rels: seq<Rel>, deleted: seq<Key>, gone: set<Key>)
    requires Naive(db, rels, deleted) && Closed(db, rels, gone)
    ensures forall k :: k in deleted ==> k in gone
  {
    if deleted != [] {
      var front, last := deleted[..|deleted| - 1], deleted[|deleted| - 1];
      NaiveDeletesOnlyClosedRows(db, rels, front, gone);
      var i :| 0 <= i < |rels| && Orphan(NaiveResult(db, front), rels[i], last);
      assert OrphanedBy(db, gone, rels[i], last);
    }
  }

  /** However a naive clean-up picks its orphans, if it ends clean it ends where one pass ends. */
  lemma NaiveEndsWhereOnePassEnds(db: Db, rels: seq<Rel>, deleted: seq<Key>)
    requires ParentsFirst(rels) && Naive(db, rels, deleted) && NoOrphans(NaiveResult(db, deleted), rels)
    ensures NaiveResult(db, deleted) == Clean(db, rels)
  {
    RemovedIsTheLeastClosedSet(db, rels);
    NaiveDeletesOnlyClosedRows(db, rels, deleted, Removed(db, rels));
    var gone := set k | k in deleted;
    var end := NaiveResult(db, deleted);
    forall i, k | 0 <= i < |rels| && OrphanedBy(db, gone, rels[i], k) ensures k in gone {
      assert !Orphan(end, rels[i], k);
    }
    assert Removed(db, rels) <= gone;
    CleanKeepsRows(db, rels);
    forall k ensures k in end <==> k in Clean(db, rels) {
      assert k in deleted <==> k in gone;
    }
  }

  // -------------------------------------------------------------- second pass

  lemma PointersDoNotMatterToOrphans(before: Db, after: Db, rels: seq<Rel>)
    requires PointersFixed(before, after) && NoOrphans(before, rels)
    requires forall i :: 0 <= i < |rels| ==> rels[i].table != IpEntries
    ensures NoOrphans(after, rels)
  {
    forall i, k | 0 <= i < |rels| && k in after && k.table == rels[i].table ensures !Orphan(after, rels[i], k) {
      assert FixedRow(before, k, after[k]);
      assert !Orphan(before, rels[i], k);
    }
  }

  lemma FixingLeavesNoDesync(before: Db, after: Db)
    requires PointersFixed(before, after)
    ensures forall k, meta :: !Desynced(after, k, meta)
  {
    forall k, meta ensures !Desynced(after, k, meta) {
      if k in after && DescribedBy(after, k, meta) {
        assert FixedRow(before, meta, after[meta]) && FixedRow(before, k, after[k]);
        if Cell(before[k], MetadataId).None? {
          assert Desynced(before, k, meta);
        }
      }
    }
  }

  lemma {:induction false} CleanOfCleanIsIdle(db: Db, rels: seq<Rel>)
    requires NoOrphans(db, rels)
    ensures Clean(db, rels) == db && Report(db, rels) == []
  {
    if rels != [] {
      var front, rel := rels[..|rels| - 1], rels[|rels| - 1];
      assert NoOrphans(db, front) by {
        forall i, k | 0 <= i < |front| ensures !Orphan(db, front[i], k) {
          assert front[i] == rels[i];
        }
      }
      CleanOfCleanIsIdle(db, front);
      forall k ensures !Orphan(db, rel, k) {
        assert !Orphan(db, rels[|rels| - 1], k);
      }
      assert Orphans(db, rel) == {};
      assert DeleteOrphans(db, rel) == db;
    }
  }

  lemma RunTwice(db: Db, rels: seq<Rel>, first: Db, second: Db)
    requires ParentsFirst(rels) && forall i :: 0 <= i < |rels| ==> rels[i].table != IpEntries
    requires PointersFixed(Clean(db, rels), first) && PointersFixed(Clean(first, rels), second)
    ensures NoOrphans(first, rels) && DesyncedPairs(first) == {}
    ensures second == first && Report(first, rels) == [] && DesyncedEntries(Clean(first, rels)) == {}
  {
    OnePassLeavesNoOrphans(db, rels);
    PointersDoNotMatterToOrphans(Clean(db, rels), first, rels);
    FixingLeavesNoDesync(Clean(db, rels), first);
    CleanOfCleanIsIdle(first, rels);
    forall k | k in first ensures second[k] == first[k] {
      assert FixedRow(first, k, second[k]);
    }
  }

  /** After one run of cleanGhostReferences the audit is zero everywhere,
      and a second run deletes nothing, repairs no pointer and reports neither. */
  lemma SecondRunIsIdle(db: Db, first: Db, second: Db)
    requires PointersFixed(Clean(db, RELATIONSHIPS), first)
    requires PointersFixed(Clean(first, RELATIONSHIPS), second)
    ensures NoOrphans(first, RELATIONSHIPS) && |DesyncedPairs(first)| == 0
    ensures second == first && Report(first, RELATIONSHIPS) == [] && |DesyncedEntries(Clean(first, RELATIONSHIPS))| == 0
  {
    RelationshipsAreParentsFirst();
    RunTwice(db, RELATIONSHIPS, first, second);
  }

  function Deleted(report: seq<(TableName, Column, nat)>): nat {
    if report == [] then 0 else Deleted(report[..|report| - 1]) + report[|report| - 1].2
  }

  /** The reported deletions account for every row that is missing afterwards. */
  lemma {:induction false} ReportAccountsForEveryRow(db: Db, rels: seq<Rel>)
    ensures |Clean(db, rels)| + Deleted(Report(db, rels)) == |db|
  {
    if rels != [] {
      var front, rel := rels[..|rels| - 1], rels[|rels| - 1];
      ReportAccountsForEveryRow(db, front);
      var before := Clean(db, front);
      assert DeleteOrphans(before, rel).Keys == before.Keys - Orphans(before, rel);
      assert |before.Keys| == |before.Keys - Orphans(before, rel)| + |Orphans(before, rel)|;
      var report, deleted := Report(db, front), |Orphans(before, rel)|;
      if deleted > 0 {
        assert (report + [(rel.table, rel.column, deleted)])[..|report|] == report;
      } else {
        assert report + [] == report;
      }
    }
  }

  // ------------------------------------------------------- the report, table by table

  /** No two relations delete from one table. */
  ghost predicate OneRelationPerTable(rels: seq<Rel>) {
    forall i, j :: 0 <= i < j < |rels| ==> rels[i].table != rels[j].table
  }

  lemma RelationshipsHaveTheirOwnTables()
    ensures OneRelationPerTable(RELATIONSHIPS)
  {
    PlacesInOrder();
    hide Place;
    forall i, j | 0 <= i < j < |RELATIONSHIPS|
      ensures RELATIONSHIPS[i].table != RELATIONSHIPS[j].table
    {
      assert Place(RELATIONSHIPS[i].table) == i && Place(RELATIONSHIPS[j].table) == j;
    }
  }

  lemma PlacesInOrder()
    ensures forall i :: 0 <= i < |RELATIONSHIPS| ==> Place(RELATIONSHIPS[i].table) == i
  {
    var r := RELATIONSHIPS;
    assert forall i :: 0 <= i < 7 ==> Place(r[i].table) == i;
    assert forall i :: 7 <= i < 14 ==> Place(r[i].table) == i;
    assert forall i :: 14 <= i < 20 ==> Place(r[i].table) == i;
  }

  /** The place of a table in the list. */
  function Place(table: TableName): int {
    match table
    case Agents => 0
    case AvailableUpdates => 1
    case Drivers => 2
    case EventLogs => 3
    case ComputerMetadata => 4
    case ComputerPrinters => 5
    case Services => 6
    case Software => 7
    case Updates => 8
    case StatusHistory => 9
    case Printers => 10
    case PrinterConnectedComputers => 11
    case AgentJobs => 12
    case AgentMonitoring => 13
    case AgentMonitoringHistory => 14
    case AgentUpdateLog => 15
    case MetadataGpus => 16
    case MetadataNics => 17
    case MetadataRamModules => 18
    case MetadataStorage => 19
    case IpEntries => 20
  }

  /** The rows of this table that the deletions have removed. */
  function GoneFrom(db: Db, rels: seq<Rel>, table: TableName): set<Key> {
    set k | k in db && k !in Clean(db, rels) && k.table == table
  }

  lemma {:induction false} ReportIsPerTable(db: Db, rels: seq<Rel>, rel: Rel)
    requires OneRelationPerTable(rels)
    ensures rel in rels && GoneFrom(db, rels, rel.table) != {} ==>
              (rel.table, rel.column, |GoneFrom(db, rels, rel.table)|) in Report(db, rels)
    ensures forall n :: (rel.table, rel.column, n) in Report(db, rels) ==>
                          && (exists i :: 0 <= i < |rels| && rels[i].table == rel.table)
                          && n == |GoneFrom(db, rels, rel.table)| > 0
  {
    if rels != [] {
      var front, last := rels[..|rels| - 1], rels[|rels| - 1];
      ReportIsPerTable(db, front, rel);
      CleanKeepsRows(db, front);
      OtherTablesStay(db, front, last.table);
      var before := Clean(db, front);
      if rel.table == last.table {
        forall k
          ensures k in GoneFrom(db, rels, rel.table) <==> k in Orphans(before, last)
        {
        }
        SameSets(GoneFrom(db, rels, rel.table), Orphans(before, last));
      } else {
        forall k
          ensures k in GoneFrom(db, rels, rel.table) <==> k in GoneFrom(db, front, rel.table)
        {
        }
        SameSets(GoneFrom(db, rels, rel.table), GoneFrom(db, front, rel.table));
      }
    }
  }

  /** What the whole clean-up does and reports. */
  lemma CleanUpMeans(before: Db, after: Db)
    requires PointersFixed(Clean(before, RELATIONSHIPS), after)
    ensures EveryRowRefers(after) && RemovedForAReason(before, after)
    ensures OnlyPointersChange(before, after) && PointersAreSet(after)
    ensures |DesyncedEntries(Clean(before, RELATIONSHIPS))| ==
            |set k | k in before && k in after && after[k] != before[k]|
    ensures forall i :: 0 <= i < |RELATIONSHIPS| ==>
              var rel := RELATIONSHIPS[i];
              var gone := |set k | k in before && k !in after && k.table == rel.table|;
              if gone > 0 then (rel.table, rel.column, gone) in Report(before, RELATIONSHIPS)
              else forall n :: (rel.table, rel.column, n) !in Report(before, RELATIONSHIPS)
  {
    hide Clean, Report, EveryRowRefers, RemovedForAReason, OnlyPointersChange, PointersAreSet, DesyncedEntries;
    hide FixedRow;
    RowsAreAsTheyShould(before, after);
    OnlyPointersAreChanged(before, after);
    NoPointerIsMissing(Clean(before, RELATIONSHIPS), after);
    SameSets(DesyncedEntries(Clean(before, RELATIONSHIPS)), set k | k in before && k in after && after[k] != before[k]);
    RelationshipsHaveTheirOwnTables();
    forall i | 0 <= i < |RELATIONSHIPS|
      ensures var rel := RELATIONSHIPS[i];
        var gone := |set k | k in before && k !in after && k.table == rel.table|;
        if gone > 0 then (rel.table, rel.column, gone) in Report(before, RELATIONSHIPS)
        else forall n :: (rel.table, rel.column, n) !in Report(before, RELATIONSHIPS)
    {
      var rel := RELATIONSHIPS[i];
      ReportIsPerTable(before, RELATIONSHIPS, rel);
      SameSets(GoneFrom(before, RELATIONSHIPS, rel.table), set k | k in before && k !in after && k.table == rel.table);
    }
  }

  // -------------------------------------------------------- dangling pointers

  /** ip_entries.metadata_id points to a row that does not exist; the audit does not look for this. */
  predicate Dangling(db: Db, entry: Key) {
    entry in db && entry.table == IpEntries &&
    Cell(db[entry], MetadataId).Some? && Key(ComputerMetadata, Cell(db[entry], MetadataId).value) !in db
  }

  lemma EntriesStay(db: Db)
    ensures forall k :: k in db && k.table == IpEntries ==>
              k in Clean(db, RELATIONSHIPS) && Clean(db, RELATIONSHIPS)[k] == db[k]
  {
    RelationshipsAreParentsFirst();
    OtherTablesStay(db, RELATIONSHIPS, IpEntries);
    CleanKeepsRows(db, RELATIONSHIPS);
  }

  lemma {:induction false} OtherTablesStay(db: Db, rels: seq<Rel>, table: TableName)
    requires forall i :: 0 <= i < |rels| ==> rels[i].table != table
    ensures forall k :: k in db && k.table == table ==> k in Clean(db, rels)
  {
    if rels != [] {
      var front, rel := rels[..|rels| - 1], rels[|rels| - 1];
      OtherTablesStay(db, front, table);
      assert rels[|rels| - 1].table != table;
      CleanKeepsRows(db, front);
    }
  }

  /** After a clean-up an entry's pointer dangles exactly when it was set before and its target was absent,
      or is one of the rows that the clean-up itself removed. */
  lemma DanglesExactlyWhen(db: Db, after: Db, entry: Key)
    requires PointersFixed(Clean(db, RELATIONSHIPS), after)
    requires entry in db && entry.table == IpEntries
    ensures Dangling(after, entry) <==>
            && Cell(db[entry], MetadataId).Some?
            && (var target := Key(ComputerMetadata, Cell(db[entry], MetadataId).value);
                target !in db || target in Removed(db, RELATIONSHIPS))
  {
    EntriesStay(db);
    CleanKeepsRows(db, RELATIONSHIPS);
    var cleaned := Clean(db, RELATIONSHIPS);
    assert FixedRow(cleaned, entry, after[entry]);
    hide Clean;
    if Cell(db[entry], MetadataId).Some? {
      assert forall meta :: !Desynced(cleaned, entry, meta);
    }
  }

  /** A clean-up that makes a pointer dangle: the metadata row belongs to a deleted entry, another entry
      points to it, and once the row is removed that pointer is never repaired. */
  lemma CleanUpMakesAPointerDangle() returns (db: Db)
    ensures Key(IpEntries, 1) in db && !Dangling(db, Key(IpEntries, 1))
    ensures forall after :: PointersFixed(Clean(db, RELATIONSHIPS), after) ==> Dangling(after, Key(IpEntries, 1))
  {
    var entry, meta := Key(IpEntries, 1), Key(ComputerMetadata, 5);
    db := map[entry := map[MetadataId := Some(5)], meta := map[IpEntryId := Some(99)]];
    RelationshipsAreParentsFirst();
    OnePassLeavesNoOrphans(db, RELATIONSHIPS);
    CleanKeepsRows(db, RELATIONSHIPS);
    var rel := RELATIONSHIPS[4];
    assert rel == Rel(ComputerMetadata, IpEntryId, IpEntries, false);
    hide Clean;
    assert !Orphan(Clean(db, RELATIONSHIPS), RELATIONSHIPS[4], meta);
    forall after | PointersFixed(Clean(db, RELATIONSHIPS), after)
      ensures Dangling(after, entry)
    {
      DanglesExactlyWhen(db, after, entry);
    }
  }

  /** And one that was dangling before survives a clean-up that finds nothing to do. */
  lemma DanglingPointerSurvives() returns (db: Db)
    ensures NoOrphans(db, RELATIONSHIPS) && DesyncedPairs(db) == {}
    ensures Clean(db, RELATIONSHIPS) == db && Dangling(db, Key(IpEntries, 1))
  {
    db := map[Key(IpEntries, 1) := map[MetadataId := Some(5)]];
    RelationshipsAreParentsFirst();
    CleanOfCleanIsIdle(db, RELATIONSHIPS);
  }
}
