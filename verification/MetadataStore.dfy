/** The tables behind the metadata services: computer_metadata, its four child tables, and ip_entries.metadata_id. */
module MetadataStore {
  import opened Common
  import opened Metadata
  import opened MetadataCells

  type ChildTable = map<nat, seq<ListRow>>

  datatype Base = Base(ipEntryId: int, cells: map<Column, Value>)

  function RowsOf(t: ChildTable, id: nat): seq<ListRow> {
    if id in t then t[id] else []
  }

  /** One computer_metadata row together with its child rows. */
  function StoredRow(
    base: Base, ram: ChildTable, storage: ChildTable, gpus: ChildTable, nics: ChildTable, id: nat): Stored {
    Stored(base.cells, map l: ListName | true :: RowsOf(TableOf(ram, storage, gpus, nics, l), id))
  }

  function TableOf(ram: ChildTable, storage: ChildTable, gpus: ChildTable, nics: ChildTable, l: ListName): ChildTable {
    match l
    case RAMModules => ram
    case Storage => storage
    case GPUs => gpus
    case NICs => nics
  }

  /** All metadata rows by id: whose they are and what they hold. */
  type View = map<nat, (int, Stored)>

  ghost predicate HasRow(view: View, ipEntryId: int) {
    exists id :: id in view && view[id].0 == ipEntryId
  }

  /** At most one metadata row per computer. */
  ghost predicate OnePerComputer(view: View) {
    forall a, b :: a in view && b in view && view[a].0 == view[b].0 ==> a == b
  }

  /** What is stored for a computer, if anything. */
  ghost function Current(view: View, ipEntryId: int): Option<Stored> {
    if HasRow(view, ipEntryId) then
      var id :| id in view && view[id].0 == ipEntryId;
      Some(view[id].1)
    else None
  }

  /** Writing one computer's row concerns no other computer. */
  lemma WritingOneRow(view: View, id: nat, ipEntryId: int, data: Stored)
    requires OnePerComputer(view)
    requires if HasRow(view, ipEntryId) then id in view && view[id].0 == ipEntryId else id !in view
    ensures var after := view[id := (ipEntryId, data)];
      && OnePerComputer(after)
      && Current(after, ipEntryId) == Some(data)
      && forall other: int :: other != ipEntryId ==> Current(after, other) == Current(view, other)
  {
    var after := view[id := (ipEntryId, data)];
    assert after[id].0 == ipEntryId;
    assert OnePerComputer(after);
    forall other: int | other != ipEntryId ensures Current(after, other) == Current(view, other) {
      if k :| k in view && view[k].0 == other {
        assert k in after && after[k] == view[k];
      } else {
        assert forall k :: k in after && k != id ==> k in view;
      }
    }
  }

  /** DELETE of the old child rows, then one INSERT per new row. */
  method ReplaceRows(t: ChildTable, id: nat, rows: seq<ListRow>) returns (r: ChildTable)
    ensures RowsOf(r, id) == rows
    ensures forall other: nat :: other != id ==> RowsOf(r, other) == RowsOf(t, other)
  {
    r := t[id := []];
    for i := 0 to |rows|
      invariant id in r && r[id] == rows[..i]
      invariant forall other: nat :: other != id ==> RowsOf(r, other) == RowsOf(t, other)
    {
      r := r[id := r[id] + [rows[i]]];
    }
    assert rows[..|rows|] == rows;
  }

  lemma SameLists(a: map<ListName, seq<ListRow>>, b: map<ListName, seq<ListRow>>)
    requires forall l: ListName :: l in a && l in b && a[l] == b[l]
    ensures a == b
  {
  }

  function ViewOf(
    base: map<nat, Base>, ram: ChildTable, storage: ChildTable, gpus: ChildTable, nics: ChildTable): View {
    map id | id in base :: (base[id].ipEntryId, StoredRow(base[id], ram, storage, gpus, nics, id))
  }

  lemma EveryListIsUpserted(parse: DateParser, body: Body)
    ensures forall l: ListName :: l in Upserted(parse, body).lists
  {
  }

  lemma KeysOfView(base: map<nat, Base>, ram: ChildTable, storage: ChildTable, gpus: ChildTable, nics: ChildTable)
    ensures ViewOf(base, ram, storage, gpus, nics).Keys == base.Keys
  {
  }

  /** Replacing one row in all five tables replaces it in the view. */
  lemma RowReplaced(base: map<nat, Base>, ram: ChildTable, storage: ChildTable, gpus: ChildTable, nics: ChildTable,
                    ram': ChildTable, storage': ChildTable, gpus': ChildTable, nics': ChildTable,
                    id: nat, ipEntryId: int, data: Stored)
    requires forall l: ListName :: l in data.lists
    requires forall l: ListName ::
               var t, t' := TableOf(ram, storage, gpus, nics, l), TableOf(ram', storage', gpus', nics', l);
               RowsOf(t', id) == data.lists[l] &&
               forall other: nat :: other != id ==> RowsOf(t', other) == RowsOf(t, other)
    ensures ViewOf(base[id := Base(ipEntryId, data.cells)], ram', storage', gpus', nics') ==
            ViewOf(base, ram, storage, gpus, nics)[id := (ipEntryId, data)]
  {
    var base' := base[id := Base(ipEntryId, data.cells)];
    forall k | k in base'
      ensures StoredRow(base'[k], ram', storage', gpus', nics', k) ==
              if k == id then data else StoredRow(base[k], ram, storage, gpus, nics, k)
    {
      hide TableOf;
      var row := StoredRow(base'[k], ram', storage', gpus', nics', k);
      SameLists(row.lists, if k == id then data.lists else StoredRow(base[k], ram, storage, gpus, nics, k).lists);
    }
  }

  /** What the five tables hold under one id. */
  function InTables(cells: map<Column, Value>, ram: ChildTable, storage: ChildTable, gpus: ChildTable,
                    nics: ChildTable, id: nat): Stored
  {
    Stored(cells, map[RAMModules := RowsOf(ram, id), Storage := RowsOf(storage, id),
                      GPUs := RowsOf(gpus, id), NICs := RowsOf(nics, id)])
  }

  lemma TablesHold(parse: DateParser, body: Body, data: Stored, ram: ChildTable, storage: ChildTable,
                   gpus: ChildTable, nics: ChildTable, id: nat)
    requires StoredFrom(parse, body, data)
    requires RowsOf(ram, id) == data.lists[RAMModules] && RowsOf(storage, id) == data.lists[Storage]
    requires RowsOf(gpus, id) == data.lists[GPUs] && RowsOf(nics, id) == data.lists[NICs]
    ensures StoredFrom(parse, body, InTables(data.cells, ram, storage, gpus, nics, id))
  {
    hide CellsStored, RowsStored, RowsOf;
    var lists := InTables(data.cells, ram, storage, gpus, nics, id).lists;
    forall l: ListName ensures l in lists && lists[l] == data.lists[l] {
      match l
      case RAMModules =>
      case Storage =>
      case GPUs =>
      case NICs =>
    }
  }

  class Store {
    const parse: DateParser
    var base: map<nat, Base>
    var ram: ChildTable
    var storage: ChildTable
    var gpus: ChildTable
    var nics: ChildTable
    var pointer: map<int, Option<nat>>
    var nextId: nat

    constructor (parse: DateParser, ipEntries: set<int>)
      ensures Valid() && this.parse == parse && base == map[]
    {
      this.parse := parse;
      base, nextId := map[], 0;
      ram, storage, gpus, nics := map[], map[], map[], map[];
      pointer := map ip | ip in ipEntries :: None;
    }

    ghost function Rows(): View reads this {
      ViewOf(base, ram, storage, gpus, nics)
    }

    ghost predicate Valid() reads this {
      (forall id :: id in base ==> id < nextId) && OnePerComputer(Rows())
    }

    /** The tables hold under this id what an upsert of the body stores. */
    ghost predicate HoldsUpsert(id: nat, body: Body)
      requires id in base
      reads this
    {
      StoredFrom(parse, body, InTables(base[id].cells, ram, storage, gpus, nics, id))
    }

    method FindMetadataIdByIpEntryId(ipEntryId: int) returns (id: Option<nat>)
      requires Valid()
      ensures id.None? <==> !HasRow(Rows(), ipEntryId)
      ensures id.None? ==> forall k :: k in base ==> base[k].ipEntryId != ipEntryId
      ensures id.Some? ==> id.value in base && base[id.value].ipEntryId == ipEntryId
      ensures id.Some? ==> id.value in Rows() && Rows()[id.value].0 == ipEntryId &&
                           Current(Rows(), ipEntryId) == Some(Rows()[id.value].1)
    {
      if found :| found in base && base[found].ipEntryId == ipEntryId {
        assert Rows()[found].0 == ipEntryId;
        id := Some(found);
      } else {
        assert forall k :: k in Rows() ==> Rows()[k].0 == base[k].ipEntryId;
        id := None;
      }
    }

    method LoadMetadataById(id: nat) returns (body: Option<Body>)
      requires Valid()
      ensures body == if id in Rows() then Some(ReadBack(Rows()[id].1)) else None
    {
      if id !in base {
        return None;
      }
      return Some(ReadBack(StoredRow(base[id], ram, storage, gpus, nics, id)));
    }

    method UpsertMetadataForIpEntry(ipEntryId: int, body: Body) returns (id: nat)
      requires Valid()
      modifies this
      ensures Valid() && Current(Rows(), ipEntryId) == Some(Upserted(parse, body))
      ensures id in base && base[id].ipEntryId == ipEntryId
      ensures if exists k :: k in old(base) && old(base)[k].ipEntryId == ipEntryId
              then id in old(base) && old(base)[id].ipEntryId == ipEntryId
              else id !in old(base)
      ensures base == old(base)[id := Base(ipEntryId, base[id].cells)]
      ensures forall k: nat :: k != id ==>
                && RowsOf(ram, k) == old(RowsOf(ram, k)) && RowsOf(storage, k) == old(RowsOf(storage, k))
                && RowsOf(gpus, k) == old(RowsOf(gpus, k)) && RowsOf(nics, k) == old(RowsOf(nics, k))
      ensures forall other: int :: other != ipEntryId ==> Current(Rows(), other) == old(Current(Rows(), other))
      ensures pointer == if !old(HasRow(Rows(), ipEntryId)) && ipEntryId in old(pointer)
                         then old(pointer)[ipEntryId := Some(id)] else old(pointer)
      ensures HoldsUpsert(id, body)
    {
      hide ViewOf, Upserted, Current, StoredFrom, RowsOf, InTables, HasRow;
      var data := Upserted(parse, body);
      EveryListIsUpserted(parse, body);
      KeysOfView(base, ram, storage, gpus, nics);
      var existing := FindMetadataIdByIpEntryId(ipEntryId);
      id := ClaimId(ipEntryId, existing);
      WriteRow(id, ipEntryId, data);
      UpsertStores(parse, body);
      TablesHold(parse, body, data, ram, storage, gpus, nics, id);
      WritingOneRow(old(Rows()), id, ipEntryId, data);
    }

    /** The id of the row that is there, or a new one to which the entry then points. */
    method ClaimId(ipEntryId: int, existing: Option<nat>) returns (id: nat)
      requires existing.Some? ==> existing.value < nextId
      modifies this`nextId, this`pointer
      ensures id < nextId && old(nextId) <= nextId
      ensures id == if existing.Some? then existing.value else old(nextId)
      ensures pointer == if existing.None? && ipEntryId in old(pointer)
                         then old(pointer)[ipEntryId := Some(id)] else old(pointer)
    {
      if existing.None? {
        id := nextId;
        nextId := nextId + 1;
        if ipEntryId in pointer {
          pointer := pointer[ipEntryId := Some(id)];
        }
      } else {
        id := existing.value;
      }
    }

    /** The UPDATE or INSERT of the parent row and the four txReplace calls. */
    method WriteRow(id: nat, ipEntryId: int, data: Stored)
      requires forall l: ListName :: l in data.lists
      modifies this`base, this`ram, this`storage, this`gpus, this`nics
      ensures Rows() == old(Rows())[id := (ipEntryId, data)]
      ensures base == old(base)[id := Base(ipEntryId, data.cells)]
      ensures RowsOf(ram, id) == data.lists[RAMModules] && RowsOf(storage, id) == data.lists[Storage]
      ensures RowsOf(gpus, id) == data.lists[GPUs] && RowsOf(nics, id) == data.lists[NICs]
      ensures forall k: nat :: k != id ==>
                && RowsOf(ram, k) == old(RowsOf(ram, k)) && RowsOf(storage, k) == old(RowsOf(storage, k))
                && RowsOf(gpus, k) == old(RowsOf(gpus, k)) && RowsOf(nics, k) == old(RowsOf(nics, k))
    {
      hide ViewOf, RowsOf;
      base := base[id := Base(ipEntryId, data.cells)];
      ram := ReplaceRows(ram, id, data.lists[RAMModules]);
      storage := ReplaceRows(storage, id, data.lists[Storage]);
      gpus := ReplaceRows(gpus, id, data.lists[GPUs]);
      nics := ReplaceRows(nics, id, data.lists[NICs]);
      RowReplaced(old(base), old(ram), old(storage), old(gpus), old(nics), ram, storage, gpus, nics, id,
                  ipEntryId, data);
    }

    /** Read back, merge section by section and list by list, rewrite. */
    method PatchMetadataForIpEntry(ipEntryId: int, patch: Body) returns (id: nat)
      requires Valid()
      modifies this
      ensures Valid() && Current(Rows(), ipEntryId) == Some(Patched(parse, old(Current(Rows(), ipEntryId)), patch))
      ensures forall other: int :: other != ipEntryId ==> Current(Rows(), other) == old(Current(Rows(), other))
    {
      var metaId := FindMetadataIdByIpEntryId(ipEntryId);
      var existing := EMPTY;
      if metaId.Some? {
        var loaded := LoadMetadataById(metaId.value);
        existing := loaded.value;
      }
      var merged := MergeBodies(existing, patch);
      id := UpsertMetadataForIpEntry(ipEntryId, merged);
    }
  }

  method MergeBodies(existing: Body, patch: Body) returns (merged: Body)
    ensures merged == Merged(existing, patch)
  {
    var sections := MergeSections(existing, patch);
    var lists := MergeLists(existing, patch);
    merged := Body(existing.top + patch.top, sections, lists);
    SameBody(existing, patch, merged);
  }

  method MergeSections(existing: Body, patch: Body) returns (sections: map<Section, SectionBody>)
    ensures sections.Keys == existing.sections.Keys + patch.sections.Keys
    ensures forall s :: s in sections ==> sections[s] == MergedSection(existing, patch, s)
  {
    var names := [OS, System, Motherboard, BIOS, CPU, WindowsUpdate];
    ghost var spread := existing.sections + patch.sections;
    sections := existing.sections + patch.sections;
    for i := 0 to |names|
      invariant sections.Keys == spread.Keys
      invariant forall k :: 0 <= k < i && names[k] in sections ==>
                  sections[names[k]] == MergedSection(existing, patch, names[k])
      invariant forall s :: s in sections && (forall k :: 0 <= k < i ==> names[k] != s) ==> sections[s] == spread[s]
    {
      var s := names[i];
      if s in patch.sections && patch.sections[s].Fields? {
        var fields :=
          if s in existing.sections && existing.sections[s].Fields? then existing.sections[s].fields else map[];
        sections := sections[s := Fields(fields + patch.sections[s].fields)];
      }
    }
    EverySection(names);
    forall s | s in sections ensures sections[s] == MergedSection(existing, patch, s) {
      assert s in names;
      var k :| 0 <= k < |names| && names[k] == s;
    }
  }

  method MergeLists(existing: Body, patch: Body) returns (lists: map<ListName, ListBody>)
    ensures forall l: ListName :: l in lists && lists[l] == MergedList(existing, patch, l)
  {
    var names := [RAMModules, Storage, GPUs, NICs];
    lists := existing.lists + patch.lists;
    for i := 0 to |names|
      invariant forall l :: l in patch.lists ==> l in lists && lists[l] == patch.lists[l]
      invariant forall k :: 0 <= k < i ==> names[k] in lists && lists[names[k]] == MergedList(existing, patch, names[k])
    {
      var l := names[i];
      if l !in patch.lists {
        lists := lists[l := if l in existing.lists then existing.lists[l] else Items([])];
      }
    }
    EveryList(names);
    forall l: ListName ensures l in lists && lists[l] == MergedList(existing, patch, l) {
      assert l in names;
      var k :| 0 <= k < |names| && names[k] == l;
    }
  }

  lemma SameBody(existing: Body, patch: Body, merged: Body)
    requires merged.top == existing.top + patch.top
    requires merged.sections.Keys == existing.sections.Keys + patch.sections.Keys
    requires forall s :: s in merged.sections ==> merged.sections[s] == MergedSection(existing, patch, s)
    requires forall l: ListName :: l in merged.lists && merged.lists[l] == MergedList(existing, patch, l)
    ensures merged == Merged(existing, patch)
  {
    assert merged.sections == Merged(existing, patch).sections;
    assert merged.lists == Merged(existing, patch).lists;
  }

  lemma EverySection(names: seq<Section>)
    requires names == [OS, System, Motherboard, BIOS, CPU, WindowsUpdate]
    ensures forall s: Section :: s in names
  {
    forall s: Section ensures s in names {
      match s
      case OS => assert names[0] == s;
      case System => assert names[1] == s;
      case Motherboard => assert names[2] == s;
      case BIOS => assert names[3] == s;
      case CPU => assert names[4] == s;
      case WindowsUpdate => assert names[5] == s;
    }
  }

  lemma EveryList(names: seq<ListName>)
    requires names == [RAMModules, Storage, GPUs, NICs]
    ensures forall l: ListName :: l in names
  {
    forall l: ListName ensures l in names {
      match l
      case RAMModules => assert names[0] == l;
      case Storage => assert names[1] == l;
      case GPUs => assert names[2] == l;
      case NICs => assert names[3] == l;
    }
  }
}
