/**
  Hardware metadata of a computer: read back, merge the patch, rewrite the parent row and its four child
  tables (backend/services/metadata.service.js, backend/repositories/metadata.repo.js), for request bodies
  with PascalCase keys. Date parsing is the parameter `parse`.
 */
module Metadata {
  import opened Common
  import opened Strings

  /** A JSON value or a database cell; only the database has dates. */
  datatype Value = Null | Text(s: string) | Num(n: int) | Date(ms: int)

  datatype Kind = TextKind | DateKind | NumberKind

  datatype Section = OS | System | Motherboard | BIOS | CPU | WindowsUpdate

  datatype Column =
    | CollectedAt | ComputerName | UserName | Psu
    | OsCaption | OsVersion | OsBuild | OsInstallDate
    | SystemManufacturer | SystemModel | SystemTotalRamGb
    | MbManufacturer | MbProduct | MbSerial
    | BiosVendor | BiosVersion | BiosReleaseDate
    | CpuName | CpuCores | CpuLogical | CpuMaxClock | CpuSocket
    | WuServiceStatus | WuLastCheckAt

  datatype ListName = RAMModules | Storage | GPUs | NICs

  datatype ListColumn =
    | Slot | Manufacturer | PartNumber | Serial | CapacityGB | SpeedMTps | FormFactor
    | Model | Firmware | SizeGB | MediaType | BusType | DeviceID
    | Name | DriverVers | VramGB | Mac | SpeedMbps

  function SectionOf(c: Column): Option<Section> {
    match c
    case CollectedAt | ComputerName | UserName | Psu => None
    case OsCaption | OsVersion | OsBuild | OsInstallDate => Some(OS)
    case SystemManufacturer | SystemModel | SystemTotalRamGb => Some(System)
    case MbManufacturer | MbProduct | MbSerial => Some(Motherboard)
    case BiosVendor | BiosVersion | BiosReleaseDate => Some(BIOS)
    case CpuName | CpuCores | CpuLogical | CpuMaxClock | CpuSocket => Some(CPU)
    case WuServiceStatus | WuLastCheckAt => Some(WindowsUpdate)
  }

  function KindOf(c: Column): Kind {
    match c
    case CollectedAt | OsInstallDate | BiosReleaseDate | WuLastCheckAt => DateKind
    case SystemTotalRamGb | CpuCores | CpuLogical | CpuMaxClock => NumberKind
    case _ => TextKind
  }

  function ListColumns(l: ListName): set<ListColumn> {
    match l
    case RAMModules => {Slot, Manufacturer, PartNumber, Serial, CapacityGB, SpeedMTps, FormFactor}
    case Storage => {Model, Serial, Firmware, SizeGB, MediaType, BusType, DeviceID}
    case GPUs => {Name, DriverVers, VramGB}
    case NICs => {Name, Mac, SpeedMbps}
  }

  function ListKindOf(c: ListColumn): Kind {
    match c
    case CapacityGB | SpeedMTps | SizeGB | VramGB | SpeedMbps => NumberKind
    case _ => TextKind
  }

  // ---------------------------------------------------------- normalisation

  type DateParser = string -> Option<int>

  /** Largest time value of a JavaScript Date. */
  const MAX_TIME := 8_640_000_000_000_000

  /** emptyToNull, parseDateMaybe, and `?? null`. */
  function Norm(parse: DateParser, kind: Kind, v: Value): Value {
    match (kind, v)
    case (TextKind, Text(s)) => if Trim(s) == [] then Null else Text(Trim(s))
    case (TextKind, Num(n)) => Text(Decimal(n))
    case (DateKind, Text(s)) =>
      if s == [] then Null else (match parse(s) case Some(ms) => Date(ms) case None => Null)
    case (DateKind, Num(n)) => if -MAX_TIME <= n <= MAX_TIME then Date(n) else Null
    case _ => v
  }

  lemma DecimalIsTrimmed(n: int)
    ensures Trim(Decimal(n)) == Decimal(n) && Decimal(n) != []
  {
    NumberOfDecimal(if n < 0 then -n else n);
    TrimIsTrimmed(Decimal(n));
  }

  lemma NormIsStable(parse: DateParser, kind: Kind, v: Value)
    ensures Norm(parse, kind, Norm(parse, kind, v)) == Norm(parse, kind, v)
  {
    if kind.TextKind? && v.Text? {
      TrimIsTrimmed(v.s);
      TrimIsTrimmed(Trim(v.s));
    } else if kind.TextKind? && v.Num? {
      DecimalIsTrimmed(v.n);
    }
  }

  // ------------------------------------------------------- bodies and rows

  type ListRow = map<ListColumn, Value>

  /** A section of the body: an object with some of its fields, or null / another falsy value. */
  datatype SectionBody = NoObject | Fields(fields: map<Column, Value>)

  /** A child list of the body: an array, or something that is not one. */
  datatype ListBody = NoArray | Items(items: seq<ListRow>)

  /** A request body, or the object read back; absent keys are absent from the maps. */
  datatype Body = Body(top: map<Column, Value>, sections: map<Section, SectionBody>, lists: map<ListName, ListBody>)

  const EMPTY := Body(map[], map[], map[])

  /** What the database holds for one computer: every column, and the rows of the four child tables. */
  datatype Stored = Stored(cells: map<Column, Value>, lists: map<ListName, seq<ListRow>>)

  function Get<K>(m: map<K, Value>, k: K): Value {
    if k in m then m[k] else Null
  }

  function FieldOf(b: Body, c: Column): Value {
    match SectionOf(c)
    case None => Get(b.top, c)
    case Some(s) => if s in b.sections && b.sections[s].Fields? then Get(b.sections[s].fields, c) else Null
  }

  function NormRow(parse: DateParser, l: ListName, row: ListRow): ListRow {
    map c | c in ListColumns(l) :: Norm(parse, ListKindOf(c), Get(row, c))
  }

  function NormRows(parse: DateParser, l: ListName, rows: seq<ListRow>): seq<ListRow> {
    seq(|rows|, i requires 0 <= i < |rows| => NormRow(parse, l, rows[i]))
  }

  function ListOf(parse: DateParser, b: Body, l: ListName): seq<ListRow> {
    if l in b.lists && b.lists[l].Items? then NormRows(parse, l, b.lists[l].items) else []
  }

  /** upsertMetadataForIpEntry: every column and every child table is rewritten from the body. */
  function Upserted(parse: DateParser, b: Body): Stored {
    Stored(map c: Column | true :: Norm(parse, KindOf(c), FieldOf(b, c)),
           map l: ListName | true :: ListOf(parse, b, l))
  }

  /** mapMeta: CPU.LogicalCPUs is read from a key the repository does not produce, hence always null. */
  function ReadBack(st: Stored): Body {
    Body(
      map c: Column | SectionOf(c).None? :: Get(st.cells, c),
      map s: Section | true ::
        Fields(map c: Column | SectionOf(c) == Some(s) :: if c.CpuLogical? then Null else Get(st.cells, c)),
      map l: ListName | true :: Items(if l in st.lists then st.lists[l] else []))
  }

  function MergedSection(existing: Body, patch: Body, s: Section): SectionBody
    requires s in existing.sections || s in patch.sections
  {
    if s in patch.sections then
      match patch.sections[s]
      case NoObject => NoObject
      case Fields(fields) =>
        Fields((if s in existing.sections && existing.sections[s].Fields? then existing.sections[s].fields else map[])
               + fields)
    else existing.sections[s]
  }

  /** The two loops of patchMetadataForIpEntry over the spread of both bodies. */
  function Merged(existing: Body, patch: Body): Body {
    Body(
      existing.top + patch.top,
      map s | s in existing.sections.Keys + patch.sections.Keys :: MergedSection(existing, patch, s),
      map l: ListName | true :: MergedList(existing, patch, l))
  }

  function MergedList(existing: Body, patch: Body, l: ListName): ListBody {
    if l in patch.lists then patch.lists[l] else if l in existing.lists then existing.lists[l] else Items([])
  }

  function Patched(parse: DateParser, st: Option<Stored>, patch: Body): Stored {
    Upserted(parse, Merged(if st.Some? then ReadBack(st.value) else EMPTY, patch))
  }

  // --------------------------------------------------------------- the frame

  /** The value a patch gives to a column, if it names it; a section that is no object names all its fields. */
  function Named(patch: Body, c: Column): Option<Value> {
    match SectionOf(c)
    case None => if c in patch.top then Some(patch.top[c]) else None
    case Some(s) =>
      if s !in patch.sections then None
      else match patch.sections[s]
        case NoObject => Some(Null)
        case Fields(fields) => if c in fields then Some(fields[c]) else None
  }

  predicate NormalRow(parse: DateParser, l: ListName, row: ListRow) { NormRow(parse, l, row) == row }

  /** Rows as an upsert leaves them. */
  ghost predicate Normal(parse: DateParser, st: Stored) {
    && (forall c: Column :: c in st.cells && Norm(parse, KindOf(c), st.cells[c]) == st.cells[c])
    && (forall l: ListName :: l in st.lists)
    && (forall l: ListName, i :: 0 <= i < |st.lists[l]| ==> NormalRow(parse, l, st.lists[l][i]))
  }

  lemma UpsertIsNormal(parse: DateParser, b: Body)
    ensures Normal(parse, Upserted(parse, b))
  {
    var st := Upserted(parse, b);
    forall c: Column ensures c in st.cells && Norm(parse, KindOf(c), st.cells[c]) == st.cells[c] {
      NormIsStable(parse, KindOf(c), FieldOf(b, c));
    }
    forall l: ListName, i | 0 <= i < |st.lists[l]|
      ensures NormalRow(parse, l, st.lists[l][i])
    {
      var row := b.lists[l].items[i];
      forall c | c in ListColumns(l)
        ensures NormRow(parse, l, NormRow(parse, l, row))[c] == NormRow(parse, l, row)[c]
      {
        NormIsStable(parse, ListKindOf(c), Get(row, c));
      }
    }
  }

  lemma NormalRowsStay(parse: DateParser, l: ListName, rows: seq<ListRow>)
    requires forall i :: 0 <= i < |rows| ==> NormalRow(parse, l, rows[i])
    ensures NormRows(parse, l, rows) == rows
  {
  }

  /** A field of the merged body is the patch's if it names it, and the existing one otherwise. */
  lemma FieldOfMerged(existing: Body, patch: Body, c: Column)
    ensures FieldOf(Merged(existing, patch), c) ==
            match Named(patch, c) case Some(v) => v case None => FieldOf(existing, c)
  {
    hide SectionOf, Merged, MergedSection;
    TopOfMerged(existing, patch);
    if SectionOf(c).Some? {
      var s := SectionOf(c).value;
      SectionOfMerged(existing, patch, s);
      if s in existing.sections || s in patch.sections {
        FieldOfMergedSection(existing, patch, s, c);
      }
    }
  }

  lemma TopOfMerged(existing: Body, patch: Body)
    ensures Merged(existing, patch).top == existing.top + patch.top
  {
  }

  lemma FieldOfMergedSection(existing: Body, patch: Body, s: Section, c: Column)
    requires SectionOf(c) == Some(s) && (s in existing.sections || s in patch.sections)
    ensures var merged := MergedSection(existing, patch, s);
      (if merged.Fields? then Get(merged.fields, c) else Null) ==
      match Named(patch, c) case Some(v) => v case None => FieldOf(existing, c)
  {
    hide SectionOf;
  }

  lemma SectionOfMerged(existing: Body, patch: Body, s: Section)
    ensures var merged := Merged(existing, patch);
      && (s in merged.sections <==> s in existing.sections || s in patch.sections)
      && (s in merged.sections ==> merged.sections[s] == MergedSection(existing, patch, s))
  {
  }

  lemma FieldOfReadBack(st: Stored, c: Column)
    ensures FieldOf(ReadBack(st), c) == if c.CpuLogical? then Null else Get(st.cells, c)
  {
    hide SectionOf;
    if SectionOf(c).Some? {
      var s := SectionOf(c).value;
      assert ReadBack(st).sections[s].Fields?;
    } else if c.CpuLogical? {
      assert SectionOf(CpuLogical) == Some(CPU) by { LogicalCpusAreInCpu(); }
    }
  }

  lemma LogicalCpusAreInCpu()
    ensures SectionOf(CpuLogical) == Some(CPU)
  {
  }

  /** What a patch does to each column: the named ones get the named value, the others keep theirs,
      except CPU.LogicalCPUs, which is reset. */
  lemma PatchChangesOnlyWhatItNames(parse: DateParser, st: Stored, patch: Body, c: Column)
    requires Normal(parse, st)
    ensures c in Patched(parse, Some(st), patch).cells
    ensures Patched(parse, Some(st), patch).cells[c] ==
            match Named(patch, c)
            case Some(v) => Norm(parse, KindOf(c), v)
            case None => if c.CpuLogical? then Null else st.cells[c]
  {
    hide SectionOf, Merged, ReadBack, Named;
    FieldOfMerged(ReadBack(st), patch, c);
    FieldOfReadBack(st, c);
  }

  /** An absent child list keeps its rows, a present one replaces them. */
  lemma PatchReplacesOnlyTheListsItHas(parse: DateParser, st: Stored, patch: Body, l: ListName)
    requires Normal(parse, st)
    ensures l in Patched(parse, Some(st), patch).lists
    ensures Patched(parse, Some(st), patch).lists[l] ==
            if l in patch.lists then ListOf(parse, patch, l) else st.lists[l]
  {
    if l !in patch.lists {
      NormalRowsStay(parse, l, st.lists[l]);
    }
  }

  /** On a computer without metadata the patch is simply stored: every other column is null, every other list empty. */
  lemma FirstPatchIsStored(parse: DateParser, patch: Body, c: Column, l: ListName)
    ensures c in Patched(parse, None, patch).cells && l in Patched(parse, None, patch).lists
    ensures Patched(parse, None, patch).cells[c] ==
            match Named(patch, c) case Some(v) => Norm(parse, KindOf(c), v) case None => Null
    ensures Patched(parse, None, patch).lists[l] == ListOf(parse, patch, l)
  {
    hide SectionOf, Named;
    FieldOfMerged(EMPTY, patch, c);
    assert FieldOf(EMPTY, c) == Null;
  }

  /** The frame holds exactly when the patch names CPU.LogicalCPUs or there was nothing to lose. */
  lemma FrameHoldsExactlyWhen(parse: DateParser, st: Stored, patch: Body)
    requires Normal(parse, st)
    ensures (forall c: Column :: Named(patch, c).None? ==> Patched(parse, Some(st), patch).cells[c] == st.cells[c]) <==>
            Named(patch, CpuLogical).Some? || st.cells[CpuLogical] == Null
  {
    forall c: Column {
      PatchChangesOnlyWhatItNames(parse, st, patch, c);
    }
  }

  const EIGHT_PROCESSORS := Body(map[], map[CPU := Fields(map[CpuLogical := Num(8)])], map[])

  const RENAMED := Body(map[ComputerName := Text("PC-1")], map[], map[])

  lemma EightAreStored(parse: DateParser)
    ensures CpuLogical in Upserted(parse, EIGHT_PROCESSORS).cells
    ensures Upserted(parse, EIGHT_PROCESSORS).cells[CpuLogical] == Num(8)
  {
    LogicalCpusAreInCpu();
    hide SectionOf;
    assert FieldOf(EIGHT_PROCESSORS, CpuLogical) == Num(8);
  }

  lemma RenamingNamesNoProcessors()
    ensures Named(RENAMED, CpuLogical).None?
  {
    LogicalCpusAreInCpu();
    hide SectionOf;
  }

  /** A computer with eight logical processors loses the number to a patch that only names the computer. */
  lemma RenamingLosesLogicalCpus(parse: DateParser)
    ensures var st := Upserted(parse, EIGHT_PROCESSORS);
      && Normal(parse, st) && CpuLogical in st.cells && st.cells[CpuLogical] == Num(8)
      && CpuLogical in Patched(parse, Some(st), RENAMED).cells
      && Patched(parse, Some(st), RENAMED).cells[CpuLogical] == Null
  {
    hide Patched, Upserted, Named, SectionOf;
    UpsertIsNormal(parse, EIGHT_PROCESSORS);
    EightAreStored(parse);
    RenamingNamesNoProcessors();
    PatchChangesOnlyWhatItNames(parse, Upserted(parse, EIGHT_PROCESSORS), RENAMED, CpuLogical);
  }

  lemma SameStored(a: Stored, b: Stored)
    requires forall c: Column :: c in a.cells && c in b.cells && a.cells[c] == b.cells[c]
    requires forall l: ListName :: l in a.lists && l in b.lists && a.lists[l] == b.lists[l]
    ensures a == b
  {
  }

  /** Patching twice with the same body is patching once. */
  lemma PatchTwiceIsPatchOnce(parse: DateParser, st: Option<Stored>, patch: Body)
    requires st.Some? ==> Normal(parse, st.value)
    ensures var once := Patched(parse, st, patch); Patched(parse, Some(once), patch) == once
  {
    var existing := if st.Some? then ReadBack(st.value) else EMPTY;
    var once := Patched(parse, st, patch);
    UpsertIsNormal(parse, Merged(existing, patch));
    var twice := Patched(parse, Some(once), patch);
    forall c: Column ensures c in twice.cells && c in once.cells && twice.cells[c] == once.cells[c] {
      PatchChangesOnlyWhatItNames(parse, once, patch, c);
      if st.Some? {
        PatchChangesOnlyWhatItNames(parse, st.value, patch, c);
      } else {
        FirstPatchIsStored(parse, patch, c, GPUs);
      }
    }
    forall l: ListName ensures l in twice.lists && l in once.lists && twice.lists[l] == once.lists[l] {
      PatchReplacesOnlyTheListsItHas(parse, once, patch, l);
      if st.Some? {
        PatchReplacesOnlyTheListsItHas(parse, st.value, patch, l);
      } else {
        FirstPatchIsStored(parse, patch, Psu, l);
      }
    }
    SameStored(twice, once);
  }

  /** Two patches that name no common column commute on every column but CPU.LogicalCPUs, where the
      value set by the first one is lost to the second. */
  lemma DisjointPatchesCommuteButForLogicalCpus(parse: DateParser, st: Stored, p: Body, q: Body, c: Column)
    requires Normal(parse, st)
    requires Named(p, c).None? || Named(q, c).None?
    ensures var pq := Patched(parse, Some(Patched(parse, Some(st), p)), q);
            var qp := Patched(parse, Some(Patched(parse, Some(st), q)), p);
      && (!c.CpuLogical? ==> pq.cells[c] == qp.cells[c])
      && (c.CpuLogical? && Named(q, c).None? ==> pq.cells[c] == Null)
  {
    UpsertIsNormal(parse, Merged(ReadBack(st), p));
    UpsertIsNormal(parse, Merged(ReadBack(st), q));
    PatchChangesOnlyWhatItNames(parse, st, p, c);
    PatchChangesOnlyWhatItNames(parse, st, q, c);
    PatchChangesOnlyWhatItNames(parse, Patched(parse, Some(st), p), q, c);
    PatchChangesOnlyWhatItNames(parse, Patched(parse, Some(st), q), p, c);
  }

  /** They commute on every child list that not both of them name. */
  lemma DisjointPatchesCommuteOnLists(parse: DateParser, st: Stored, p: Body, q: Body, l: ListName)
    requires Normal(parse, st)
    requires l !in p.lists || l !in q.lists
    ensures var pq := Patched(parse, Some(Patched(parse, Some(st), p)), q);
            var qp := Patched(parse, Some(Patched(parse, Some(st), q)), p);
      l in pq.lists && l in qp.lists && pq.lists[l] == qp.lists[l]
  {
    hide Patched, Normal, ListOf;
    PatchedIsNormal(parse, st, p);
    PatchedIsNormal(parse, st, q);
    PatchReplacesOnlyTheListsItHas(parse, st, p, l);
    PatchReplacesOnlyTheListsItHas(parse, st, q, l);
    PatchReplacesOnlyTheListsItHas(parse, Patched(parse, Some(st), p), q, l);
    PatchReplacesOnlyTheListsItHas(parse, Patched(parse, Some(st), q), p, l);
  }

  lemma PatchedIsNormal(parse: DateParser, st: Stored, patch: Body)
    ensures Normal(parse, Patched(parse, Some(st), patch))
  {
    UpsertIsNormal(parse, Merged(ReadBack(st), patch));
    hide Upserted, Merged, ReadBack, Normal;
  }
}
