/**
  What an upsert of metadata stores, column by column (backend/services/metadata.service.js:141-259): each
  column of computer_metadata with the field of the body it comes from, and the rows of the child tables.
 */
module MetadataCells {
  import opened Common
  import opened Strings
  import opened Metadata

  /** A text cell: the text without the white space around it, NULL if nothing is left; the numeral of a number. */
  ghost predicate TextStored(given: Value, cell: Value) {
    match given
    case Null => cell == Null
    case Text(s) => if AllSpace(s) then cell == Null else cell.Text? && Strips(s, cell.s)
    case Num(n) => cell.Text? && IsNumeral(cell.s, n)
    case Date(_) => cell == given
  }

  /** A date cell: what the parser makes of a text, the instant of a number in the range of dates. */
  ghost predicate DateStored(parse: DateParser, given: Value, cell: Value) {
    match given
    case Null => cell == Null
    case Text(s) => cell == if s != "" && parse(s).Some? then Date(parse(s).value) else Null
    case Num(n) => cell == if -8_640_000_000_000_000 <= n <= 8_640_000_000_000_000 then Date(n) else Null
    case Date(_) => cell == given
  }

  /** The digits of the number, with a sign if it is negative, and no leading zero. */
  ghost predicate IsNumeral(s: string, n: int) {
    if n < 0 then s != [] && s[0] == '-' && IsNumeralNat(s[1..], -n) else IsNumeralNat(s, n)
  }

  ghost predicate IsNumeralNat(s: string, n: nat) {
    s != [] && AllDigits(s) && NumberOf(s) == n && (n > 0 ==> s[0] != '0') && (n == 0 ==> s == "0")
  }

  /** The value of a field of a section of the body; null if the section or the field is not there. */
  function Field(b: Body, s: Section, c: Column): Value {
    if s in b.sections && b.sections[s].Fields? && c in b.sections[s].fields then b.sections[s].fields[c] else Null
  }

  function TopField(b: Body, c: Column): Value {
    if c in b.top then b.top[c] else Null
  }

  ghost predicate TopCellsStored(parse: DateParser, b: Body, cells: map<Column, Value>)
    requires forall c: Column :: c in cells
  {
    && DateStored(parse, TopField(b, CollectedAt), cells[CollectedAt])
    && TextStored(TopField(b, ComputerName), cells[ComputerName])
    && TextStored(TopField(b, UserName), cells[UserName])
    && TextStored(TopField(b, Psu), cells[Psu])
  }

  ghost predicate OsCellsStored(parse: DateParser, b: Body, cells: map<Column, Value>)
    requires forall c: Column :: c in cells
  {
    && TextStored(Field(b, OS, OsCaption), cells[OsCaption])
    && TextStored(Field(b, OS, OsVersion), cells[OsVersion])
    && TextStored(Field(b, OS, OsBuild), cells[OsBuild])
    && DateStored(parse, Field(b, OS, OsInstallDate), cells[OsInstallDate])
  }

  ghost predicate SystemCellsStored(parse: DateParser, b: Body, cells: map<Column, Value>)
    requires forall c: Column :: c in cells
  {
    && TextStored(Field(b, System, SystemManufacturer), cells[SystemManufacturer])
    && TextStored(Field(b, System, SystemModel), cells[SystemModel])
    && cells[SystemTotalRamGb] == Field(b, System, SystemTotalRamGb)
  }

  ghost predicate MotherboardCellsStored(parse: DateParser, b: Body, cells: map<Column, Value>)
    requires forall c: Column :: c in cells
  {
    && TextStored(Field(b, Motherboard, MbManufacturer), cells[MbManufacturer])
    && TextStored(Field(b, Motherboard, MbProduct), cells[MbProduct])
    && TextStored(Field(b, Motherboard, MbSerial), cells[MbSerial])
  }

  ghost predicate BiosCellsStored(parse: DateParser, b: Body, cells: map<Column, Value>)
    requires forall c: Column :: c in cells
  {
    && TextStored(Field(b, BIOS, BiosVendor), cells[BiosVendor])
    && TextStored(Field(b, BIOS, BiosVersion), cells[BiosVersion])
    && DateStored(parse, Field(b, BIOS, BiosReleaseDate), cells[BiosReleaseDate])
  }

  ghost predicate CpuCellsStored(parse: DateParser, b: Body, cells: map<Column, Value>)
    requires forall c: Column :: c in cells
  {
    && TextStored(Field(b, CPU, CpuName), cells[CpuName])
    && cells[CpuCores] == Field(b, CPU, CpuCores)
    && cells[CpuLogical] == Field(b, CPU, CpuLogical)
    && cells[CpuMaxClock] == Field(b, CPU, CpuMaxClock)
    && TextStored(Field(b, CPU, CpuSocket), cells[CpuSocket])
  }

  ghost predicate WindowsUpdateCellsStored(parse: DateParser, b: Body, cells: map<Column, Value>)
    requires forall c: Column :: c in cells
  {
    && TextStored(Field(b, WindowsUpdate, WuServiceStatus), cells[WuServiceStatus])
    && DateStored(parse, Field(b, WindowsUpdate, WuLastCheckAt), cells[WuLastCheckAt])
  }

  ghost predicate CellsStored(parse: DateParser, b: Body, cells: map<Column, Value>)
    requires forall c: Column :: c in cells
  {
    && TopCellsStored(parse, b, cells)
    && OsCellsStored(parse, b, cells)
    && SystemCellsStored(parse, b, cells)
    && MotherboardCellsStored(parse, b, cells)
    && BiosCellsStored(parse, b, cells)
    && CpuCellsStored(parse, b, cells)
    && WindowsUpdateCellsStored(parse, b, cells)
  }

  /** The row holds these text and number columns of the item, and nothing else. */
  ghost predicate RowStored(item: ListRow, row: ListRow, texts: set<ListColumn>, numbers: set<ListColumn>) {
    && (forall c :: c in row <==> c in texts || c in numbers)
    && (forall c :: c in texts && c in row ==> TextStored(if c in item then item[c] else Null, row[c]))
    && (forall c :: c in numbers && c in row ==> row[c] == if c in item then item[c] else Null)
  }

  /** One row for each item of the list, in order; none if it is absent or no array. */
  ghost predicate RowsStored(
    b: Body, l: ListName, rows: seq<ListRow>, texts: set<ListColumn>, numbers: set<ListColumn>) {
    if l in b.lists && b.lists[l].Items?
    then |rows| == |b.lists[l].items| &&
         forall i :: 0 <= i < |rows| ==> RowStored(b.lists[l].items[i], rows[i], texts, numbers)
    else rows == []
  }

  ghost predicate ListsStored(b: Body, lists: map<ListName, seq<ListRow>>)
    requires forall l: ListName :: l in lists
  {
    && RowsStored(b, RAMModules, lists[RAMModules],
                  {Slot, Manufacturer, PartNumber, Serial, FormFactor}, {CapacityGB, SpeedMTps})
    && RowsStored(b, Storage, lists[Storage], {Model, Serial, Firmware, MediaType, BusType, DeviceID}, {SizeGB})
    && RowsStored(b, GPUs, lists[GPUs], {Name, DriverVers}, {VramGB})
    && RowsStored(b, NICs, lists[NICs], {Name, Mac}, {SpeedMbps})
  }

  /** What an upsert of this body stores. */
  ghost predicate StoredFrom(parse: DateParser, b: Body, st: Stored) {
    && (forall c: Column :: c in st.cells) && (forall l: ListName :: l in st.lists)
    && CellsStored(parse, b, st.cells) && ListsStored(b, st.lists)
  }

  lemma NormStores(parse: DateParser, kind: Kind, v: Value)
    ensures kind.TextKind? ==> TextStored(v, Norm(parse, kind, v))
    ensures kind.DateKind? ==> DateStored(parse, v, Norm(parse, kind, v))
    ensures kind.NumberKind? ==> Norm(parse, kind, v) == v
  {
    if kind.TextKind? && v.Text? {
      TrimStrips(v.s);
    } else if kind.TextKind? && v.Num? {
      NumberOfDecimal(if v.n < 0 then -v.n else v.n);
    }
  }

  lemma TopStored(parse: DateParser, b: Body, c: Column)
    requires SectionOf(c).None?
    ensures Upserted(parse, b).cells[c] == Norm(parse, KindOf(c), TopField(b, c))
  {
    hide SectionOf, KindOf;
  }

  lemma SectionStored(parse: DateParser, b: Body, s: Section, c: Column)
    requires SectionOf(c) == Some(s)
    ensures Upserted(parse, b).cells[c] == Norm(parse, KindOf(c), Field(b, s, c))
  {
    hide SectionOf, KindOf;
  }

  lemma TextCell(parse: DateParser, b: Body, s: Section, c: Column)
    requires SectionOf(c) == Some(s) && KindOf(c).TextKind?
    ensures TextStored(Field(b, s, c), Upserted(parse, b).cells[c])
  {
    hide Upserted, Norm, SectionOf, KindOf, TextStored;
    SectionStored(parse, b, s, c);
    NormStores(parse, TextKind, Field(b, s, c));
  }

  lemma DateCell(parse: DateParser, b: Body, s: Section, c: Column)
    requires SectionOf(c) == Some(s) && KindOf(c).DateKind?
    ensures DateStored(parse, Field(b, s, c), Upserted(parse, b).cells[c])
  {
    hide Upserted, Norm, SectionOf, KindOf, DateStored;
    SectionStored(parse, b, s, c);
    NormStores(parse, DateKind, Field(b, s, c));
  }

  lemma NumberCell(parse: DateParser, b: Body, s: Section, c: Column)
    requires SectionOf(c) == Some(s) && KindOf(c).NumberKind?
    ensures Upserted(parse, b).cells[c] == Field(b, s, c)
  {
    hide Upserted, Norm, SectionOf, KindOf;
    SectionStored(parse, b, s, c);
    NormStores(parse, NumberKind, Field(b, s, c));
  }

  lemma TopCellsAreStored(parse: DateParser, b: Body)
    requires forall c: Column :: c in Upserted(parse, b).cells
    ensures TopCellsStored(parse, b, Upserted(parse, b).cells)
  {
    hide Upserted, Norm, TextStored, DateStored, Field, TopField;
    TopStored(parse, b, CollectedAt);
    NormStores(parse, DateKind, TopField(b, CollectedAt));
    TopStored(parse, b, ComputerName);
    NormStores(parse, TextKind, TopField(b, ComputerName));
    TopStored(parse, b, UserName);
    NormStores(parse, TextKind, TopField(b, UserName));
    TopStored(parse, b, Psu);
    NormStores(parse, TextKind, TopField(b, Psu));
  }

  lemma OsCellsAreStored(parse: DateParser, b: Body)
    requires forall c: Column :: c in Upserted(parse, b).cells
    ensures OsCellsStored(parse, b, Upserted(parse, b).cells)
  {
    hide Upserted, Norm, TextStored, DateStored, Field, TopField;
    TextCell(parse, b, OS, OsCaption);
    TextCell(parse, b, OS, OsVersion);
    TextCell(parse, b, OS, OsBuild);
    DateCell(parse, b, OS, OsInstallDate);
  }

  lemma SystemCellsAreStored(parse: DateParser, b: Body)
    requires forall c: Column :: c in Upserted(parse, b).cells
    ensures SystemCellsStored(parse, b, Upserted(parse, b).cells)
  {
    hide Upserted, Norm, TextStored, DateStored, Field, TopField;
    TextCell(parse, b, System, SystemManufacturer);
    TextCell(parse, b, System, SystemModel);
    NumberCell(parse, b, System, SystemTotalRamGb);
  }

  lemma MotherboardCellsAreStored(parse: DateParser, b: Body)
    requires forall c: Column :: c in Upserted(parse, b).cells
    ensures MotherboardCellsStored(parse, b, Upserted(parse, b).cells)
  {
    hide Upserted, Norm, TextStored, DateStored, Field, TopField;
    TextCell(parse, b, Motherboard, MbManufacturer);
    TextCell(parse, b, Motherboard, MbProduct);
    TextCell(parse, b, Motherboard, MbSerial);
  }

  lemma BiosCellsAreStored(parse: DateParser, b: Body)
    requires forall c: Column :: c in Upserted(parse, b).cells
    ensures BiosCellsStored(parse, b, Upserted(parse, b).cells)
  {
    hide Upserted, Norm, TextStored, DateStored, Field, TopField;
    TextCell(parse, b, BIOS, BiosVendor);
    TextCell(parse, b, BIOS, BiosVersion);
    DateCell(parse, b, BIOS, BiosReleaseDate);
  }

  lemma CpuCellsAreStored(parse: DateParser, b: Body)
    requires forall c: Column :: c in Upserted(parse, b).cells
    ensures CpuCellsStored(parse, b, Upserted(parse, b).cells)
  {
    hide Upserted, Norm, TextStored, DateStored, Field, TopField;
    TextCell(parse, b, CPU, CpuName);
    NumberCell(parse, b, CPU, CpuCores);
    NumberCell(parse, b, CPU, CpuLogical);
    NumberCell(parse, b, CPU, CpuMaxClock);
    TextCell(parse, b, CPU, CpuSocket);
  }

  lemma WindowsUpdateCellsAreStored(parse: DateParser, b: Body)
    requires forall c: Column :: c in Upserted(parse, b).cells
    ensures WindowsUpdateCellsStored(parse, b, Upserted(parse, b).cells)
  {
    hide Upserted, Norm, TextStored, DateStored, Field, TopField;
    TextCell(parse, b, WindowsUpdate, WuServiceStatus);
    DateCell(parse, b, WindowsUpdate, WuLastCheckAt);
  }

  lemma EveryCellIsStored(parse: DateParser, b: Body)
    requires forall c: Column :: c in Upserted(parse, b).cells
    ensures CellsStored(parse, b, Upserted(parse, b).cells)
  {
    hide Upserted, TopCellsStored, OsCellsStored, SystemCellsStored, MotherboardCellsStored, BiosCellsStored;
    hide CpuCellsStored, WindowsUpdateCellsStored;
    TopCellsAreStored(parse, b);
    OsCellsAreStored(parse, b);
    SystemCellsAreStored(parse, b);
    MotherboardCellsAreStored(parse, b);
    BiosCellsAreStored(parse, b);
    CpuCellsAreStored(parse, b);
    WindowsUpdateCellsAreStored(parse, b);
  }

  lemma EveryColumnIsUpserted(parse: DateParser, b: Body)
    ensures forall c: Column :: c in Upserted(parse, b).cells
    ensures forall l: ListName :: l in Upserted(parse, b).lists && Upserted(parse, b).lists[l] == ListOf(parse, b, l)
  {
  }

  lemma ListIsStored(parse: DateParser, b: Body, l: ListName, texts: set<ListColumn>, numbers: set<ListColumn>)
    requires forall c :: c in ListColumns(l) <==> c in texts || c in numbers
    requires forall c :: c in texts ==> ListKindOf(c).TextKind?
    requires forall c :: c in numbers ==> ListKindOf(c).NumberKind?
    ensures RowsStored(b, l, ListOf(parse, b, l), texts, numbers)
  {
    hide ListColumns, ListKindOf, Norm, TextStored;
    if l in b.lists && b.lists[l].Items? {
      var items := b.lists[l].items;
      forall i | 0 <= i < |items|
        ensures RowStored(items[i], NormRow(parse, l, items[i]), texts, numbers)
      {
        forall c | c in ListColumns(l)
          ensures ListKindOf(c).TextKind? ==> TextStored(Get(items[i], c), NormRow(parse, l, items[i])[c])
          ensures ListKindOf(c).NumberKind? ==> NormRow(parse, l, items[i])[c] == Get(items[i], c)
        {
          NormStores(parse, ListKindOf(c), Get(items[i], c));
        }
      }
    }
  }

  lemma EveryListIsStored(parse: DateParser, b: Body)
    requires forall l: ListName :: l in Upserted(parse, b).lists && Upserted(parse, b).lists[l] == ListOf(parse, b, l)
    ensures ListsStored(b, Upserted(parse, b).lists)
  {
    hide Upserted, RowsStored, ListOf;
    ModulesAndDisks(parse, b);
    CardsAndAdapters(parse, b);
  }

  lemma ModulesAndDisks(parse: DateParser, b: Body)
    ensures RowsStored(b, RAMModules, ListOf(parse, b, RAMModules),
                       {Slot, Manufacturer, PartNumber, Serial, FormFactor}, {CapacityGB, SpeedMTps})
    ensures RowsStored(b, Storage, ListOf(parse, b, Storage),
                       {Model, Serial, Firmware, MediaType, BusType, DeviceID}, {SizeGB})
  {
    hide RowsStored, ListOf;
    ListIsStored(parse, b, RAMModules, {Slot, Manufacturer, PartNumber, Serial, FormFactor}, {CapacityGB, SpeedMTps});
    ListIsStored(parse, b, Storage, {Model, Serial, Firmware, MediaType, BusType, DeviceID}, {SizeGB});
  }

  lemma CardsAndAdapters(parse: DateParser, b: Body)
    ensures RowsStored(b, GPUs, ListOf(parse, b, GPUs), {Name, DriverVers}, {VramGB})
    ensures RowsStored(b, NICs, ListOf(parse, b, NICs), {Name, Mac}, {SpeedMbps})
  {
    hide RowsStored, ListOf;
    ListIsStored(parse, b, GPUs, {Name, DriverVers}, {VramGB});
    ListIsStored(parse, b, NICs, {Name, Mac}, {SpeedMbps});
  }

  /** What an upsert stores, column by column and row by row. */
  lemma UpsertStores(parse: DateParser, b: Body)
    ensures StoredFrom(parse, b, Upserted(parse, b))
  {
    hide Upserted, CellsStored, ListsStored, ListOf;
    EveryColumnIsUpserted(parse, b);
    EveryCellIsStored(parse, b);
    EveryListIsStored(parse, b);
  }
}
