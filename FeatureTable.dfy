/**
 * The feature-table builder of scripts/table_ML.py (class DataProcessor): four
 * source readers that filter and rename one raw table each, a left-join fold
 * on (area, year) that starts from the yield table, and a finaliser that keeps
 * the canonical columns, drops rows without a target and removes duplicates.
 */
module FeatureTable {
  import opened Wrappers
  import opened Frames

  // ---------------------------------------------------------------------------
  // Tables
  // ---------------------------------------------------------------------------

  /** The columns a processed table can carry, under their canonical names. */
  datatype Column = Area | Year | CropType | CropYield | Rainfall | Temperature | PesticideUsage

  /** One row of a processed or merged table; a column the table lacks reads as None. */
  datatype Row = Row(
    area: string,
    year: int,
    cropType: Option<string>,
    cropYield: Option<real>,
    rainfall: Option<real>,
    temperature: Option<real>,
    pesticideUsage: Option<real>)

  /** A data frame: its column names in order, and its rows. */
  datatype Table = Table(columns: seq<Column>, rows: seq<Row>)

  /** The key of the left join in merge_datasets. */
  predicate SameKey(a: Row, b: Row)
  {
    a.area == b.area && a.year == b.year
  }

  /** a and b hold the same value in column c. */
  predicate AgreesOn(a: Row, b: Row, c: Column)
  {
    match c
    case Area => a.area == b.area
    case Year => a.year == b.year
    case CropType => a.cropType == b.cropType
    case CropYield => a.cropYield == b.cropYield
    case Rainfall => a.rainfall == b.rainfall
    case Temperature => a.temperature == b.temperature
    case PesticideUsage => a.pesticideUsage == b.pesticideUsage
  }

  /** o carries l's values in every column of cols (o is l, possibly widened). */
  predicate Extends(o: Row, l: Row, cols: seq<Column>)
  {
    forall c :: c in cols ==> AgreesOn(o, l, c)
  }

  /** The optional fields of r outside cols are all missing. */
  predicate OnlyColumns(r: Row, cols: seq<Column>)
  {
    && (CropType !in cols ==> r.cropType.None?)
    && (CropYield !in cols ==> r.cropYield.None?)
    && (Rainfall !in cols ==> r.rainfall.None?)
    && (Temperature !in cols ==> r.temperature.None?)
    && (PesticideUsage !in cols ==> r.pesticideUsage.None?)
  }

  /** The shape every table the builder produces has. */
  predicate WellFormed(t: Table)
  {
    && NoDuplicates(t.columns)
    && Area in t.columns && Year in t.columns
    && RowsWithin(t.rows, t.columns)
  }

  /** Every row leaves the columns outside cols missing. */
  predicate RowsWithin(rows: seq<Row>, cols: seq<Column>)
  {
    forall i :: 0 <= i < |rows| ==> OnlyColumns(rows[i], cols)
  }

  lemma RowsWithinAppend(h: seq<Row>, t: seq<Row>, cols: seq<Column>)
    requires RowsWithin(h, cols) && RowsWithin(t, cols)
    ensures RowsWithin(h + t, cols)
  {
    forall i | 0 <= i < |h + t| ensures OnlyColumns((h + t)[i], cols) {
      if i >= |h| {
        assert (h + t)[i] == t[i - |h|];
      }
    }
  }

  // ---------------------------------------------------------------------------
  // Source readers
  // ---------------------------------------------------------------------------

  /** A row of rainfall.csv after renaming (' Area', 'Year', 'average_rain_fall_mm_per_year'). */
  datatype RainfallRecord = RainfallRecord(area: string, year: int, rainfall: Cell)

  /** A row of temp.csv after renaming ('country', 'year', 'avg_temp'). */
  datatype TemperatureRecord = TemperatureRecord(area: string, year: int, temperature: Cell)

  /** A row of pesticides.csv after renaming ('Area', 'Year', 'Item', 'Value'). */
  datatype PesticideRecord = PesticideRecord(area: string, year: int, item: string, value: Cell)

  /** A row of yield.csv after renaming ('Area', 'Year', 'Element', 'Item', 'Value'). */
  datatype YieldRecord = YieldRecord(area: string, year: int, element: string, item: string, value: Cell)

  const PesticidesTotal: string := "Pesticides (total)"
  const YieldElement: string := "Yield"

  /** A rainfall record survives iff its value reads as a number and is strictly positive. */
  predicate KeepsRainfall(rec: RainfallRecord)
  {
    rec.rainfall.Num? && rec.rainfall.x > 0.0
  }

  function RainfallRow(rec: RainfallRecord): Row
  {
    Row(rec.area, rec.year, None, None, ToNumeric(rec.rainfall), None, None)
  }

  const RainfallColumns: seq<Column> := [Area, Year, Rainfall]
  const TemperatureColumns: seq<Column> := [Area, Year, Temperature]
  const PesticideColumns: seq<Column> := [Area, Year, PesticideUsage]
  const YieldColumns: seq<Column> := [Area, Year, CropType, CropYield]

  /** The rows of the kept records, in the records' order. */
  function RainfallRows(recs: seq<RainfallRecord>): (r: seq<Row>)
    ensures r == Map(RainfallRow, Filter(KeepsRainfall, recs))
  {
    if recs == [] then []
    else
      MapFilterCons(RainfallRow, KeepsRainfall, recs[0], recs[1..]);
      assert recs == [recs[0]] + recs[1..];
      (if KeepsRainfall(recs[0]) then [RainfallRow(recs[0])] else []) + RainfallRows(recs[1..])
  }

  /** Which records give rows, and the shape of those rows. */
  lemma RainfallRowsKept(recs: seq<RainfallRecord>)
    ensures var r := RainfallRows(recs);
      && |r| <= |recs|
      && (forall i :: 0 <= i < |r| ==> OnlyColumns(r[i], RainfallColumns) && r[i].rainfall.Some? && r[i].rainfall.value > 0.0)
      && (forall rec :: rec in recs ==> (RainfallRow(rec) in r <==> KeepsRainfall(rec)))
      && (forall row :: row in r ==> exists rec :: rec in recs && KeepsRainfall(rec) && row == RainfallRow(rec))
  {
    var kept := Filter(KeepsRainfall, recs);
    var r := RainfallRows(recs);
    KeptImages(RainfallRow, KeepsRainfall, recs);
    forall i | 0 <= i < |r| ensures r[i] == RainfallRow(kept[i]) && KeepsRainfall(kept[i]) {}
  }

  /**
   * load_and_process_rainfall: pd.to_numeric turns every non-number into NaN,
   * and `rainfall > 0` drops NaN, zero and negative values. A file that cannot
   * be read or lacks a column (None here) makes the reader return None.
   */
  function LoadRainfall(src: Option<seq<RainfallRecord>>): (r: Option<Table>)
    ensures r.Some? <==> src.Some?
    ensures r.Some? ==> WellFormed(r.value) && r.value.columns == RainfallColumns
    ensures r.Some? ==> forall rec :: rec in src.value ==> (RainfallRow(rec) in r.value.rows <==> KeepsRainfall(rec))
    ensures r.Some? ==> forall row :: row in r.value.rows ==>
      exists rec :: rec in src.value && KeepsRainfall(rec) && row == RainfallRow(rec)
    ensures r.Some? ==> r.value.rows == Map(RainfallRow, Filter(KeepsRainfall, src.value))
  {
    match src
    case None => None
    case Some(recs) =>
      RainfallRowsKept(recs);
      Some(Table(RainfallColumns, RainfallRows(recs)))
  }

  /**
   * A comparison on a column that holds text raises TypeError in pandas. A
   * column that holds some text is stored as text throughout (numbers
   * included), so the comparison raises as soon as it meets a non-missing cell.
   */
  predicate ComparisonRaises(column: seq<Cell>, compared: seq<Cell>)
  {
    (exists i :: 0 <= i < |column| && column[i].Text?) && (exists j :: 0 <= j < |compared| && !compared[j].Null?)
  }

  function TemperatureCells(recs: seq<TemperatureRecord>): (r: seq<Cell>)
    ensures |r| == |recs| && forall i :: 0 <= i < |recs| ==> r[i] == recs[i].temperature
  {
    Map(TemperatureCell, recs)
  }

  function TemperatureCell(rec: TemperatureRecord): Cell
  {
    rec.temperature
  }

  /** A temperature record survives iff -50 <= temperature <= 60, both bounds included. */
  predicate KeepsTemperature(rec: TemperatureRecord)
  {
    rec.temperature.Num? && -50.0 <= rec.temperature.x <= 60.0
  }

  function TemperatureRow(rec: TemperatureRecord): Row
  {
    Row(rec.area, rec.year, None, None, None, ToNumeric(rec.temperature), None)
  }

  /** The rows of the kept records, in the records' order. */
  function TemperatureRows(recs: seq<TemperatureRecord>): (r: seq<Row>)
    ensures r == Map(TemperatureRow, Filter(KeepsTemperature, recs))
  {
    if recs == [] then []
    else
      MapFilterCons(TemperatureRow, KeepsTemperature, recs[0], recs[1..]);
      assert recs == [recs[0]] + recs[1..];
      (if KeepsTemperature(recs[0]) then [TemperatureRow(recs[0])] else []) + TemperatureRows(recs[1..])
  }

  /** Which records give rows, and the shape of those rows. */
  lemma TemperatureRowsKept(recs: seq<TemperatureRecord>)
    ensures var r := TemperatureRows(recs);
      && |r| <= |recs|
      && (forall i :: 0 <= i < |r| ==> OnlyColumns(r[i], TemperatureColumns) && r[i].temperature.Some? && -50.0 <= r[i].temperature.value <= 60.0)
      && (forall rec :: rec in recs ==> (TemperatureRow(rec) in r <==> KeepsTemperature(rec)))
      && (forall row :: row in r ==> exists rec :: rec in recs && KeepsTemperature(rec) && row == TemperatureRow(rec))
  {
    var kept := Filter(KeepsTemperature, recs);
    var r := TemperatureRows(recs);
    KeptImages(TemperatureRow, KeepsTemperature, recs);
    forall i | 0 <= i < |r| ensures r[i] == TemperatureRow(kept[i]) && KeepsTemperature(kept[i]) {}
  }

  /**
   * load_and_process_temperature: no numeric coercion, so a text cell makes
   * the range comparison raise and the reader return None; missing values
   * fail both comparisons and are dropped.
   */
  function LoadTemperature(src: Option<seq<TemperatureRecord>>): (r: Option<Table>)
    ensures r.Some? <==> src.Some? && !ComparisonRaises(TemperatureCells(src.value), TemperatureCells(src.value))
    ensures r.Some? ==> WellFormed(r.value) && r.value.columns == TemperatureColumns
    ensures r.Some? ==> forall rec :: rec in src.value ==> (TemperatureRow(rec) in r.value.rows <==> KeepsTemperature(rec))
    ensures r.Some? ==> forall row :: row in r.value.rows ==>
      exists rec :: rec in src.value && KeepsTemperature(rec) && row == TemperatureRow(rec)
    ensures r.Some? ==> r.value.rows == Map(TemperatureRow, Filter(KeepsTemperature, src.value))
  {
    match src
    case None => None
    case Some(recs) =>
      var cells := TemperatureCells(recs);
      if ComparisonRaises(cells, cells) then None
      else
        var rows := TemperatureRows(recs);
        TemperatureTableWellFormed(rows);
        TemperatureRowsKept(recs);
        Some(Table(TemperatureColumns, rows))
  }

  lemma TemperatureTableWellFormed(rows: seq<Row>)
    requires forall i :: 0 <= i < |rows| ==> OnlyColumns(rows[i], TemperatureColumns)
    ensures WellFormed(Table(TemperatureColumns, rows))
  {
  }

  /** Every text cell of the temperature column makes the reader fail. */
  lemma TemperatureTextFails(recs: seq<TemperatureRecord>, i: nat)
    requires i < |recs| && recs[i].temperature.Text?
    ensures LoadTemperature(Some(recs)).None?
  {
    var cells := TemperatureCells(recs);
    assert cells[i].Text? && !cells[i].Null?;
  }

  function PesticideCells(recs: seq<PesticideRecord>): (r: seq<Cell>)
    ensures |r| == |recs| && forall i :: 0 <= i < |recs| ==> r[i] == recs[i].value
  {
    Map(PesticideCell, recs)
  }

  function PesticideCell(rec: PesticideRecord): Cell
  {
    rec.value
  }

  predicate IsPesticidesTotal(rec: PesticideRecord)
  {
    rec.item == PesticidesTotal
  }

  /** A pesticide record survives iff it is the total and its value is a number >= 0. */
  predicate KeepsPesticide(rec: PesticideRecord)
  {
    IsPesticidesTotal(rec) && rec.value.Num? && rec.value.x >= 0.0
  }

  function PesticideRow(rec: PesticideRecord): Row
  {
    Row(rec.area, rec.year, None, None, None, None, ToNumeric(rec.value))
  }

  /** The rows of the kept records, in the records' order. */
  function PesticideRows(recs: seq<PesticideRecord>): (r: seq<Row>)
    ensures r == Map(PesticideRow, Filter(KeepsPesticide, recs))
  {
    if recs == [] then []
    else
      MapFilterCons(PesticideRow, KeepsPesticide, recs[0], recs[1..]);
      assert recs == [recs[0]] + recs[1..];
      (if KeepsPesticide(recs[0]) then [PesticideRow(recs[0])] else []) + PesticideRows(recs[1..])
  }

  /** Which records give rows, and the shape of those rows. */
  lemma PesticideRowsKept(recs: seq<PesticideRecord>)
    ensures var r := PesticideRows(recs);
      && |r| <= |recs|
      && (forall i :: 0 <= i < |r| ==> OnlyColumns(r[i], PesticideColumns) && r[i].pesticideUsage.Some? && r[i].pesticideUsage.value >= 0.0)
      && (forall rec :: rec in recs && IsPesticidesTotal(rec) ==> (PesticideRow(rec) in r <==> KeepsPesticide(rec)))
      && (forall row :: row in r ==> exists rec :: rec in recs && KeepsPesticide(rec) && row == PesticideRow(rec))
  {
    var kept := Filter(KeepsPesticide, recs);
    var r := PesticideRows(recs);
    KeptImages(PesticideRow, KeepsPesticide, recs);
    forall i | 0 <= i < |r| ensures r[i] == PesticideRow(kept[i]) && KeepsPesticide(kept[i]) {}
  }

  /**
   * load_and_process_pesticides: keeps the 'Pesticides (total)' rows, then
   * the rows whose value is >= 0; the comparison raises (None) when the value
   * column holds text and a kept row has a value.
   */
  function LoadPesticides(src: Option<seq<PesticideRecord>>): (r: Option<Table>)
    ensures r.Some? <==> src.Some? && !ComparisonRaises(PesticideCells(src.value), PesticideCells(Filter(IsPesticidesTotal, src.value)))
    ensures r.Some? ==> WellFormed(r.value) && r.value.columns == PesticideColumns
    ensures r.Some? ==> forall rec :: rec in src.value && IsPesticidesTotal(rec) ==>
      (PesticideRow(rec) in r.value.rows <==> KeepsPesticide(rec))
    ensures r.Some? ==> forall row :: row in r.value.rows ==>
      exists rec :: rec in src.value && KeepsPesticide(rec) && row == PesticideRow(rec)
    ensures r.Some? ==> r.value.rows == Map(PesticideRow, Filter(KeepsPesticide, src.value))
  {
    match src
    case None => None
    case Some(recs) =>
      if ComparisonRaises(PesticideCells(recs), PesticideCells(Filter(IsPesticidesTotal, recs))) then None
      else
        PesticideRowsKept(recs);
        Some(Table(PesticideColumns, PesticideRows(recs)))
  }

  function YieldCells(recs: seq<YieldRecord>): (r: seq<Cell>)
    ensures |r| == |recs| && forall i :: 0 <= i < |recs| ==> r[i] == recs[i].value
  {
    Map(YieldCell, recs)
  }

  function YieldCell(rec: YieldRecord): Cell
  {
    rec.value
  }

  predicate IsYieldElement(rec: YieldRecord)
  {
    rec.element == YieldElement
  }

  /** A yield record survives iff its element is 'Yield' and its value is a number > 0. */
  predicate KeepsYield(rec: YieldRecord)
  {
    IsYieldElement(rec) && rec.value.Num? && rec.value.x > 0.0
  }

  /** The yield source supplies crop_type (from 'Item') and the target crop_yield. */
  function YieldRow(rec: YieldRecord): Row
  {
    Row(rec.area, rec.year, Some(rec.item), ToNumeric(rec.value), None, None, None)
  }

  /** The rows of the kept records, in the records' order. */
  function YieldRows(recs: seq<YieldRecord>): (r: seq<Row>)
    ensures r == Map(YieldRow, Filter(KeepsYield, recs))
  {
    if recs == [] then []
    else
      MapFilterCons(YieldRow, KeepsYield, recs[0], recs[1..]);
      assert recs == [recs[0]] + recs[1..];
      (if KeepsYield(recs[0]) then [YieldRow(recs[0])] else []) + YieldRows(recs[1..])
  }

  /** Which records give rows, and the shape of those rows. */
  lemma YieldRowsKept(recs: seq<YieldRecord>)
    ensures var r := YieldRows(recs);
      && |r| <= |recs|
      && (forall i :: 0 <= i < |r| ==> OnlyColumns(r[i], YieldColumns) && r[i].cropYield.Some? && r[i].cropYield.value > 0.0 && r[i].cropType.Some?)
      && (forall rec :: rec in recs && IsYieldElement(rec) ==> (YieldRow(rec) in r <==> KeepsYield(rec)))
      && (forall row :: row in r ==> exists rec :: rec in recs && KeepsYield(rec) && row == YieldRow(rec))
  {
    var kept := Filter(KeepsYield, recs);
    var r := YieldRows(recs);
    KeptImages(YieldRow, KeepsYield, recs);
    forall i | 0 <= i < |r| ensures r[i] == YieldRow(kept[i]) && KeepsYield(kept[i]) {}
  }

  /**
   * load_and_process_yield: keeps the 'Yield' element rows (not 'Production'),
   * then the rows whose value is > 0; raises (None) like the pesticides reader.
   */
  function LoadYield(src: Option<seq<YieldRecord>>): (r: Option<Table>)
    ensures r.Some? <==> src.Some? && !ComparisonRaises(YieldCells(src.value), YieldCells(Filter(IsYieldElement, src.value)))
    ensures r.Some? ==> WellFormed(r.value) && r.value.columns == YieldColumns
    ensures r.Some? ==> forall i :: 0 <= i < |r.value.rows| ==> r.value.rows[i].cropYield.Some? && r.value.rows[i].cropYield.value > 0.0
    ensures r.Some? ==> forall rec :: rec in src.value && IsYieldElement(rec) ==>
      (YieldRow(rec) in r.value.rows <==> KeepsYield(rec))
    ensures r.Some? ==> forall row :: row in r.value.rows ==>
      exists rec :: rec in src.value && KeepsYield(rec) && row == YieldRow(rec)
    ensures r.Some? ==> r.value.rows == Map(YieldRow, Filter(KeepsYield, src.value))
  {
    match src
    case None => None
    case Some(recs) =>
      if ComparisonRaises(YieldCells(recs), YieldCells(Filter(IsYieldElement, recs))) then None
      else
        var rows := YieldRows(recs);
        YieldTableWellFormed(rows);
        YieldRowsKept(recs);
        Some(Table(YieldColumns, rows))
  }

  lemma YieldTableWellFormed(rows: seq<Row>)
    requires forall i :: 0 <= i < |rows| ==> OnlyColumns(rows[i], YieldColumns)
    ensures WellFormed(Table(YieldColumns, rows))
  {
  }

  // ---------------------------------------------------------------------------
  // Left join on (area, year)
  // ---------------------------------------------------------------------------

  /** The right table's columns the left one lacks; a clashing name gets a suffix and is not kept. */
  function AddedColumns(left: seq<Column>, right: seq<Column>): (r: seq<Column>)
    ensures forall c :: c in r <==> c in right && c !in left
    ensures IsSubsequence(r, right)
  {
    FilterIsSubsequence((c: Column) => c !in left, right);
    Filter((c: Column) => c !in left, right)
  }

  /** l widened by the added columns of a matching right row r. */
  function Overlay(l: Row, r: Row, added: seq<Column>): Row
  {
    Row(l.area, l.year,
        if CropType in added then r.cropType else l.cropType,
        if CropYield in added then r.cropYield else l.cropYield,
        if Rainfall in added then r.rainfall else l.rainfall,
        if Temperature in added then r.temperature else l.temperature,
        if PesticideUsage in added then r.pesticideUsage else l.pesticideUsage)
  }

  /** The right rows with l's key, in the right table's order. */
  function Matches(l: Row, rs: seq<Row>): (m: seq<Row>)
    ensures forall r :: r in m <==> r in rs && SameKey(l, r)
  {
    Filter((r: Row) => SameKey(l, r), rs)
  }

  /** The rows a left join emits for one left row: one per match, or l itself when nothing matches. */
  function JoinRow(l: Row, rs: seq<Row>, added: seq<Column>): seq<Row>
  {
    var m := Matches(l, rs);
    if m == [] then [l] else seq(|m|, i requires 0 <= i < |m| => Overlay(l, m[i], added))
  }

  function JoinRows(ls: seq<Row>, rs: seq<Row>, added: seq<Column>): seq<Row>
  {
    if ls == [] then [] else JoinRow(ls[0], rs, added) + JoinRows(ls[1..], rs, added)
  }

  /** merged_df.merge(df, on=['area', 'year'], how='left', suffixes=('', '_name')). */
  function LeftJoin(left: Table, right: Table): Table
  {
    var added := AddedColumns(left.columns, right.columns);
    Table(left.columns + added, JoinRows(left.rows, right.rows, added))
  }

  /** No two rows share an (area, year) key. */
  predicate UniqueKeys(rs: seq<Row>)
  {
    forall i, j :: 0 <= i < j < |rs| ==> !SameKey(rs[i], rs[j])
  }

  /** Every row of ls reappears, widened, somewhere in out. */
  predicate Covers(out: seq<Row>, ls: seq<Row>, cols: seq<Column>)
  {
    forall l :: l in ls ==> exists o :: o in out && Extends(o, l, cols)
  }

  /** Every row of out is a widened row of ls. */
  predicate Widens(out: seq<Row>, ls: seq<Row>, cols: seq<Column>)
  {
    forall o :: o in out ==> exists l :: l in ls && Extends(o, l, cols)
  }

  /** out is ls row by row, each row widened. */
  predicate Pointwise(out: seq<Row>, ls: seq<Row>, cols: seq<Column>)
  {
    |out| == |ls| && forall i :: 0 <= i < |ls| ==> Extends(out[i], ls[i], cols)
  }

  lemma OverlayExtends(l: Row, r: Row, cols: seq<Column>, added: seq<Column>)
    requires forall c :: c in added ==> c !in cols
    ensures Extends(Overlay(l, r, added), l, cols)
  {
  }

  lemma UniqueKeysAtMostOneMatch(l: Row, rs: seq<Row>)
    requires UniqueKeys(rs)
    ensures |Matches(l, rs)| <= 1
  {
    var p := (r: Row) => SameKey(l, r);
    forall i, j | 0 <= i < j < |rs| && p(rs[i]) ensures !p(rs[j]) {
      assert !SameKey(rs[i], rs[j]);
    }
    FilterAtMostOne(p, rs);
  }

  /** Each left row produces max(1, number of matches) rows, each widening that left row. */
  lemma JoinRowShape(l: Row, rs: seq<Row>, cols: seq<Column>, added: seq<Column>)
    requires forall c :: c in added ==> c !in cols
    ensures var j := JoinRow(l, rs, added);
      && |j| == (if Matches(l, rs) == [] then 1 else |Matches(l, rs)|)
      && forall i :: 0 <= i < |j| ==> Extends(j[i], l, cols)
  {
    var m := Matches(l, rs);
    forall i | 0 <= i < |m| ensures Extends(Overlay(l, m[i], added), l, cols) {
      OverlayExtends(l, m[i], cols, added);
    }
  }

  lemma CoversAppend(h: seq<Row>, t: seq<Row>, l: Row, ls: seq<Row>, cols: seq<Column>)
    requires |h| > 0 && Extends(h[0], l, cols) && Covers(t, ls, cols)
    ensures Covers(h + t, [l] + ls, cols)
  {
    forall x | x in [l] + ls ensures exists o :: o in h + t && Extends(o, x, cols) {
      if x == l {
        assert h[0] in h + t;
      } else {
        var o :| o in t && Extends(o, x, cols);
        assert o in h + t;
      }
    }
  }

  lemma WidensAppend(h: seq<Row>, t: seq<Row>, l: Row, ls: seq<Row>, cols: seq<Column>)
    requires forall i :: 0 <= i < |h| ==> Extends(h[i], l, cols)
    requires Widens(t, ls, cols)
    ensures Widens(h + t, [l] + ls, cols)
  {
    forall o | o in h + t ensures exists x :: x in [l] + ls && Extends(o, x, cols) {
      if o in h {
        assert l in [l] + ls;
      } else {
        var x :| x in ls && Extends(o, x, cols);
        assert x in [l] + ls;
      }
    }
  }

  /**
   * A left join keeps every left row at least once, emits only widened left
   * rows, and never shrinks the table.
   */
  lemma {:induction false} JoinRowsKeepLeft(ls: seq<Row>, rs: seq<Row>, cols: seq<Column>, added: seq<Column>)
    requires forall c :: c in added ==> c !in cols
    ensures |JoinRows(ls, rs, added)| >= |ls|
    ensures Covers(JoinRows(ls, rs, added), ls, cols)
    ensures Widens(JoinRows(ls, rs, added), ls, cols)
  {
    if ls != [] {
      var head := JoinRow(ls[0], rs, added);
      var tail := JoinRows(ls[1..], rs, added);
      JoinRowShape(ls[0], rs, cols, added);
      JoinRowsKeepLeft(ls[1..], rs, cols, added);
      assert ls == [ls[0]] + ls[1..];
      CoversAppend(head, tail, ls[0], ls[1..], cols);
      WidensAppend(head, tail, ls[0], ls[1..], cols);
    }
  }

  lemma PointwiseCons(h: Row, t: seq<Row>, l: Row, ls: seq<Row>, cols: seq<Column>)
    requires Extends(h, l, cols) && Pointwise(t, ls, cols)
    ensures Pointwise([h] + t, [l] + ls, cols)
  {
    forall i | 0 <= i < |ls| + 1 ensures Extends(([h] + t)[i], ([l] + ls)[i], cols) {
      if i > 0 {
        assert ([h] + t)[i] == t[i - 1] && ([l] + ls)[i] == ls[i - 1];
      }
    }
  }

  /** When the right table has unique keys the join keeps the row count and the row order. */
  lemma {:induction false} JoinRowsUniqueKeys(ls: seq<Row>, rs: seq<Row>, cols: seq<Column>, added: seq<Column>)
    requires forall c :: c in added ==> c !in cols
    requires UniqueKeys(rs)
    ensures Pointwise(JoinRows(ls, rs, added), ls, cols)
  {
    if ls != [] {
      UniqueKeysAtMostOneMatch(ls[0], rs);
      JoinRowShape(ls[0], rs, cols, added);
      JoinRowsUniqueKeys(ls[1..], rs, cols, added);
      var head := JoinRow(ls[0], rs, added);
      assert head == [head[0]];
      assert ls == [ls[0]] + ls[1..];
      PointwiseCons(head[0], JoinRows(ls[1..], rs, added), ls[0], ls[1..], cols);
    }
  }

  lemma JoinRowOnlyColumns(l: Row, rs: seq<Row>, lcols: seq<Column>, rcols: seq<Column>, added: seq<Column>)
    requires OnlyColumns(l, lcols)
    requires RowsWithin(rs, rcols)
    requires forall c :: c in added <==> c in rcols && c !in lcols
    ensures RowsWithin(JoinRow(l, rs, added), lcols + added)
  {
    var m := Matches(l, rs);
    forall i | 0 <= i < |m| ensures OnlyColumns(Overlay(l, m[i], added), lcols + added) {
      assert m[i] in rs;
      var k :| 0 <= k < |rs| && rs[k] == m[i];
      assert OnlyColumns(rs[k], rcols);
    }
  }

  lemma {:induction false} JoinRowsOnlyColumns(ls: seq<Row>, rs: seq<Row>, lcols: seq<Column>, rcols: seq<Column>, added: seq<Column>)
    requires RowsWithin(ls, lcols) && RowsWithin(rs, rcols)
    requires forall c :: c in added <==> c in rcols && c !in lcols
    ensures RowsWithin(JoinRows(ls, rs, added), lcols + added)
  {
    if ls != [] {
      assert RowsWithin(ls[1..], lcols) by {
        forall i | 0 <= i < |ls| - 1 ensures OnlyColumns(ls[1..][i], lcols) {
          assert ls[1..][i] == ls[i + 1];
        }
      }
      JoinRowsOnlyColumns(ls[1..], rs, lcols, rcols, added);
      JoinRowOnlyColumns(ls[0], rs, lcols, rcols, added);
      RowsWithinAppend(JoinRow(ls[0], rs, added), JoinRows(ls[1..], rs, added), lcols + added);
    }
  }

  /** A left join of two well-formed tables is well formed and lists the left columns first. */
  lemma LeftJoinWellFormed(left: Table, right: Table)
    requires WellFormed(left) && WellFormed(right)
    ensures WellFormed(LeftJoin(left, right))
  {
    var added := AddedColumns(left.columns, right.columns);
    SubsequenceOfDistinct(added, right.columns);
    AppendDistinct(left.columns, added);
    JoinRowsOnlyColumns(left.rows, right.rows, left.columns, right.columns, added);
  }

  // ---------------------------------------------------------------------------
  // merge_datasets
  // ---------------------------------------------------------------------------

  const YieldKey: string := "yield"

  /** One entry of the datasets dictionary, in insertion order; None stands for a Python None. */
  datatype Dataset = Dataset(name: string, frame: Option<Table>)

  function IndexOfName(ds: seq<Dataset>, name: string): (k: nat)
    ensures k <= |ds|
    ensures k < |ds| ==> ds[k].name == name
    ensures forall i :: 0 <= i < k ==> ds[i].name != name
  {
    if ds == [] then 0 else if ds[0].name == name then 0 else 1 + IndexOfName(ds[1..], name)
  }

  /**
   * The table the fold starts from: the yield table when present and not
   * empty, otherwise the first dataset. None when .empty or .copy() would be
   * called on a None entry, which raises and makes merge_datasets return None.
   */
  function BaseTable(ds: seq<Dataset>): Option<Table>
    requires |ds| > 0
  {
    var k := IndexOfName(ds, YieldKey);
    if k < |ds| && ds[k].frame.None? then None
    else if k < |ds| && |ds[k].frame.value.rows| > 0 then ds[k].frame
    else ds[0].frame
  }

  /** The datasets the loop joins in: not yield, not None, not empty. */
  predicate Joined(d: Dataset)
  {
    d.name != YieldKey && d.frame.Some? && |d.frame.value.rows| > 0
  }

  function JoinAll(acc: Table, ds: seq<Dataset>): Table
    decreases |ds|
  {
    if ds == [] then acc
    else JoinAll(if Joined(ds[0]) then LeftJoin(acc, ds[0].frame.value) else acc, ds[1..])
  }

  /** What merge_datasets returns. */
  function Merge(ds: seq<Dataset>): Option<Table>
  {
    if |ds| == 0 then None
    else match BaseTable(ds)
      case None => None
      case Some(base) => Some(JoinAll(base, ds))
  }

  /** merge_datasets, the fold that reassigns merged_df once per dataset. */
  method MergeDatasets(datasets: seq<Dataset>) returns (merged: Option<Table>)
    ensures merged == Merge(datasets)
  {
    if |datasets| == 0 {
      return None;
    }
    var k := IndexOfName(datasets, YieldKey);
    var acc: Table;
    if k < |datasets| && datasets[k].frame.None? {
      return None;
    } else if k < |datasets| && |datasets[k].frame.value.rows| > 0 {
      acc := datasets[k].frame.value;
    } else if datasets[0].frame.None? {
      return None;
    } else {
      acc := datasets[0].frame.value;
    }
    ghost var base := acc;
    var i := 0;
    while i < |datasets|
      invariant 0 <= i <= |datasets|
      invariant JoinAll(acc, datasets[i..]) == JoinAll(base, datasets)
    {
      assert datasets[i..][1..] == datasets[i + 1..];
      var d := datasets[i];
      if d.name == YieldKey {
        i := i + 1;
        continue;
      }
      if d.frame.None? || |d.frame.value.rows| == 0 {
        i := i + 1;
        continue;
      }
      acc := LeftJoin(acc, d.frame.value);
      i := i + 1;
    }
    merged := Some(acc);
  }

  /** Every dataset the fold joins in is well formed. */
  predicate JoinedWellFormed(ds: seq<Dataset>)
  {
    forall k :: 0 <= k < |ds| && Joined(ds[k]) ==> WellFormed(ds[k].frame.value)
  }

  /** Every dataset the fold joins in has unique (area, year) keys. */
  predicate JoinedUniqueKeys(ds: seq<Dataset>)
  {
    forall k :: 0 <= k < |ds| && Joined(ds[k]) ==> UniqueKeys(ds[k].frame.value.rows)
  }

  lemma ExtendsTransitive(o: Row, m: Row, l: Row, small: seq<Column>, big: seq<Column>)
    requires Extends(o, m, big) && Extends(m, l, small)
    requires forall c :: c in small ==> c in big
    ensures Extends(o, l, small)
  {
    forall c | c in small ensures AgreesOn(o, l, c) {
      assert AgreesOn(o, m, c) && AgreesOn(m, l, c);
    }
  }

  lemma CoversTransitive(out: seq<Row>, mid: seq<Row>, ls: seq<Row>, small: seq<Column>, big: seq<Column>)
    requires Covers(out, mid, big) && Covers(mid, ls, small)
    requires forall c :: c in small ==> c in big
    ensures Covers(out, ls, small)
  {
    forall l | l in ls ensures exists o :: o in out && Extends(o, l, small) {
      var m :| m in mid && Extends(m, l, small);
      var o :| o in out && Extends(o, m, big);
      ExtendsTransitive(o, m, l, small, big);
    }
  }

  lemma WidensTransitive(out: seq<Row>, mid: seq<Row>, ls: seq<Row>, small: seq<Column>, big: seq<Column>)
    requires Widens(out, mid, big) && Widens(mid, ls, small)
    requires forall c :: c in small ==> c in big
    ensures Widens(out, ls, small)
  {
    forall o | o in out ensures exists l :: l in ls && Extends(o, l, small) {
      var m :| m in mid && Extends(o, m, big);
      var l :| l in ls && Extends(m, l, small);
      ExtendsTransitive(o, m, l, small, big);
    }
  }

  lemma PointwiseTransitive(out: seq<Row>, mid: seq<Row>, ls: seq<Row>, small: seq<Column>, big: seq<Column>)
    requires Pointwise(out, mid, big) && Pointwise(mid, ls, small)
    requires forall c :: c in small ==> c in big
    ensures Pointwise(out, ls, small)
  {
    forall i | 0 <= i < |ls| ensures Extends(out[i], ls[i], small) {
      ExtendsTransitive(out[i], mid[i], ls[i], small, big);
    }
  }

  lemma CoversWidensRefl(ls: seq<Row>, cols: seq<Column>)
    ensures Covers(ls, ls, cols) && Widens(ls, ls, cols) && Pointwise(ls, ls, cols)
  {
    assert forall l :: Extends(l, l, cols);
  }

  lemma JoinedTail(ds: seq<Dataset>)
    requires ds != []
    ensures JoinedWellFormed(ds) ==> JoinedWellFormed(ds[1..])
    ensures JoinedUniqueKeys(ds) ==> JoinedUniqueKeys(ds[1..])
  {
    forall k | 0 <= k < |ds| - 1 ensures ds[1..][k] == ds[k + 1] {
    }
  }

  /** The fold keeps the accumulated columns first. */
  lemma {:induction false} JoinAllColumnsPrefix(acc: Table, ds: seq<Dataset>)
    ensures |JoinAll(acc, ds).columns| >= |acc.columns| && JoinAll(acc, ds).columns[..|acc.columns|] == acc.columns
    decreases |ds|
  {
    if ds != [] {
      var mid := if Joined(ds[0]) then LeftJoin(acc, ds[0].frame.value) else acc;
      assert mid.columns[..|acc.columns|] == acc.columns;
      JoinAllColumnsPrefix(mid, ds[1..]);
      var out := JoinAll(mid, ds[1..]);
      assert out.columns[..|acc.columns|] == out.columns[..|mid.columns|][..|acc.columns|];
    }
  }

  /**
   * The fold stays well formed and keeps every accumulated row at least once
   * (widened), emitting nothing that is not a widened accumulated row.
   */
  lemma {:induction false} JoinAllKeepsRows(acc: Table, ds: seq<Dataset>)
    requires WellFormed(acc) && JoinedWellFormed(ds)
    ensures var out := JoinAll(acc, ds);
      && WellFormed(out)
      && |out.rows| >= |acc.rows|
      && Covers(out.rows, acc.rows, acc.columns)
      && Widens(out.rows, acc.rows, acc.columns)
    decreases |ds|
  {
    if ds == [] {
      CoversWidensRefl(acc.rows, acc.columns);
    } else {
      JoinedTail(ds);
      if Joined(ds[0]) {
        var right := ds[0].frame.value;
        var mid := LeftJoin(acc, right);
        LeftJoinWellFormed(acc, right);
        JoinRowsKeepLeft(acc.rows, right.rows, acc.columns, mid.columns[|acc.columns|..]);
        JoinAllKeepsRows(mid, ds[1..]);
        var out := JoinAll(mid, ds[1..]);
        CoversTransitive(out.rows, mid.rows, acc.rows, acc.columns, mid.columns);
        WidensTransitive(out.rows, mid.rows, acc.rows, acc.columns, mid.columns);
      } else {
        JoinAllKeepsRows(acc, ds[1..]);
      }
    }
  }

  /** With unique keys on every joined dataset the fold keeps the row count and row order. */
  lemma {:induction false} JoinAllUniqueKeys(acc: Table, ds: seq<Dataset>)
    requires JoinedUniqueKeys(ds)
    ensures Pointwise(JoinAll(acc, ds).rows, acc.rows, acc.columns)
    decreases |ds|
  {
    if ds == [] {
      CoversWidensRefl(acc.rows, acc.columns);
    } else {
      JoinedTail(ds);
      if Joined(ds[0]) {
        var right := ds[0].frame.value;
        var mid := LeftJoin(acc, right);
        JoinRowsUniqueKeys(acc.rows, right.rows, acc.columns, mid.columns[|acc.columns|..]);
        JoinAllUniqueKeys(mid, ds[1..]);
        PointwiseTransitive(JoinAll(mid, ds[1..]).rows, mid.rows, acc.rows, acc.columns, mid.columns);
      } else {
        JoinAllUniqueKeys(acc, ds[1..]);
      }
    }
  }

  /** The columns of the fold come from the start table or from a dataset it joined in. */
  lemma {:induction false} JoinAllColumns(acc: Table, ds: seq<Dataset>)
    ensures forall c :: c in JoinAll(acc, ds).columns ==>
      c in acc.columns || exists k :: 0 <= k < |ds| && Joined(ds[k]) && c in ds[k].frame.value.columns
    decreases |ds|
  {
    if ds != [] {
      var mid := if Joined(ds[0]) then LeftJoin(acc, ds[0].frame.value) else acc;
      JoinAllColumns(mid, ds[1..]);
      forall c | c in JoinAll(acc, ds).columns
        ensures c in acc.columns || exists k :: 0 <= k < |ds| && Joined(ds[k]) && c in ds[k].frame.value.columns
      {
        if c !in mid.columns {
          var k :| 0 <= k < |ds[1..]| && Joined(ds[1..][k]) && c in ds[1..][k].frame.value.columns;
          assert ds[1..][k] == ds[k + 1];
        } else if c !in acc.columns {
          assert Joined(ds[0]);
        }
      }
    }
  }

  /**
   * With a non-empty yield table (the only entry named 'yield', as dictionary
   * keys are unique) the merge starts from it: the yield columns come first,
   * every yield row is kept at least once and every merged row is a widened
   * yield row; with unique keys in every joined dataset the merge has exactly
   * the yield rows, in order.
   */
  lemma MergeStartsFromYield(ds: seq<Dataset>, k: nat)
    requires k < |ds| && ds[k].name == YieldKey && ds[k].frame.Some? && |ds[k].frame.value.rows| > 0
    requires forall i :: 0 <= i < |ds| && i != k ==> ds[i].name != YieldKey
    requires WellFormed(ds[k].frame.value) && JoinedWellFormed(ds)
    ensures Merge(ds).Some?
    ensures var y := ds[k].frame.value; var m := Merge(ds).value;
      && WellFormed(m)
      && |m.columns| >= |y.columns| && m.columns[..|y.columns|] == y.columns
      && |m.rows| >= |y.rows|
      && Covers(m.rows, y.rows, y.columns)
      && Widens(m.rows, y.rows, y.columns)
      && (JoinedUniqueKeys(ds) ==> Pointwise(m.rows, y.rows, y.columns))
  {
    assert IndexOfName(ds, YieldKey) == k;
    JoinAllColumnsPrefix(ds[k].frame.value, ds);
    JoinAllKeepsRows(ds[k].frame.value, ds);
    if JoinedUniqueKeys(ds) {
      JoinAllUniqueKeys(ds[k].frame.value, ds);
    }
  }

  /**
   * Without a non-empty yield table merge_datasets does not stop: it starts
   * from the first dataset, keeps its columns first, and no crop_yield column
   * appears unless the first dataset or a joined one brings it.
   */
  lemma MergeWithoutYield(ds: seq<Dataset>)
    requires |ds| > 0 && ds[0].frame.Some?
    requires forall i :: 0 <= i < |ds| && ds[i].name == YieldKey ==> ds[i].frame.Some? && ds[i].frame.value.rows == []
    ensures Merge(ds) == Some(JoinAll(ds[0].frame.value, ds))
    ensures var m := Merge(ds).value; var f := ds[0].frame.value;
      && |m.columns| >= |f.columns| && m.columns[..|f.columns|] == f.columns
      && (CropYield in m.columns ==>
            CropYield in f.columns || exists k :: 0 <= k < |ds| && Joined(ds[k]) && CropYield in ds[k].frame.value.columns)
  {
    JoinAllColumns(ds[0].frame.value, ds);
    JoinAllColumnsPrefix(ds[0].frame.value, ds);
  }

  /**
   * The base dataset is not skipped by the loop when yield is absent, so it is
   * joined with itself: two rainfall rows sharing (area, year) become four.
   */
  lemma SelfJoinWithoutYield()
    ensures var a := Row("X", 2020, None, None, Some(100.0), None, None);
      var b := Row("X", 2020, None, None, Some(200.0), None, None);
      var t := Table(RainfallColumns, [a, b]);
      Merge([Dataset("rainfall", Some(t))]) == Some(Table(RainfallColumns, [a, a, b, b]))
  {
    var a := Row("X", 2020, None, None, Some(100.0), None, None);
    var b := Row("X", 2020, None, None, Some(200.0), None, None);
    var t := Table(RainfallColumns, [a, b]);
    var added := AddedColumns(t.columns, t.columns);
    assert added == [] by {
      FilterNone((c: Column) => c !in t.columns, t.columns);
    }
    assert Matches(a, [a, b]) == [a, b] by {
      FilterAllKept((r: Row) => SameKey(a, r), [a, b]);
    }
    assert Matches(b, [a, b]) == [a, b] by {
      FilterAllKept((r: Row) => SameKey(b, r), [a, b]);
    }
    assert JoinRow(a, [a, b], []) == [a, a];
    assert JoinRow(b, [a, b], []) == [b, b];
    assert [a, b][1..] == [b] && [b][1..] == [];
    assert JoinRows([b], [a, b], []) == [b, b] + JoinRows([], [a, b], []);
    assert JoinRows([a, b], [a, b], []) == [a, a] + ([b, b] + []);
    var ds := [Dataset("rainfall", Some(t))];
    assert |ds[0].name| != |YieldKey|;
    assert IndexOfName(ds, YieldKey) == 1;
    assert BaseTable(ds) == Some(t);
    assert Joined(ds[0]);
    assert ds[1..] == [];
    assert LeftJoin(t, t) == Table(RainfallColumns, [a, a, b, b]);
    assert JoinAll(t, ds) == JoinAll(LeftJoin(t, t), []);
  }

  // ---------------------------------------------------------------------------
  // create_final_ml_table
  // ---------------------------------------------------------------------------

  const PriorityColumns: seq<Column> := [Area, Year, CropType, CropYield, Rainfall, Temperature, PesticideUsage]

  /**
   * The finaliser on a non-empty table: the priority columns the table has, in
   * priority order; if crop_yield is among them, only rows with a crop_yield;
   * then no duplicate rows, each row kept at its first occurrence and in the
   * table's order. (pd.to_numeric on the
   * measure columns changes nothing here: they already hold numbers or None.)
   */
  function Finalize(m: Table): (r: Table)
    ensures forall c :: c in r.columns <==> c in m.columns
    ensures IsSubsequence(r.columns, PriorityColumns) && NoDuplicates(r.columns)
    ensures CropYield in r.columns ==> forall row :: row in r.rows ==> row.cropYield.Some?
    ensures NoDuplicates(r.rows)
    ensures forall row :: row in r.rows ==> row in m.rows
    ensures forall row :: row in m.rows && (CropYield in m.columns ==> row.cropYield.Some?) ==> row in r.rows
    ensures |r.rows| <= |m.rows|
    ensures IsSubsequence(r.rows, m.rows) && FirstOccurrenceOrder(r.rows, m.rows)
  {
    var available := Filter((c: Column) => c in m.columns, PriorityColumns);
    AllInPriority();
    FilterIsSubsequence((c: Column) => c in m.columns, PriorityColumns);
    SubsequenceOfDistinct(available, PriorityColumns);
    Table(available, FinalRows(m.rows, CropYield in available))
  }

  predicate HasCropYield(row: Row)
  {
    row.cropYield.Some?
  }

  /**
   * The finaliser's rows: the ones with a crop_yield when keepYield holds, each
   * row once, at its first occurrence and in the table's order.
   */
  function FinalRows(rows: seq<Row>, keepYield: bool): (r: seq<Row>)
    ensures NoDuplicates(r)
    ensures forall row :: row in r <==> row in rows && (keepYield ==> row.cropYield.Some?)
    ensures |r| <= |rows|
    ensures IsSubsequence(r, rows) && FirstOccurrenceOrder(r, rows)
  {
    var f := if keepYield then Filter(HasCropYield, rows) else rows;
    DropDuplicatesIsSubsequence(f);
    if keepYield then
      FilterIsSubsequence(HasCropYield, rows);
      SubsequenceTransitive(DropDuplicates(f), f, rows);
      FilterKeepsFirstOccurrenceOrder(HasCropYield, rows, DropDuplicates(f));
      DropDuplicates(f)
    else
      DropDuplicates(f)
  }

  lemma AllInPriority()
    ensures forall c: Column :: c in PriorityColumns
  {
    forall c: Column ensures c in PriorityColumns {
      match c
      case Area => assert PriorityColumns[0] == c;
      case Year => assert PriorityColumns[1] == c;
      case CropType => assert PriorityColumns[2] == c;
      case CropYield => assert PriorityColumns[3] == c;
      case Rainfall => assert PriorityColumns[4] == c;
      case Temperature => assert PriorityColumns[5] == c;
      case PesticideUsage => assert PriorityColumns[6] == c;
    }
  }

  /** create_final_ml_table: None and empty tables come back unchanged. */
  function CreateFinalMlTable(merged: Option<Table>): Option<Table>
  {
    match merged
    case None => None
    case Some(m) => if |m.rows| == 0 then merged else Some(Finalize(m))
  }

  /** Finalising twice is the same as finalising once. */
  lemma FinalizeIdempotent(m: Table)
    ensures Finalize(Finalize(m)) == Finalize(m)
  {
    var f := Finalize(m);
    FilterSamePredicate((c: Column) => c in f.columns, (c: Column) => c in m.columns, PriorityColumns);
    if CropYield in f.columns {
      FilterAllKept(HasCropYield, f.rows);
    }
    DropDuplicatesOfDistinct(f.rows);
  }

  /** The finaliser keeps the table well formed. */
  lemma FinalizeWellFormed(m: Table)
    requires WellFormed(m)
    ensures WellFormed(Finalize(m))
  {
    var f := Finalize(m);
    forall i | 0 <= i < |f.rows| ensures OnlyColumns(f.rows[i], f.columns) {
      assert f.rows[i] in m.rows;
      var k :| 0 <= k < |m.rows| && m.rows[k] == f.rows[i];
      assert OnlyColumns(m.rows[k], m.columns);
    }
  }

  // ---------------------------------------------------------------------------
  // process_data
  // ---------------------------------------------------------------------------

  /** The datasets dictionary with the None readers removed, in insertion order. */
  function Available(ds: seq<Dataset>): (r: seq<Dataset>)
    ensures |r| <= |ds|
    ensures forall d :: d in r <==> d in ds && d.frame.Some?
  {
    Filter((d: Dataset) => d.frame.Some?, ds)
  }

  /** The four readers' results, keyed as process_data keys them. */
  function ReadAll(
    rainfall: Option<seq<RainfallRecord>>, temperature: Option<seq<TemperatureRecord>>,
    pesticides: Option<seq<PesticideRecord>>, yieldSrc: Option<seq<YieldRecord>>): seq<Dataset>
  {
    Keyed(LoadRainfall(rainfall), LoadTemperature(temperature), LoadPesticides(pesticides), LoadYield(yieldSrc))
  }

  function Keyed(rainfall: Option<Table>, temperature: Option<Table>, pesticides: Option<Table>, yieldTable: Option<Table>): seq<Dataset>
  {
    [ Dataset("rainfall", rainfall), Dataset("temperature", temperature),
      Dataset("pesticides", pesticides), Dataset(YieldKey, yieldTable) ]
  }

  /**
   * process_data: None when the data directory or a required file is missing
   * (envOk false), when no reader succeeded, when the merge fails or is empty,
   * or when the final table is empty.
   */
  function ProcessData(
    envOk: bool,
    rainfall: Option<seq<RainfallRecord>>, temperature: Option<seq<TemperatureRecord>>,
    pesticides: Option<seq<PesticideRecord>>, yieldSrc: Option<seq<YieldRecord>>): Option<Table>
  {
    if !envOk then None
    else ProcessDatasets(ReadAll(rainfall, temperature, pesticides, yieldSrc))
  }

  /** The steps of process_data after the readers: keep the available datasets, merge, finalise. */
  function ProcessDatasets(all: seq<Dataset>): Option<Table>
  {
      var datasets := Available(all);
      if |datasets| == 0 then None
      else match Merge(datasets)
        case None => None
        case Some(m) =>
          if |m.rows| == 0 then None
          else match CreateFinalMlTable(Some(m))
            case None => None
            case Some(f) => if |f.rows| == 0 then None else Some(f)
  }

  /** What process_data promises about the table it returns. */
  lemma ProcessDataOutcome(
    envOk: bool,
    rainfall: Option<seq<RainfallRecord>>, temperature: Option<seq<TemperatureRecord>>,
    pesticides: Option<seq<PesticideRecord>>, yieldSrc: Option<seq<YieldRecord>>)
    ensures var r := ProcessData(envOk, rainfall, temperature, pesticides, yieldSrc);
      && (!envOk ==> r.None?)
      && (rainfall.None? && temperature.None? && pesticides.None? && yieldSrc.None? ==> r.None?)
      && (r.Some? ==>
            && |r.value.rows| > 0
            && NoDuplicates(r.value.rows)
            && IsSubsequence(r.value.columns, PriorityColumns)
            && (CropYield in r.value.columns ==> forall row :: row in r.value.rows ==> row.cropYield.Some?))
  {
    var all := ReadAll(rainfall, temperature, pesticides, yieldSrc);
    if rainfall.None? && temperature.None? && pesticides.None? && yieldSrc.None? {
      assert forall d :: d in all ==> d.frame.None?;
      FilterNone((d: Dataset) => d.frame.Some?, all);
    }
  }

  /**
   * The finalised merge of datasets that include a non-empty yield table:
   * it has rows, crop_yield is one of its columns, and every row has it.
   */
  lemma FinalWithYield(ds: seq<Dataset>, k: nat)
    requires k < |ds| && ds[k].name == YieldKey && ds[k].frame.Some? && |ds[k].frame.value.rows| > 0
    requires forall i :: 0 <= i < |ds| && i != k ==> ds[i].name != YieldKey
    requires WellFormed(ds[k].frame.value) && JoinedWellFormed(ds)
    requires CropYield in ds[k].frame.value.columns
    requires forall i :: 0 <= i < |ds[k].frame.value.rows| ==> ds[k].frame.value.rows[i].cropYield.Some?
    ensures var r := CreateFinalMlTable(Merge(ds));
      && r.Some? && |r.value.rows| > 0
      && CropYield in r.value.columns
      && (forall row :: row in r.value.rows ==> row.cropYield.Some?)
      && WellFormed(r.value)
  {
    MergeStartsFromYield(ds, k);
    FinalizeFromYield(Merge(ds).value, ds[k].frame.value);
  }

  lemma FinalizeFromYield(m: Table, y: Table)
    requires WellFormed(m) && |y.rows| > 0 && CropYield in y.columns
    requires forall i :: 0 <= i < |y.rows| ==> y.rows[i].cropYield.Some?
    requires |m.columns| >= |y.columns| && m.columns[..|y.columns|] == y.columns
    requires Covers(m.rows, y.rows, y.columns)
    ensures var r := CreateFinalMlTable(Some(m));
      && r.Some? && |r.value.rows| > 0
      && CropYield in r.value.columns
      && (forall row :: row in r.value.rows ==> row.cropYield.Some?)
      && WellFormed(r.value)
  {
    assert CropYield in m.columns by {
      var j :| 0 <= j < |y.columns| && y.columns[j] == CropYield;
      assert m.columns[j] == CropYield;
    }
    var l := y.rows[0];
    assert l in y.rows;
    var o :| o in m.rows && Extends(o, l, y.columns);
    assert AgreesOn(o, l, CropYield);
    FinalizeKeepsTarget(m, o);
    FinalizeWellFormed(m);
  }

  lemma FinalizeKeepsTarget(m: Table, o: Row)
    requires o in m.rows && o.cropYield.Some? && CropYield in m.columns
    ensures |Finalize(m).rows| > 0 && CropYield in Finalize(m).columns
  {
    assert o in Finalize(m).rows;
  }

  /** The keyed datasets: well formed when present, and only the last is named 'yield'. */
  lemma KeyedFacts(rainfall: Option<Table>, temperature: Option<Table>, pesticides: Option<Table>, yieldTable: Option<Table>)
    requires forall t :: t in [rainfall, temperature, pesticides, yieldTable] && t.Some? ==> WellFormed(t.value)
    ensures var all := Keyed(rainfall, temperature, pesticides, yieldTable);
      && |all| == 4 && all[3].name == YieldKey
      && (forall i :: 0 <= i < 3 ==> all[i].name != YieldKey)
      && NoDuplicates(all)
      && (forall d :: d in all && d.frame.Some? ==> WellFormed(d.frame.value))
  {
    var all := Keyed(rainfall, temperature, pesticides, yieldTable);
    assert |all[0].name| == 8 && |all[1].name| == 11 && |all[2].name| == 10 && |all[3].name| == 5;
    assert forall d :: d in all ==> d.frame in [rainfall, temperature, pesticides, yieldTable];
  }

  /**
   * When the yield reader produces at least one row, process_data returns a
   * table: crop_yield is one of its columns, every row has it, and it has at
   * least one row.
   */
  lemma ProcessDataWithYield(
    rainfall: Option<seq<RainfallRecord>>, temperature: Option<seq<TemperatureRecord>>,
    pesticides: Option<seq<PesticideRecord>>, yieldSrc: Option<seq<YieldRecord>>)
    requires LoadYield(yieldSrc).Some? && |LoadYield(yieldSrc).value.rows| > 0
    ensures var r := ProcessData(true, rainfall, temperature, pesticides, yieldSrc);
      && r.Some?
      && CropYield in r.value.columns
      && (forall row :: row in r.value.rows ==> row.cropYield.Some?)
      && WellFormed(r.value)
  {
    var r, t, p, y := LoadRainfall(rainfall), LoadTemperature(temperature), LoadPesticides(pesticides), LoadYield(yieldSrc);
    KeyedFacts(r, t, p, y);
    KeyedWithYield(Keyed(r, t, p, y));
  }

  /** The datasets step of ProcessDataWithYield: a yield table with rows gives a final table with the target. */
  lemma KeyedWithYield(all: seq<Dataset>)
    requires |all| == 4 && all[3].name == YieldKey && all[3].frame.Some?
    requires forall i :: 0 <= i < 3 ==> all[i].name != YieldKey
    requires NoDuplicates(all)
    requires forall d :: d in all && d.frame.Some? ==> WellFormed(d.frame.value)
    requires |all[3].frame.value.rows| > 0 && all[3].frame.value.columns == YieldColumns
    requires forall i :: 0 <= i < |all[3].frame.value.rows| ==> all[3].frame.value.rows[i].cropYield.Some?
    ensures var r := ProcessDatasets(all);
      && r.Some?
      && CropYield in r.value.columns
      && (forall row :: row in r.value.rows ==> row.cropYield.Some?)
      && WellFormed(r.value)
  {
    var k := AvailableYield(all);
    var ds := Available(all);
    assert CropYield in ds[k].frame.value.columns by {
      assert YieldColumns[3] == CropYield;
    }
    FinalWithYield(ds, k);
  }

  /** The yield dataset, when present, is the only one named 'yield' among the available ones. */
  lemma AvailableYield(all: seq<Dataset>) returns (k: nat)
    requires |all| == 4 && all[3].name == YieldKey && all[3].frame.Some?
    requires forall i :: 0 <= i < 3 ==> all[i].name != YieldKey
    requires NoDuplicates(all)
    requires forall d :: d in all && d.frame.Some? ==> WellFormed(d.frame.value)
    ensures k < |Available(all)| && Available(all)[k] == all[3]
    ensures forall i :: 0 <= i < |Available(all)| && i != k ==> Available(all)[i].name != YieldKey
    ensures JoinedWellFormed(Available(all))
  {
    var ds := Available(all);
    FilterIsSubsequence((d: Dataset) => d.frame.Some?, all);
    SubsequenceOfDistinct(ds, all);
    assert all[3] in ds;
    k :| 0 <= k < |ds| && ds[k] == all[3];
    forall i | 0 <= i < |ds| && i != k ensures ds[i].name != YieldKey {
      assert ds[i] in all;
      assert ds[i] != ds[k];
    }
    forall i | 0 <= i < |ds| && Joined(ds[i]) ensures WellFormed(ds[i].frame.value) {
      assert ds[i] in all;
    }
  }
}
