/**
 * load_ml_features.py: loads the final feature CSV into the ml_features
 * table. Cells are cleaned, the insert columns are the canonical columns the
 * file has, every row is converted to typed SQL parameters (failures are
 * counted and skipped), and the rows are inserted in chunks; a chunk that
 * fails is retried row by row. Also the drop-and-recreate retry loop.
 *
 * The database is represented by oracles: chunkOk(i, chunk) says whether
 * executemany commits the chunk starting at row i, rowOk(k, row) whether the
 * single insert of row k succeeds, works(attempt) whether the drop/create
 * statements of that attempt succeed on an open cursor.
 */
module MlFeaturesLoader {
  import opened Wrappers
  import opened Frames
  import opened Text

  // ---------------------------------------------------------------------------
  // Cleaning and column selection
  // ---------------------------------------------------------------------------

  /** The CSV as pandas reads it: its header and, per row, a cell for every header column. */
  datatype CsvFile = CsvFile(columns: seq<string>, rows: seq<map<string, Cell>>)

  predicate CsvWellFormed(f: CsvFile)
  {
    forall k, c :: 0 <= k < |f.rows| && c in f.columns ==> c in f.rows[k]
  }

  /** df.replace('', None), df.replace('..', None), then NaN to None. */
  function CleanCell(c: Cell): (r: Cell)
    ensures r.Null? <==> c.Null? || c == Text("") || c == Text("..")
    ensures !r.Null? ==> r == c
  {
    if c == Text("") || c == Text("..") then Null else c
  }

  const CanonicalColumns: seq<string> :=
    ["area", "year", "crop_type", "crop_yield", "rainfall", "temperature", "pesticide_usage"]

  const MeasureColumns: seq<string> := ["crop_yield", "rainfall", "temperature", "pesticide_usage"]

  /** The canonical columns present in the CSV, in canonical order. */
  function InsertColumns(csvColumns: seq<string>): (cols: seq<string>)
    ensures forall c :: c in cols <==> c in CanonicalColumns && c in csvColumns
    ensures IsSubsequence(cols, CanonicalColumns)
    ensures (forall c :: c in CanonicalColumns ==> c in csvColumns) ==> cols == CanonicalColumns
  {
    FilterIsSubsequence((c: string) => c in csvColumns, CanonicalColumns);
    if forall c :: c in CanonicalColumns ==> c in csvColumns then
      FilterAllKept((c: string) => c in csvColumns, CanonicalColumns);
      Filter((c: string) => c in csvColumns, CanonicalColumns)
    else
      Filter((c: string) => c in csvColumns, CanonicalColumns)
  }

  const QueryHead: string := "INSERT INTO ml_features ("
  const QueryMiddle: string := ") VALUES ("
  const QueryTail: string := ")"

  function InsertQuery(cols: seq<string>): string
  {
    QueryHead + Join(cols, ", ") + QueryMiddle + Placeholders(|cols|) + QueryTail
  }

  lemma HeadHasNoMarker()
    ensures CountChar(QueryHead, '%') == 0
  {
    CountCharAbsent(QueryHead, '%');
  }

  lemma MiddleHasNoMarker()
    ensures CountChar(QueryMiddle, '%') == 0
  {
    CountCharAbsent(QueryMiddle, '%');
  }

  lemma ColumnListHasNoMarker(cols: seq<string>)
    requires forall c :: c in cols ==> c in CanonicalColumns
    ensures CountChar(Join(cols, ", "), '%') == 0
  {
    forall c | c in cols ensures '%' !in c {
      assert c in CanonicalColumns;
    }
    JoinWithout(cols, ", ", '%');
    CountCharAbsent(Join(cols, ", "), '%');
  }

  /** The query has exactly one parameter marker per insert column. */
  lemma InsertQueryMarkers(csvColumns: seq<string>)
    ensures var cols := InsertColumns(csvColumns);
      CountChar(InsertQuery(cols), '%') == |cols|
  {
    QueryMarkers(InsertColumns(csvColumns));
  }

  /** Any list of canonical columns gets one marker per column. */
  lemma QueryMarkers(cols: seq<string>)
    requires forall c :: c in cols ==> c in CanonicalColumns
    ensures CountChar(InsertQuery(cols), '%') == |cols|
  {
    HeadHasNoMarker();
    MiddleHasNoMarker();
    ColumnListHasNoMarker(cols);
    TailHasNoMarker();
    PlaceholderCount(|cols|);
    CountCharOfFive(QueryHead, Join(cols, ", "), QueryMiddle, Placeholders(|cols|), QueryTail, '%');
  }

  lemma TailHasNoMarker()
    ensures CountChar(QueryTail, '%') == 0
  {
    CountCharAbsent(QueryTail, '%');
  }

  /** The count over the five pieces of the query is the sum of the pieces' counts. */
  lemma CountCharOfFive(a: string, b: string, c: string, d: string, e: string, ch: char)
    ensures CountChar(a + b + c + d + e, ch) == CountChar(a, ch) + CountChar(b, ch) + CountChar(c, ch) + CountChar(d, ch) + CountChar(e, ch)
  {
    CountCharAppend(a, b, ch);
    CountCharAppend(a + b, c, ch);
    CountCharAppend(a + b + c, d, ch);
    CountCharAppend(a + b + c + d, e, ch);
  }

  // ---------------------------------------------------------------------------
  // Row conversion
  // ---------------------------------------------------------------------------

  /** A parameter as pymysql receives it. */
  datatype SqlValue =
    | SqlNull
    | SqlInt(i: int)
    | SqlFloat(f: real)
    | SqlText(s: string)     // str() of a text cell
    | SqlNumText(n: real)    // str() of a numeric cell

  type Tuple = seq<SqlValue>

  /** int(x) on a float: truncation toward zero. */
  function TruncateToInt(x: real): (r: int)
    ensures 0.0 <= x ==> r as real <= x < r as real + 1.0
    ensures x < 0.0 ==> r as real - 1.0 < x <= r as real
  {
    if x >= 0.0 then x.Floor else -((-x).Floor)
  }

  /** One cell of the row loop; None when int() or float() raises on text. */
  function ConvertValue(col: string, c: Cell): (r: Option<SqlValue>)
    ensures c.Null? ==> r == Some(SqlNull)
    ensures r.None? <==> c.Text? && (col == "year" || col in MeasureColumns)
    ensures c.Num? && col == "year" ==> r == Some(SqlInt(TruncateToInt(c.x)))
    ensures c.Num? && col != "year" && col in MeasureColumns ==> r == Some(SqlFloat(c.x))
    ensures c.Num? && col != "year" && col !in MeasureColumns ==> r == Some(SqlNumText(c.x))
    ensures c.Text? && col != "year" && col !in MeasureColumns ==> r == Some(SqlText(c.s))
  {
    match c
    case Null => Some(SqlNull)
    case Num(x) =>
      if col == "year" then Some(SqlInt(TruncateToInt(x)))
      else if col in MeasureColumns then Some(SqlFloat(x))
      else Some(SqlNumText(x))
    case Text(s) =>
      if col == "year" || col in MeasureColumns then None else Some(SqlText(s))
  }

  predicate HasColumns(row: map<string, Cell>, cols: seq<string>)
  {
    forall c :: c in cols ==> c in row
  }

  /** The tuple for one row, or None when some cell's conversion raises. */
  function ConvertRow(cols: seq<string>, row: map<string, Cell>): (r: Option<Tuple>)
    requires HasColumns(row, cols)
    ensures r.Some? <==> forall i :: 0 <= i < |cols| ==> ConvertValue(cols[i], CleanCell(row[cols[i]])).Some?
    ensures r.Some? ==> |r.value| == |cols|
    ensures r.Some? ==> forall i :: 0 <= i < |cols| ==> Some(r.value[i]) == ConvertValue(cols[i], CleanCell(row[cols[i]]))
  {
    if cols == [] then Some([])
    else
      var n := |cols| - 1;
      assert forall i :: 0 <= i < n ==> cols[..n][i] == cols[i];
      match ConvertRow(cols[..n], row)
      case None => None
      case Some(init) =>
        match ConvertValue(cols[n], CleanCell(row[cols[n]]))
        case None => None
        case Some(v) => Some(init + [v])
  }

  /** The converted tuples of the rows whose conversion succeeds, in order. */
  function ConvertedRows(cols: seq<string>, rows: seq<map<string, Cell>>): (data: seq<Tuple>)
    requires forall k :: 0 <= k < |rows| ==> HasColumns(rows[k], cols)
    ensures |data| <= |rows|
  {
    if rows == [] then []
    else
      var n := |rows| - 1;
      var init := ConvertedRows(cols, rows[..n]);
      match ConvertRow(cols, rows[n])
      case None => init
      case Some(t) => init + [t]
  }

  /** A row that converts contributes its tuple; one that does not contributes nothing. */
  lemma {:induction false} ConvertedRowsAllConvert(cols: seq<string>, rows: seq<map<string, Cell>>)
    requires forall k :: 0 <= k < |rows| ==> HasColumns(rows[k], cols)
    requires forall k :: 0 <= k < |rows| ==> ConvertRow(cols, rows[k]).Some?
    ensures |ConvertedRows(cols, rows)| == |rows|
    ensures forall k :: 0 <= k < |rows| ==> ConvertedRows(cols, rows)[k] == ConvertRow(cols, rows[k]).value
  {
    if rows != [] {
      var n := |rows| - 1;
      ConvertedRowsAllConvert(cols, rows[..n]);
    }
  }

  /** The row loop: the converted tuples and the success and error counters. */
  method ConvertRows(cols: seq<string>, rows: seq<map<string, Cell>>) returns (data: seq<Tuple>, successCount: nat, errorCount: nat)
    requires forall k :: 0 <= k < |rows| ==> HasColumns(rows[k], cols)
    ensures data == ConvertedRows(cols, rows)
    ensures successCount == |data| && successCount + errorCount == |rows|
  {
    data, successCount, errorCount := [], 0, 0;
    var k := 0;
    while k < |rows|
      invariant 0 <= k <= |rows|
      invariant data == ConvertedRows(cols, rows[..k])
      invariant successCount == |data| && successCount + errorCount == k
    {
      var converted := ConvertOneRow(cols, rows[k]);
      ConvertedRowsSnoc(cols, rows, k);
      if converted.None? {
        errorCount := errorCount + 1;
      } else {
        data := data + [converted.value];
        successCount := successCount + 1;
      }
      k := k + 1;
    }
    assert rows[..|rows|] == rows;
  }

  /** One more row: its tuple is appended when it converts. */
  lemma ConvertedRowsSnoc(cols: seq<string>, rows: seq<map<string, Cell>>, k: nat)
    requires k < |rows| && forall j :: 0 <= j < |rows| ==> HasColumns(rows[j], cols)
    ensures ConvertedRows(cols, rows[..k + 1])
      == ConvertedRows(cols, rows[..k]) + (if ConvertRow(cols, rows[k]).Some? then [ConvertRow(cols, rows[k]).value] else [])
  {
    assert rows[..k + 1][..k] == rows[..k];
  }

  /** The cell loop of one row; it stops at the first cell whose conversion raises. */
  method ConvertOneRow(cols: seq<string>, row: map<string, Cell>) returns (r: Option<Tuple>)
    requires HasColumns(row, cols)
    ensures r == ConvertRow(cols, row)
  {
    var tuple: Tuple := [];
    var c := 0;
    while c < |cols|
      invariant 0 <= c <= |cols|
      invariant ConvertRow(cols[..c], row) == Some(tuple)
    {
      assert cols[..c + 1][..c] == cols[..c];
      var v := ConvertValue(cols[c], CleanCell(row[cols[c]]));
      if v.None? {
        assert ConvertRow(cols, row).None?;
        return None;
      }
      tuple := tuple + [v.value];
      c := c + 1;
    }
    assert cols[..|cols|] == cols;
    r := Some(tuple);
  }

  // ---------------------------------------------------------------------------
  // Chunked insertion
  // ---------------------------------------------------------------------------

  /** The individual inserts of a failed chunk: the rows whose own insert succeeds. */
  function RowByRow(chunk: seq<Tuple>, start: nat, rowOk: (nat, Tuple) -> bool): seq<Tuple>
  {
    if chunk == [] then []
    else
      var n := |chunk| - 1;
      var init := RowByRow(chunk[..n], start, rowOk);
      if rowOk(start + n, chunk[n]) then init + [chunk[n]] else init
  }

  /** The surviving rows of a failed chunk are some of its rows, in order. */
  lemma {:induction false} RowByRowSubsequence(chunk: seq<Tuple>, start: nat, rowOk: (nat, Tuple) -> bool)
    ensures IsSubsequence(RowByRow(chunk, start, rowOk), chunk)
  {
    if chunk != [] {
      var n := |chunk| - 1;
      RowByRowSubsequence(chunk[..n], start, rowOk);
      assert chunk[..n] + [chunk[n]] == chunk;
      SubsequenceOfSnoc(RowByRow(chunk[..n], start, rowOk), chunk[..n], chunk[n]);
    }
  }

  /** The rows committed by the chunk loop from offset i on. */
  function InsertFrom(data: seq<Tuple>, i: nat, size: nat, chunkOk: (nat, seq<Tuple>) -> bool, rowOk: (nat, Tuple) -> bool): seq<Tuple>
    requires size > 0
    decreases |data| - i
  {
    if i >= |data| then []
    else ChunkCommitted(data, i, size, chunkOk, rowOk) + InsertFrom(data, i + size, size, chunkOk, rowOk)
  }

  /** The rows of the chunk starting at i that reach the table: all of them, or the row-by-row survivors. */
  function ChunkCommitted(data: seq<Tuple>, i: nat, size: nat, chunkOk: (nat, seq<Tuple>) -> bool, rowOk: (nat, Tuple) -> bool): seq<Tuple>
  {
    var chunk := Slice(data, i, size);
    if chunkOk(i, chunk) then chunk else RowByRow(chunk, i, rowOk)
  }

  /** The committed rows are some of the data, in order: total_rows never exceeds len(data). */
  lemma {:induction false} InsertFromSubsequence(data: seq<Tuple>, i: nat, size: nat, chunkOk: (nat, seq<Tuple>) -> bool, rowOk: (nat, Tuple) -> bool)
    requires size > 0 && i <= |data|
    ensures IsSubsequence(InsertFrom(data, i, size, chunkOk, rowOk), data[i..])
  {
    var outcome := (j: nat) => ChunkCommitted(data, j, size, chunkOk, rowOk);
    InsertFromGathers(data, i, size, chunkOk, rowOk, outcome);
    forall j | i <= j < |data| ensures IsSubsequence(outcome(j), data[j..ChunkEnd(|data|, j, size)]) {
      ChunkSubsequence(data, j, size, chunkOk, rowOk);
    }
    GatherSubsequence(data, i, size, outcome);
  }

  /** One chunk of InsertFromSubsequence: a chunk commits some of its rows, in order. */
  lemma ChunkSubsequence(data: seq<Tuple>, i: nat, size: nat, chunkOk: (nat, seq<Tuple>) -> bool, rowOk: (nat, Tuple) -> bool)
    requires size > 0 && i < |data|
    ensures IsSubsequence(ChunkCommitted(data, i, size, chunkOk, rowOk), data[i..ChunkEnd(|data|, i, size)])
  {
    var chunk := Slice(data, i, size);
    assert chunk == data[i..ChunkEnd(|data|, i, size)];
    if chunkOk(i, chunk) {
      SubsequenceRefl(chunk);
    } else {
      RowByRowSubsequence(chunk, i, rowOk);
    }
  }

  /** When every single-row insert succeeds, every row is committed, whatever the chunks do. */
  lemma {:induction false} RowByRowAllOk(chunk: seq<Tuple>, start: nat, rowOk: (nat, Tuple) -> bool)
    requires forall k, t :: rowOk(k, t)
    ensures RowByRow(chunk, start, rowOk) == chunk
  {
    if chunk != [] {
      var n := |chunk| - 1;
      RowByRowAllOk(chunk[..n], start, rowOk);
      assert chunk[..n] + [chunk[n]] == chunk;
    }
  }

  lemma {:induction false} InsertFromAllRowsOk(data: seq<Tuple>, i: nat, size: nat, chunkOk: (nat, seq<Tuple>) -> bool, rowOk: (nat, Tuple) -> bool)
    requires size > 0 && i <= |data|
    requires forall k, t :: rowOk(k, t)
    ensures InsertFrom(data, i, size, chunkOk, rowOk) == data[i..]
  {
    var outcome := (j: nat) => ChunkCommitted(data, j, size, chunkOk, rowOk);
    InsertFromGathers(data, i, size, chunkOk, rowOk, outcome);
    forall j | i <= j < |data| ensures outcome(j) == data[j..ChunkEnd(|data|, j, size)] {
      ChunkAllRowsOk(data, j, size, chunkOk, rowOk);
    }
    GatherWhole(data, i, size, outcome);
  }

  /** One chunk of InsertFromAllRowsOk: with every row accepted, the whole chunk is committed. */
  lemma ChunkAllRowsOk(data: seq<Tuple>, i: nat, size: nat, chunkOk: (nat, seq<Tuple>) -> bool, rowOk: (nat, Tuple) -> bool)
    requires size > 0 && i < |data|
    requires forall k, t :: rowOk(k, t)
    ensures ChunkCommitted(data, i, size, chunkOk, rowOk) == data[i..ChunkEnd(|data|, i, size)]
  {
    var chunk := Slice(data, i, size);
    assert chunk == data[i..ChunkEnd(|data|, i, size)];
    RowByRowAllOk(chunk, i, rowOk);
  }

  /** What load_ml_features_csv commits; `csv` is None when the file cannot be read. */
  function LoadSpec(csv: Option<CsvFile>, chunkSize: int, chunkOk: (nat, seq<Tuple>) -> bool, rowOk: (nat, Tuple) -> bool): (inserted: seq<Tuple>)
    requires csv.Some? ==> CsvWellFormed(csv.value)
  {
    if csv.None? then []
    else
      var cols := InsertColumns(csv.value.columns);
      var data := ConvertedRows(cols, csv.value.rows);
      // chunk_size == 0: range() raises ValueError, caught, 0 returned; < 0: an empty range
      if data == [] || chunkSize <= 0 then []
      else InsertFrom(data, 0, chunkSize, chunkOk, rowOk)
  }

  /** Never more rows committed than the CSV has. */
  lemma LoadBounded(csv: Option<CsvFile>, chunkSize: int, chunkOk: (nat, seq<Tuple>) -> bool, rowOk: (nat, Tuple) -> bool)
    requires csv.Some? ==> CsvWellFormed(csv.value)
    ensures |LoadSpec(csv, chunkSize, chunkOk, rowOk)| <= (if csv.Some? then |csv.value.rows| else 0)
  {
    if csv.Some? && chunkSize > 0 {
      var data := ConvertedRows(InsertColumns(csv.value.columns), csv.value.rows);
      if data != [] {
        InsertFromSubsequence(data, 0, chunkSize, chunkOk, rowOk);
        SubsequenceBounds(InsertFrom(data, 0, chunkSize, chunkOk, rowOk), data[0..]);
      }
    }
  }

  /** Every convertible row is committed when the database accepts every single row. */
  lemma LoadAllRowsAccepted(csv: CsvFile, chunkSize: int, chunkOk: (nat, seq<Tuple>) -> bool, rowOk: (nat, Tuple) -> bool)
    requires CsvWellFormed(csv) && chunkSize > 0
    requires forall k, t :: rowOk(k, t)
    ensures LoadSpec(Some(csv), chunkSize, chunkOk, rowOk) == ConvertedRows(InsertColumns(csv.columns), csv.rows)
  {
    var data := ConvertedRows(InsertColumns(csv.columns), csv.rows);
    if data != [] {
      InsertFromAllRowsOk(data, 0, chunkSize, chunkOk, rowOk);
    }
  }

  /** A year column holding text fails every row, so nothing is inserted. */
  lemma TextYearLoadsNothing(csv: CsvFile, chunkSize: int, chunkOk: (nat, seq<Tuple>) -> bool, rowOk: (nat, Tuple) -> bool)
    requires CsvWellFormed(csv) && "year" in csv.columns
    requires forall k :: 0 <= k < |csv.rows| ==> IsTextCell(csv.rows[k], "year")
    ensures LoadSpec(Some(csv), chunkSize, chunkOk, rowOk) == []
  {
    var cols := InsertColumns(csv.columns);
    assert CanonicalColumns[1] == "year";
    assert "year" in cols;
    ConvertedRowsNoneConvert(cols, csv.rows, IndexOf(cols, "year"));
  }

  /** The row has a text cell in this column that cleaning keeps. */
  predicate IsTextCell(row: map<string, Cell>, col: string)
  {
    col in row && row[col].Text? && CleanCell(row[col]) == row[col]
  }

  lemma {:induction false} ConvertedRowsNoneConvert(cols: seq<string>, rows: seq<map<string, Cell>>, y: nat)
    requires forall k :: 0 <= k < |rows| ==> HasColumns(rows[k], cols)
    requires y < |cols| && cols[y] == "year"
    requires forall k :: 0 <= k < |rows| ==> IsTextCell(rows[k], "year")
    ensures ConvertedRows(cols, rows) == []
  {
    if rows != [] {
      var n := |rows| - 1;
      ConvertedRowsNoneConvert(cols, rows[..n], y);
      assert ConvertValue(cols[y], CleanCell(rows[n][cols[y]])).None?;
    }
  }

  /** load_ml_features_csv: convert, then insert chunk by chunk with the row-by-row fallback. */
  method LoadMlFeaturesCsv(csv: Option<CsvFile>, chunkSize: int, chunkOk: (nat, seq<Tuple>) -> bool, rowOk: (nat, Tuple) -> bool)
    returns (totalRows: nat, inserted: seq<Tuple>)
    requires csv.Some? ==> CsvWellFormed(csv.value)
    ensures inserted == LoadSpec(csv, chunkSize, chunkOk, rowOk)
    ensures totalRows == |inserted|
  {
    if csv.None? {
      return 0, [];
    }
    var cols := InsertColumns(csv.value.columns);
    var data, successCount, errorCount := ConvertRows(cols, csv.value.rows);
    if data == [] || chunkSize <= 0 {
      return 0, [];
    }
    totalRows, inserted := InsertChunks(data, chunkSize, chunkOk, rowOk);
  }

  /** The chunk loop: executemany per chunk, the row-by-row fallback when it fails. */
  method InsertChunks(data: seq<Tuple>, chunkSize: nat, chunkOk: (nat, seq<Tuple>) -> bool, rowOk: (nat, Tuple) -> bool)
    returns (totalRows: nat, inserted: seq<Tuple>)
    requires chunkSize > 0
    ensures inserted == InsertFrom(data, 0, chunkSize, chunkOk, rowOk)
    ensures totalRows == |inserted|
  {
    ghost var outcome := (j: nat) => ChunkCommitted(data, j, chunkSize, chunkOk, rowOk);
    InsertFromGathers(data, 0, chunkSize, chunkOk, rowOk, outcome);
    totalRows, inserted := GatherChunks(data, chunkSize, chunkOk, rowOk, outcome);
  }

  /** The chunks' outcomes, from the chunk starting at i on, concatenated. */
  function Gather(n: nat, i: nat, size: nat, outcome: nat -> seq<Tuple>): seq<Tuple>
    requires size > 0
    decreases n - i
  {
    if i >= n then [] else outcome(i) + Gather(n, i + size, size, outcome)
  }

  /** The committed rows are the concatenation of what each chunk commits. */
  lemma {:induction false} InsertFromGathers(data: seq<Tuple>, i: nat, size: nat, chunkOk: (nat, seq<Tuple>) -> bool, rowOk: (nat, Tuple) -> bool, outcome: nat -> seq<Tuple>)
    requires size > 0
    requires forall j :: outcome(j) == ChunkCommitted(data, j, size, chunkOk, rowOk)
    ensures InsertFrom(data, i, size, chunkOk, rowOk) == Gather(|data|, i, size, outcome)
    decreases |data| - i
  {
    if i < |data| {
      InsertFromGathers(data, i + size, size, chunkOk, rowOk, outcome);
    }
  }

  /** Where the chunk starting at i ends in a list of n rows. */
  function ChunkEnd(n: nat, i: nat, size: nat): nat
  {
    if i + size <= n then i + size else n
  }

  /** Chunks that each keep some of their rows, in order, keep some of the rows, in order. */
  lemma {:induction false} GatherSubsequence(data: seq<Tuple>, i: nat, size: nat, outcome: nat -> seq<Tuple>)
    requires size > 0 && i <= |data|
    requires forall j :: i <= j < |data| ==> IsSubsequence(outcome(j), data[j..ChunkEnd(|data|, j, size)])
    ensures IsSubsequence(Gather(|data|, i, size, outcome), data[i..])
    decreases |data| - i
  {
    if i < |data| {
      var next := ChunkEnd(|data|, i, size);
      GatherSubsequence(data, next, size, outcome);
      assert Gather(|data|, i + size, size, outcome) == Gather(|data|, next, size, outcome);
      assert data[i..] == data[i..next] + data[next..];
      SubsequenceConcat(outcome(i), data[i..next], Gather(|data|, next, size, outcome), data[next..]);
    }
  }

  /** Chunks that each keep all their rows keep all the rows. */
  lemma {:induction false} GatherWhole(data: seq<Tuple>, i: nat, size: nat, outcome: nat -> seq<Tuple>)
    requires size > 0 && i <= |data|
    requires forall j :: i <= j < |data| ==> outcome(j) == data[j..ChunkEnd(|data|, j, size)]
    ensures Gather(|data|, i, size, outcome) == data[i..]
    decreases |data| - i
  {
    if i < |data| {
      var next := ChunkEnd(|data|, i, size);
      GatherWhole(data, next, size, outcome);
      assert Gather(|data|, i + size, size, outcome) == Gather(|data|, next, size, outcome);
      assert data[i..] == data[i..next] + data[next..];
    }
  }

  /** The chunk loop, for chunks whose outcomes are given by outcome. */
  method GatherChunks(data: seq<Tuple>, chunkSize: nat, chunkOk: (nat, seq<Tuple>) -> bool, rowOk: (nat, Tuple) -> bool, ghost outcome: nat -> seq<Tuple>)
    returns (totalRows: nat, inserted: seq<Tuple>)
    requires chunkSize > 0
    requires forall j {:trigger ChunkCommitted(data, j, chunkSize, chunkOk, rowOk)} :: outcome(j) == ChunkCommitted(data, j, chunkSize, chunkOk, rowOk)
    ensures inserted == Gather(|data|, 0, chunkSize, outcome)
    ensures totalRows == |inserted|
  {
    ghost var all := Gather(|data|, 0, chunkSize, outcome);
    ghost var remaining := all;
    totalRows, inserted := 0, [];
    var i: nat := 0;
    while i < |data|
      invariant remaining == Gather(|data|, i, chunkSize, outcome)
      invariant inserted + remaining == all
      invariant totalRows == |inserted|
      decreases |data| - i
    {
      var committed, count := InsertChunk(data, i, chunkSize, chunkOk, rowOk);
      ghost var rest := Gather(|data|, i + chunkSize, chunkSize, outcome);
      Regroup(inserted, committed, rest, remaining);
      inserted := inserted + committed;
      totalRows := totalRows + count;
      remaining := rest;
      i := i + chunkSize;
    }
    assert inserted + [] == inserted;
  }

  /** One chunk: executemany and commit, or the individual inserts after a rollback. */
  method InsertChunk(data: seq<Tuple>, i: nat, chunkSize: nat, chunkOk: (nat, seq<Tuple>) -> bool, rowOk: (nat, Tuple) -> bool)
    returns (committed: seq<Tuple>, count: nat)
    requires chunkSize > 0 && i < |data|
    ensures committed == ChunkCommitted(data, i, chunkSize, chunkOk, rowOk)
    ensures count == |committed|
  {
    var chunk := Slice(data, i, chunkSize);
    if chunkOk(i, chunk) {
      committed, count := chunk, |chunk|;
    } else {
      committed, count := InsertRowByRow(chunk, i, rowOk);
    }
    assert committed == ChunkCommitted(data, i, chunkSize, chunkOk, rowOk);
  }

  /** The fallback loop over a failed chunk's rows, counting the inserts that succeed. */
  method InsertRowByRow(chunk: seq<Tuple>, start: nat, rowOk: (nat, Tuple) -> bool) returns (committed: seq<Tuple>, chunkSuccess: nat)
    ensures committed == RowByRow(chunk, start, rowOk) && chunkSuccess == |committed|
  {
    committed, chunkSuccess := [], 0;
    var j := 0;
    while j < |chunk|
      invariant 0 <= j <= |chunk|
      invariant committed == RowByRow(chunk[..j], start, rowOk) && chunkSuccess == |committed|
    {
      assert chunk[..j + 1][..j] == chunk[..j];
      if rowOk(start + j, chunk[j]) {
        committed := committed + [chunk[j]];
        chunkSuccess := chunkSuccess + 1;
      }
      j := j + 1;
    }
    assert chunk[..|chunk|] == chunk;
  }

  // ---------------------------------------------------------------------------
  // drop_and_recreate_ml_features_table
  // ---------------------------------------------------------------------------

  const MaxRetries: nat := 3
  const InitialDelay: nat := 2

  /**
   * The retry loop from `attempt` on: whether the table was created and the
   * back-off sleeps taken. An attempt succeeds when the cursor is open and the
   * statements work; closeEachAttempt is the `finally: cursor.close()` inside
   * the loop, which leaves every later attempt a closed cursor.
   */
  function RecreateFrom(works: nat -> bool, closeEachAttempt: bool, cursorOpen: bool, attempt: nat, delay: nat): (r: (bool, seq<nat>))
    requires attempt < MaxRetries
    ensures |r.1| <= MaxRetries - 1 - attempt
    decreases MaxRetries - attempt
  {
    if cursorOpen && works(attempt) then (true, [])
    else if attempt < MaxRetries - 1 then
      var rest := RecreateFrom(works, closeEachAttempt, cursorOpen && !closeEachAttempt, attempt + 1, delay * 2);
      (rest.0, [delay] + rest.1)
    else (false, [])
  }

  /** The loop as written: the cursor is closed in `finally` after the first attempt. */
  function RecreateAsWritten(works: nat -> bool): (bool, seq<nat>)
  {
    RecreateFrom(works, true, true, 0, InitialDelay)
  }

  /** The loop as intended: one cursor for all attempts. */
  function RecreateIntended(works: nat -> bool): (bool, seq<nat>)
  {
    RecreateFrom(works, false, true, 0, InitialDelay)
  }

  /** drop_and_recreate_ml_features_table as written. */
  method DropAndRecreateTable(works: nat -> bool) returns (created: bool, sleeps: seq<nat>)
    ensures (created, sleeps) == RecreateAsWritten(works)
  {
    var cursorOpen := true;
    var retryDelay := InitialDelay;
    sleeps := [];
    var attempt: nat := 0;
    assert sleeps + RecreateAsWritten(works).1 == RecreateAsWritten(works).1;
    while true
      invariant attempt < MaxRetries
      invariant RecreateFrom(works, true, cursorOpen, attempt, retryDelay).0 == RecreateAsWritten(works).0
      invariant sleeps + RecreateFrom(works, true, cursorOpen, attempt, retryDelay).1 == RecreateAsWritten(works).1
      decreases MaxRetries - attempt
    {
      if cursorOpen && works(attempt) {
        cursorOpen := false;  // finally
        return true, sleeps;
      }
      ghost var here := RecreateFrom(works, true, cursorOpen, attempt, retryDelay);
      cursorOpen := false;    // finally
      if attempt < MaxRetries - 1 {
        ghost var rest := RecreateFrom(works, true, false, attempt + 1, retryDelay * 2);
        assert sleeps + [retryDelay] + rest.1 == sleeps + ([retryDelay] + rest.1);
        sleeps := sleeps + [retryDelay];
        retryDelay := retryDelay * 2;
      } else {
        assert here == (false, []);
        assert sleeps + [] == sleeps;
        return false, sleeps;
      }
      attempt := attempt + 1;
    }
  }

  function Pow2(k: nat): nat
  {
    if k == 0 then 1 else 2 * Pow2(k - 1)
  }

  /**
   * The intended loop: it succeeds iff some attempt works, at the first one
   * that does, after sleeping 2, 4, ... seconds before each retry.
   */
  lemma {:induction false} RecreateFromOpen(works: nat -> bool, attempt: nat, delay: nat)
    requires attempt < MaxRetries
    ensures var r := RecreateFrom(works, false, true, attempt, delay);
      && (r.0 <==> exists k :: attempt <= k < MaxRetries && works(k))
      && (r.0 ==> attempt + |r.1| < MaxRetries && works(attempt + |r.1|))
      && (forall k :: attempt <= k < attempt + |r.1| ==> !works(k))
      && (!r.0 ==> |r.1| == MaxRetries - 1 - attempt)
      && (forall k :: 0 <= k < |r.1| ==> r.1[k] == delay * Pow2(k))
    decreases MaxRetries - attempt
  {
    if !works(attempt) && attempt < MaxRetries - 1 {
      RecreateFromOpen(works, attempt + 1, delay * 2);
      var rest := RecreateFrom(works, false, true, attempt + 1, delay * 2);
      forall k | 1 <= k < 1 + |rest.1| ensures ([delay] + rest.1)[k] == delay * Pow2(k) {
        assert rest.1[k - 1] == delay * 2 * Pow2(k - 1);
      }
    }
  }

  lemma RecreateIntendedSpec(works: nat -> bool)
    ensures var (ok, sleeps) := RecreateIntended(works);
      && (ok <==> exists k :: 0 <= k < MaxRetries && works(k))
      && (ok ==> works(|sleeps|) && forall k :: 0 <= k < |sleeps| ==> !works(k))
      && (!ok ==> sleeps == [2, 4])
      && (forall k :: 0 <= k < |sleeps| ==> sleeps[k] == 2 * Pow2(k))
  {
    RecreateFromOpen(works, 0, InitialDelay);
    var r := RecreateIntended(works);
    if !r.0 {
      assert r.1[0] == 2 * Pow2(0) && r.1[1] == 2 * Pow2(1);
    }
  }

  /** Once the cursor is closed no attempt can succeed. */
  lemma {:induction false} RecreateFromClosed(works: nat -> bool, attempt: nat, delay: nat)
    requires attempt < MaxRetries
    ensures var r := RecreateFrom(works, true, false, attempt, delay);
      !r.0 && |r.1| == MaxRetries - 1 - attempt
    decreases MaxRetries - attempt
  {
    if attempt < MaxRetries - 1 {
      RecreateFromClosed(works, attempt + 1, delay * 2);
    }
  }

  /** As written, only the first attempt can create the table; a failure always sleeps 2 then 4 seconds. */
  lemma RecreateAsWrittenFirstOnly(works: nat -> bool)
    ensures RecreateAsWritten(works).0 == works(0)
    ensures !works(0) ==> RecreateAsWritten(works).1 == [2, 4]
  {
    if !works(0) {
      RecreateFromClosed(works, 1, 4);
      RecreateFromClosed(works, 2, 8);
    }
  }

  /** A database whose drop/create statements fail on the first attempt and work on the second. */
  predicate SecondAttemptWorks(attempt: nat)
  {
    attempt == 1
  }

  /** A database that fails only on the first attempt: the intended loop creates the table, the written one gives up. */
  lemma RecreateSecondAttemptLost()
    ensures RecreateAsWritten(SecondAttemptWorks) == (false, [2, 4])
    ensures RecreateIntended(SecondAttemptWorks) == (true, [2])
  {
    RecreateAsWrittenFirstOnly(SecondAttemptWorks);
    var second := RecreateFrom(SecondAttemptWorks, false, true, 1, 4);
    assert second == (true, []);
    assert RecreateFrom(SecondAttemptWorks, false, true, 0, InitialDelay) == (second.0, [2] + second.1);
    assert [2] + second.1 == [2];
  }
}
