/**
 * load_mysql.py: load_csv_to_mysql reads a CSV chunk by chunk, normalises
 * the column names, turns the placeholder cells into NULL, builds an INSERT
 * with backticked columns and one marker per column, and inserts each chunk
 * with executemany. A chunk that fails is rolled back and skipped; the
 * returned total counts the committed rows only.
 *
 * The database is the oracle chunkOk(query, i, data): whether executemany
 * and the commit succeed for the cleaned chunk whose first row is row i.
 */
module MysqlLoader {
  import opened Wrappers
  import opened Frames
  import opened Text

  // ---------------------------------------------------------------------------
  // Column names
  // ---------------------------------------------------------------------------

  /** strip(), then spaces to underscores, then lower(). */
  function NormalizeName(name: string): string
  {
    Lower(ReplaceChar(Strip(name), ' ', '_'))
  }

  predicate HasUpper(s: string)
  {
    exists i :: 0 <= i < |s| && 'A' <= s[i] <= 'Z'
  }

  /** A normalised name has no space, no upper-case letter and no surrounding whitespace. */
  lemma NormalizedShape(name: string)
    ensures ' ' !in NormalizeName(name)
    ensures !HasUpper(NormalizeName(name))
    ensures IsStripped(NormalizeName(name))
    ensures |NormalizeName(name)| == |Strip(name)|
  {
    var s := Strip(name);
    var r := ReplaceChar(s, ' ', '_');
    var n := NormalizeName(name);
    ReplaceRemovesSpace(s);
    LowerShape(r);
    if n != [] {
      assert n[0] == LowerChar(r[0]);
      assert n[|n| - 1] == LowerChar(r[|s| - 1]);
    }
  }

  lemma ReplaceRemovesSpace(s: string)
    ensures ' ' !in ReplaceChar(s, ' ', '_')
  {
    var r := ReplaceChar(s, ' ', '_');
    forall i | 0 <= i < |r| ensures r[i] != ' ' {}
  }

  /** Lowering adds no space and leaves no upper-case letter. */
  lemma LowerShape(r: string)
    ensures ' ' in Lower(r) ==> ' ' in r
    ensures !HasUpper(Lower(r))
  {
    var n := Lower(r);
    forall i | 0 <= i < |n| ensures (n[i] == ' ' ==> r[i] == ' ') && !('A' <= n[i] <= 'Z') {}
  }

  lemma ReplaceAbsent(s: string)
    requires ' ' !in s
    ensures ReplaceChar(s, ' ', '_') == s
  {
  }

  lemma LowerOfLower(s: string)
    requires !HasUpper(s)
    ensures Lower(s) == s
  {
  }

  /** Normalising a normalised name changes nothing. */
  lemma NormalizeIdempotent(name: string)
    ensures NormalizeName(NormalizeName(name)) == NormalizeName(name)
  {
    var n := NormalizeName(name);
    NormalizedShape(name);
    StripOfStripped(n);
    ReplaceAbsent(n);
    LowerOfLower(n);
  }

  lemma DomainCodeStripped()
    ensures Strip("Domain Code") == "Domain Code"
  {
    assert IsStripped("Domain Code");
    StripOfStripped("Domain Code");
  }

  lemma DomainCodeReplaced()
    ensures ReplaceChar("Domain Code", ' ', '_') == "Domain_Code"
  {
  }

  lemma DomainCodeLowered()
    ensures Lower("Domain_Code") == "domain_code"
  {
  }

  /** The example of the source's comment: "Domain Code" becomes "domain_code". */
  lemma DomainCodeExample()
    ensures NormalizeName("Domain Code") == "domain_code"
  {
    DomainCodeStripped();
    DomainCodeReplaced();
    DomainCodeLowered();
  }

  // ---------------------------------------------------------------------------
  // Cells
  // ---------------------------------------------------------------------------

  /** The three replace() calls and the NaN-to-None step of the tuple loop. */
  function CleanValue(c: Cell): (r: Cell)
    ensures r.Null? <==> c.Null? || c == Text("") || c == Text("..") || c == Text("  ")
    ensures !r.Null? ==> r == c
  {
    if c == Text("") || c == Text("..") || c == Text("  ") then Null else c
  }

  type Row = seq<Cell>

  function CleanRow(row: Row): (r: Row)
    ensures |r| == |row|
    ensures forall j :: 0 <= j < |row| ==> r[j] == CleanValue(row[j])
  {
    seq(|row|, j requires 0 <= j < |row| => CleanValue(row[j]))
  }

  function CleanRows(rows: seq<Row>): (r: seq<Row>)
    ensures |r| == |rows|
    ensures forall k :: 0 <= k < |rows| ==> r[k] == CleanRow(rows[k])
  {
    seq(|rows|, k requires 0 <= k < |rows| => CleanRow(rows[k]))
  }

  /** Cleaning a second time changes nothing: no placeholder text survives. */
  lemma CleanRowsIdempotent(rows: seq<Row>)
    ensures CleanRows(CleanRows(rows)) == CleanRows(rows)
  {
    var once := CleanRows(rows);
    forall k | 0 <= k < |rows| ensures CleanRow(once[k]) == once[k] {
      assert CleanRow(once[k]) == once[k];
    }
  }

  /** Cleaning a chunk is cleaning the matching rows of the file. */
  lemma CleanSlice(rows: seq<Row>, i: nat, size: nat)
    ensures CleanRows(Slice(rows, i, size)) == Slice(CleanRows(rows), i, size)
  {
  }

  // ---------------------------------------------------------------------------
  // The insert statement
  // ---------------------------------------------------------------------------

  function Backticked(cols: seq<string>): (r: seq<string>)
    ensures |r| == |cols|
    ensures forall i :: 0 <= i < |cols| ==> r[i] == "`" + cols[i] + "`"
  {
    seq(|cols|, i requires 0 <= i < |cols| => "`" + cols[i] + "`")
  }

  function ColumnList(cols: seq<string>): string
  {
    Join(Backticked(cols), ", ")
  }

  function InsertStatement(table: string, cols: seq<string>): string
  {
    InsertHead + table + ColumnsOpen + ColumnList(cols) + ValuesOpen + Placeholders(|cols|) + StatementEnd
  }

  /**
   * The pieces of the column list between backticks: an empty piece, then
   * each column followed by its separator, the last one by an empty piece.
   */
  function QuotedPieces(cols: seq<string>): (r: seq<string>)
    ensures |r| == 2 * |cols| + 1
    ensures forall i :: 0 <= i < |cols| ==> r[2 * i + 1] == cols[i]
  {
    if |cols| == 0 then [""]
    else if |cols| == 1 then ["", cols[0], ""]
    else
      var rest := QuotedPieces(cols[1..]);
      assert forall i :: 1 <= i < |cols| ==> rest[2 * (i - 1) + 1] == cols[i];
      ["", cols[0], ", "] + rest[1..]
  }

  /** A separator at the front of the text gives an empty first piece. */
  lemma SplitAtSeparator(t: string, sep: char)
    ensures Split([sep] + t, sep) == [""] + Split(t, sep)
  {
    assert ([sep] + t)[1..] == t;
  }

  /** The column list of two or more columns: the first one quoted, a comma, the rest. */
  lemma ColumnListCons(cols: seq<string>)
    requires |cols| > 1
    ensures ColumnList(cols) == "`" + (cols[0] + ("`" + (", " + ColumnList(cols[1..]))))
  {
    assert Backticked(cols)[1..] == Backticked(cols[1..]);
  }

  lemma ColumnListStartsWithTick(cols: seq<string>)
    requires |cols| > 0
    ensures ColumnList(cols) != [] && ColumnList(cols)[0] == '`'
  {
    if |cols| > 1 {
      ColumnListCons(cols);
    }
  }

  /** The pieces of one quoted column followed by a comma and more quoted text. */
  lemma SplitQuotedCons(c: string, rest: string)
    requires '`' !in c
    requires rest != [] && rest[0] == '`'
    ensures Split("`" + (c + ("`" + (", " + rest))), '`') == ["", c, ", "] + Split(rest, '`')[1..]
  {
    var y := ", " + rest;
    SplitCommaThenTick(rest);
    SplitQuotedHead(c, y);
  }

  /** A comma before quoted text joins the text's empty first piece. */
  lemma SplitCommaThenTick(rest: string)
    requires rest != [] && rest[0] == '`'
    ensures Split(", " + rest, '`') == [", "] + Split(rest, '`')[1..]
  {
    assert rest == "`" + rest[1..];
    SplitAtSeparator(rest[1..], '`');
    SplitAfterPlainPrefix(", ", rest, '`');
    assert ", " + Split(rest, '`')[0] == ", ";
  }

  /** A quoted name at the front gives an empty piece, then the name. */
  lemma SplitQuotedHead(c: string, y: string)
    requires '`' !in c
    ensures Split("`" + (c + ("`" + y)), '`') == ["", c] + Split(y, '`')
  {
    var x := c + ("`" + y);
    SplitAtSeparator(y, '`');
    SplitAfterPlainPrefix(c, "`" + y, '`');
    assert c + "" == c;
    assert Split(x, '`') == [c] + Split(y, '`');
    SplitAtSeparator(x, '`');
  }

  /** Splitting the column list at its backticks gives back the columns, in their order. */
  lemma {:induction false} ColumnListOrder(cols: seq<string>)
    requires forall c :: c in cols ==> '`' !in c
    ensures Split(ColumnList(cols), '`') == QuotedPieces(cols)
  {
    if |cols| == 1 {
      var c := cols[0];
      assert ColumnList(cols) == "`" + (c + "`");
      SplitAfterPlainPrefix(c, "`", '`');
      assert Split("`", '`') == ["", ""];
      assert c + "" == c;
      SplitAtSeparator(c + "`", '`');
    } else if |cols| > 1 {
      ColumnListOrder(cols[1..]);
      ColumnListCons(cols);
      ColumnListStartsWithTick(cols[1..]);
      assert cols[0] in cols;
      SplitQuotedCons(cols[0], ColumnList(cols[1..]));
    }
  }

  const InsertHead: string := "INSERT INTO "
  const ColumnsOpen: string := " ("
  const ValuesOpen: string := ") VALUES ("
  const StatementEnd: string := ")"

  lemma InsertHeadHasNoMarker()
    ensures CountChar(InsertHead, '%') == 0
  {
    CountCharAbsent(InsertHead, '%');
  }

  lemma ValuesOpenHasNoMarker()
    ensures CountChar(ValuesOpen, '%') == 0
  {
    CountCharAbsent(ValuesOpen, '%');
  }

  lemma ColumnListHasNoMarker(cols: seq<string>)
    requires forall c :: c in cols ==> '%' !in c
    ensures CountChar(ColumnList(cols), '%') == 0
  {
    var quoted := Backticked(cols);
    forall k | 0 <= k < |quoted| ensures '%' !in quoted[k] {
      assert cols[k] in cols;
    }
    JoinWithout(quoted, ", ", '%');
    CountCharAbsent(ColumnList(cols), '%');
  }

  /** One '%s' marker per column, whenever no name carries a '%' of its own. */
  lemma InsertStatementMarkers(table: string, cols: seq<string>)
    requires '%' !in table
    requires forall c :: c in cols ==> '%' !in c
    ensures CountChar(InsertStatement(table, cols), '%') == |cols|
  {
    var list := ColumnList(cols);
    var marks := Placeholders(|cols|);
    ColumnListHasNoMarker(cols);
    CountCharAbsent(table, '%');
    InsertHeadHasNoMarker();
    ValuesOpenHasNoMarker();
    assert CountChar(ColumnsOpen, '%') == 0;
    assert CountChar(StatementEnd, '%') == 0;
    PlaceholderCount(|cols|);
    var a := InsertHead + table;
    var b := a + ColumnsOpen;
    var c := b + list;
    var d := c + ValuesOpen;
    var e := d + marks;
    CountCharAppend(InsertHead, table, '%');
    CountCharAppend(a, ColumnsOpen, '%');
    CountCharAppend(b, list, '%');
    CountCharAppend(c, ValuesOpen, '%');
    CountCharAppend(d, marks, '%');
    CountCharAppend(e, StatementEnd, '%');
  }

  // ---------------------------------------------------------------------------
  // The chunk loop
  // ---------------------------------------------------------------------------

  /** The CSV as read_csv sees it: the header and the data rows. */
  datatype RawCsv = RawCsv(header: seq<string>, rows: seq<Row>)

  /** chunk.columns after the strip and the replace/lower steps. */
  function NormalizedHeader(header: seq<string>): (cols: seq<string>)
  {
    Map(NormalizeName, header)
  }

  datatype LoadError =
    | ReadFailed      // read_csv raises: no such file, no header
    | BadChunkSize    // read_csv raises ValueError for chunksize < 1

  type ChunkOracle = (string, nat, seq<Row>) -> bool

  /** The rows committed from row i on: a failed chunk adds nothing and the loop goes on. */
  function CommittedFrom(query: string, rows: seq<Row>, i: nat, size: nat, chunkOk: ChunkOracle): seq<Row>
    requires size > 0
    decreases |rows| - i
  {
    if i >= |rows| then []
    else
      var data := ChunkData(rows, i, size);
      (if chunkOk(query, i, data) then data else []) + CommittedFrom(query, rows, i + size, size, chunkOk)
  }

  /** The cleaned chunk of rows starting at i. */
  function ChunkData(rows: seq<Row>, i: nat, size: nat): seq<Row>
  {
    CleanRows(Slice(rows, i, size))
  }

  /** What load_csv_to_mysql commits for a table; its return value is the length. */
  function LoadSpec(csv: Option<RawCsv>, table: string, chunkSize: int, chunkOk: ChunkOracle): Result<seq<Row>, LoadError>
  {
    if csv.None? then Err(ReadFailed)
    else if chunkSize < 1 then Err(BadChunkSize)
    else
      var cols := NormalizedHeader(csv.value.header);
      Ok(CommittedFrom(InsertStatement(table, cols), csv.value.rows, 0, chunkSize, chunkOk))
  }

  /** The committed rows are cleaned rows of the file, in order: total_rows never exceeds the rows read. */
  lemma {:induction false} CommittedSubsequence(query: string, rows: seq<Row>, i: nat, size: nat, chunkOk: ChunkOracle)
    requires size > 0 && i <= |rows|
    ensures IsSubsequence(CommittedFrom(query, rows, i, size, chunkOk), CleanRows(rows)[i..])
    decreases |rows| - i
  {
    if i < |rows| {
      var all := CleanRows(rows);
      var next := NextChunk(rows, i, size);
      var data := CleanRows(Slice(rows, i, size));
      ChunkSplit(rows, i, size);
      var here: seq<Row> := if chunkOk(query, i, data) then data else [];
      assert IsSubsequence(here, data) by {
        if chunkOk(query, i, data) {
          SubsequenceRefl(data);
        }
      }
      CommittedSubsequence(query, rows, next, size, chunkOk);
      assert CommittedFrom(query, rows, i + size, size, chunkOk) == CommittedFrom(query, rows, next, size, chunkOk);
      SubsequenceConcat(here, data, CommittedFrom(query, rows, next, size, chunkOk), all[next..]);
    }
  }

  /** Where the chunk after the one at i starts, clamped to the end of the file. */
  function NextChunk(rows: seq<Row>, i: nat, size: nat): nat
  {
    if i + size <= |rows| then i + size else |rows|
  }

  /** The cleaned chunk at i is the cleaned file from i up to the next chunk. */
  lemma ChunkSplit(rows: seq<Row>, i: nat, size: nat)
    requires i < |rows|
    ensures var all := CleanRows(rows); var next := NextChunk(rows, i, size);
      && i <= next <= |rows|
      && CleanRows(Slice(rows, i, size)) == all[i..next]
      && all[i..] == all[i..next] + all[next..]
  {
    CleanSlice(rows, i, size);
  }

  /** When every chunk commits, every row is inserted, cleaned. */
  lemma {:induction false} AllChunksCommit(query: string, rows: seq<Row>, i: nat, size: nat, chunkOk: ChunkOracle)
    requires size > 0 && i <= |rows|
    requires forall q, k, d :: chunkOk(q, k, d)
    ensures CommittedFrom(query, rows, i, size, chunkOk) == CleanRows(rows)[i..]
    decreases |rows| - i
  {
    if i < |rows| {
      var all := CleanRows(rows);
      var next := NextChunk(rows, i, size);
      ChunkSplit(rows, i, size);
      AllChunksCommit(query, rows, next, size, chunkOk);
      assert CommittedFrom(query, rows, i + size, size, chunkOk) == CommittedFrom(query, rows, next, size, chunkOk);
    }
  }

  /** When no chunk commits, the total is 0. */
  lemma {:induction false} NoChunkCommits(query: string, rows: seq<Row>, i: nat, size: nat, chunkOk: ChunkOracle)
    requires size > 0
    requires forall q, k, d :: !chunkOk(q, k, d)
    ensures CommittedFrom(query, rows, i, size, chunkOk) == []
    decreases |rows| - i
  {
    if i < |rows| {
      NoChunkCommits(query, rows, i + size, size, chunkOk);
    }
  }

  lemma LoadBounded(csv: Option<RawCsv>, table: string, chunkSize: int, chunkOk: ChunkOracle)
    ensures var r := LoadSpec(csv, table, chunkSize, chunkOk);
      r.Ok? ==> |r.value| <= |csv.value.rows|
  {
    if csv.Some? && chunkSize >= 1 {
      var cols := NormalizedHeader(csv.value.header);
      var query := InsertStatement(table, cols);
      CommittedSubsequence(query, csv.value.rows, 0, chunkSize, chunkOk);
      SubsequenceBounds(CommittedFrom(query, csv.value.rows, 0, chunkSize, chunkOk), CleanRows(csv.value.rows)[0..]);
    }
  }

  /** load_csv_to_mysql: the read, then the chunk loop. */
  method LoadCsvToMysql(csv: Option<RawCsv>, table: string, chunkSize: int, chunkOk: ChunkOracle)
    returns (r: Result<nat, LoadError>, committed: seq<Row>)
    ensures var spec := LoadSpec(csv, table, chunkSize, chunkOk);
      && (spec.Err? ==> r == Err(spec.error))
      && (spec.Ok? ==> r == Ok(|spec.value|) && committed == spec.value)
  {
    committed := [];
    if csv.None? {
      return Err(ReadFailed), committed;
    }
    if chunkSize < 1 {
      return Err(BadChunkSize), committed;
    }
    var totalRows;
    ghost var query := InsertStatement(table, NormalizedHeader(csv.value.header));
    totalRows, committed := InsertAllChunks(table, csv.value.header, csv.value.rows, chunkSize, chunkOk, query);
    r := Ok(totalRows);
  }

  /** The chunk loop with its running total. */
  method InsertAllChunks(table: string, header: seq<string>, rows: seq<Row>, chunkSize: nat, chunkOk: ChunkOracle, ghost query: string)
    returns (totalRows: nat, committed: seq<Row>)
    requires chunkSize > 0 && query == InsertStatement(table, NormalizedHeader(header))
    ensures committed == CommittedFrom(query, rows, 0, chunkSize, chunkOk)
    ensures totalRows == |committed|
  {
    ghost var total := CommittedFrom(query, rows, 0, chunkSize, chunkOk);
    committed := [];
    totalRows := 0;
    var i: nat := 0;
    ghost var remaining := total;
    while i < |rows|
      invariant remaining == CommittedFrom(query, rows, i, chunkSize, chunkOk)
      invariant committed + remaining == total
      invariant totalRows == |committed|
      decreases |rows| - i
    {
      var added := InsertChunk(table, header, rows, i, chunkSize, chunkOk, query);
      ghost var rest := CommittedFrom(query, rows, i + chunkSize, chunkSize, chunkOk);
      Regroup(committed, added, rest, remaining);
      committed := committed + added;
      remaining := rest;
      totalRows := totalRows + |added|;
      i := i + chunkSize;
    }
    assert remaining == [];
    assert committed + [] == committed;
  }

  /** One chunk: executemany and commit, or a rollback that adds nothing. */
  method InsertChunk(table: string, header: seq<string>, rows: seq<Row>, i: nat, chunkSize: nat, chunkOk: ChunkOracle, ghost query: string)
    returns (added: seq<Row>)
    requires chunkSize > 0 && i < |rows|
    requires query == InsertStatement(table, NormalizedHeader(header))
    ensures added + CommittedFrom(query, rows, i + chunkSize, chunkSize, chunkOk) == CommittedFrom(query, rows, i, chunkSize, chunkOk)
  {
    var chunkQuery := ChunkQuery(table, header);
    var data := CleanChunk(Slice(rows, i, chunkSize));
    if chunkOk(chunkQuery, i, data) {
      added := data;
    } else {
      added := [];
      assert [] + CommittedFrom(query, rows, i + chunkSize, chunkSize, chunkOk) == CommittedFrom(query, rows, i + chunkSize, chunkSize, chunkOk);
    }
  }

  /** The per-chunk header work: normalise each name, then build the statement. */
  method ChunkQuery(table: string, header: seq<string>) returns (query: string)
    ensures query == InsertStatement(table, NormalizedHeader(header))
  {
    var cols := NormalizeHeader(header);
    query := InsertStatement(table, cols);
  }

  /** chunk.columns.str.strip().str.replace(' ', '_').str.lower(), name by name. */
  method NormalizeHeader(header: seq<string>) returns (cols: seq<string>)
    ensures cols == NormalizedHeader(header)
  {
    cols := [];
    var j := 0;
    while j < |header|
      invariant 0 <= j <= |header|
      invariant cols == Map(NormalizeName, header[..j])
    {
      assert header[..j + 1] == header[..j] + [header[j]];
      MapSnoc(NormalizeName, header[..j], header[j]);
      cols := cols + [NormalizeName(header[j])];
      j := j + 1;
    }
    assert header[..|header|] == header;
  }

  /** The tuple loop: each row cleaned and appended. */
  method CleanChunk(chunk: seq<Row>) returns (data: seq<Row>)
    ensures data == CleanRows(chunk)
  {
    data := [];
    var k := 0;
    while k < |chunk|
      invariant 0 <= k <= |chunk|
      invariant data == CleanRows(chunk[..k])
    {
      data := data + [CleanRow(chunk[k])];
      k := k + 1;
    }
    assert chunk[..|chunk|] == chunk;
  }
}
