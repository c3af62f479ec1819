/**
 * reset_mysql.py: reset_database drops and recreates the database with
 * three fixed statements, then splits the schema file into statements and
 * executes every one that is not a database-level statement, reporting a
 * failing statement and carrying on with the next.
 *
 * The server is two oracles: preludeOk(k) says whether the k-th fixed
 * statement succeeds, schemaOk(i, stmt) whether the schema statement at
 * position i does.
 */
module SchemaReset {
  import opened Wrappers
  import opened Frames
  import opened Text

  // ---------------------------------------------------------------------------
  // Splitting the schema
  // ---------------------------------------------------------------------------

  predicate NonEmpty(s: string)
  {
    s != ""
  }

  /** [stmt.strip() for stmt in schema_sql.split(';') if stmt.strip()] */
  function Statements(sql: string): seq<string>
  {
    Filter(NonEmpty, Map(Strip, Split(sql, ';')))
  }

  /** Every statement is a non-empty, stripped piece of the text without ';', in the text's order. */
  lemma StatementsShape(sql: string)
    ensures forall s :: s in Statements(sql) ==> s != "" && IsStripped(s) && ';' !in s
    ensures IsSubsequence(Statements(sql), Map(Strip, Split(sql, ';')))
  {
    var pieces := Split(sql, ';');
    var stripped := Map(Strip, pieces);
    forall s | s in Statements(sql) ensures s != "" && IsStripped(s) && ';' !in s {
      assert s in stripped;
      var i :| 0 <= i < |stripped| && stripped[i] == s;
      assert pieces[i] in pieces;
    }
    FilterIsSubsequence(NonEmpty, stripped);
  }

  /** A stripped piece of the text is a statement exactly when it is not empty. */
  lemma StatementsComplete(sql: string, piece: string)
    requires piece in Split(sql, ';')
    ensures Strip(piece) in Statements(sql) <==> Strip(piece) != ""
  {
    var pieces := Split(sql, ';');
    var i :| 0 <= i < |pieces| && pieces[i] == piece;
    var stripped := Map(Strip, pieces);
    assert stripped[i] == Strip(piece);
    assert Strip(piece) in stripped;
    assert Statements(sql) == Filter(NonEmpty, stripped);
    assert Strip(piece) in Filter(NonEmpty, stripped) <==> NonEmpty(Strip(piece));
  }

  /** Joining clean statements with ';' and splitting again gives them back. */
  lemma StatementsOfJoin(stmts: seq<string>)
    requires forall s :: s in stmts ==> s != "" && IsStripped(s) && ';' !in s
    ensures Statements(Join(stmts, ";")) == stmts
  {
    if stmts == [] {
      assert Split("", ';') == [""];
      assert Map(Strip, [""]) == [""];
    } else {
      SplitJoin(stmts, ';');
      forall i | 0 <= i < |stmts| ensures Strip(stmts[i]) == stmts[i] {
        assert stmts[i] in stmts;
        StripOfStripped(stmts[i]);
      }
      assert Map(Strip, stmts) == stmts;
      FilterAllKept(NonEmpty, stmts);
    }
  }

  // ---------------------------------------------------------------------------
  // The skip rule
  // ---------------------------------------------------------------------------

  /** The statements the fixed prelude has already done. */
  predicate Skip(stmt: string)
  {
    Contains(stmt, "DROP DATABASE") || Contains(stmt, "CREATE DATABASE") || StartsWith(stmt, "USE ")
  }

  predicate Executes(stmt: string)
  {
    !Skip(stmt)
  }

  const DropStatement: string := "DROP DATABASE IF EXISTS agriculture_db"
  const CreateStatement: string := "CREATE DATABASE" + " agriculture_db CHARACTER SET utf8mb4 COLLATE utf8mb4_unicode_ci"
  const UseStatement: string := "USE agriculture_db"

  /** The three statements run before the schema, in their order. */
  const Prelude: seq<string> := [DropStatement, CreateStatement, UseStatement]

  lemma DropIsSkipped()
    ensures Skip(DropStatement)
  {
    assert DropStatement[..|"DROP DATABASE"|] == "DROP DATABASE";
  }

  lemma CreateIsSkipped()
    ensures Skip(CreateStatement)
  {
    assert CreateStatement[..|"CREATE DATABASE"|] == "CREATE DATABASE";
  }

  lemma UseIsSkipped()
    ensures Skip(UseStatement)
  {
    assert UseStatement[..|"USE "|] == "USE ";
  }

  /** The skip rule leaves out exactly the kinds of statement the prelude has run. */
  lemma PreludeWouldBeSkipped()
    ensures forall k :: 0 <= k < |Prelude| ==> Skip(Prelude[k])
  {
    DropIsSkipped();
    CreateIsSkipped();
    UseIsSkipped();
  }

  // ---------------------------------------------------------------------------
  // Execution
  // ---------------------------------------------------------------------------

  /**
   * The schema loop over a list of statements: the statements sent to the
   * server, in order, and the positions of those that failed.
   */
  function Run(stmts: seq<string>, schemaOk: (nat, string) -> bool): (r: (seq<string>, seq<nat>))
    ensures forall i :: i in r.1 <==> 0 <= i < |stmts| && Executes(stmts[i]) && !schemaOk(i, stmts[i])
    ensures forall a, b :: 0 <= a < b < |r.1| ==> r.1[a] < r.1[b]
  {
    if stmts == [] then ([], [])
    else
      var n := |stmts| - 1;
      var init := Run(stmts[..n], schemaOk);
      assert forall i :: 0 <= i < n ==> stmts[..n][i] == stmts[i];
      assert forall a :: 0 <= a < |init.1| ==> init.1[a] < n by {
        forall a | 0 <= a < |init.1| ensures init.1[a] < n {
          assert init.1[a] in init.1;
        }
      }
      if !Executes(stmts[n]) then init
      else if schemaOk(n, stmts[n]) then (init.0 + [stmts[n]], init.1)
      else (init.0 + [stmts[n]], init.1 + [n])
  }

  /** Every statement the skip rule lets through is sent, in order, whatever fails before it. */
  lemma {:induction false} RunIssuesAllExecutable(stmts: seq<string>, schemaOk: (nat, string) -> bool)
    ensures Run(stmts, schemaOk).0 == Filter(Executes, stmts)
  {
    if stmts != [] {
      var n := |stmts| - 1;
      RunIssuesAllExecutable(stmts[..n], schemaOk);
      assert stmts[..n] + [stmts[n]] == stmts;
    }
  }

  datatype Outcome = Outcome(issued: seq<string>, failures: seq<nat>)

  datatype ResetError =
    | PreludeFailed(k: nat)   // one of the fixed statements raised
    | SchemaUnreadable        // the schema file could not be opened

  /** The first fixed statement from k on that fails, if any. */
  function FirstPreludeFailure(preludeOk: nat -> bool, k: nat): (r: Option<nat>)
    ensures r.Some? ==> k <= r.value < |Prelude| && !preludeOk(r.value)
    ensures r.Some? ==> forall j :: k <= j < r.value ==> preludeOk(j)
    ensures r.None? <==> forall j :: k <= j < |Prelude| ==> preludeOk(j)
    decreases |Prelude| - k
  {
    if k >= |Prelude| then None
    else if !preludeOk(k) then Some(k)
    else FirstPreludeFailure(preludeOk, k + 1)
  }

  /** What reset_database does; `schema` is None when the file cannot be read. */
  function ResetSpec(schema: Option<string>, preludeOk: nat -> bool, schemaOk: (nat, string) -> bool): Result<Outcome, ResetError>
  {
    var failure := FirstPreludeFailure(preludeOk, 0);
    if failure.Some? then Err(PreludeFailed(failure.value))
    else if schema.None? then Err(SchemaUnreadable)
    else
      var run := Run(Statements(schema.value), schemaOk);
      Ok(Outcome(Prelude + run.0, run.1))
  }

  /** The prelude, then statements the skip rule lets through. */
  predicate PreludeThenExecutable(issued: seq<string>)
  {
    && |Prelude| <= |issued|
    && issued[..|Prelude|] == Prelude
    && forall i :: |Prelude| <= i < |issued| ==> Executes(issued[i])
  }

  lemma PreludeBeforeFiltered(sent: seq<string>)
    requires forall s :: s in sent ==> Executes(s)
    ensures PreludeThenExecutable(Prelude + sent)
  {
    var issued := Prelude + sent;
    forall i | |Prelude| <= i < |issued| ensures Executes(issued[i]) {
      assert issued[i] == sent[i - |Prelude|];
      assert sent[i - |Prelude|] in sent;
    }
    assert issued[..|Prelude|] == Prelude;
  }

  /** A successful reset sends the prelude, then no database-level statement of the schema. */
  lemma ResetIssuesNoDatabaseStatement(schema: Option<string>, preludeOk: nat -> bool, schemaOk: (nat, string) -> bool)
    ensures var r := ResetSpec(schema, preludeOk, schemaOk);
      r.Ok? ==> PreludeThenExecutable(r.value.issued)
  {
    if FirstPreludeFailure(preludeOk, 0).None? && schema.Some? {
      var stmts := Statements(schema.value);
      RunIssuesAllExecutable(stmts, schemaOk);
      PreludeBeforeFiltered(Run(stmts, schemaOk).0);
    }
  }

  /** A schema made only of database-level statements runs nothing after the prelude. */
  lemma OnlyDatabaseStatementsRunNothing(stmts: seq<string>, schemaOk: (nat, string) -> bool)
    requires forall s :: s in stmts ==> Skip(s)
    ensures Run(stmts, schemaOk) == ([], [])
  {
    RunIssuesAllExecutable(stmts, schemaOk);
    FilterNone(Executes, stmts);
  }

  /** reset_database: the prelude, the split, and the loop that carries on past failures. */
  method ResetDatabase(schema: Option<string>, preludeOk: nat -> bool, schemaOk: (nat, string) -> bool)
    returns (r: Result<Outcome, ResetError>)
    ensures r == ResetSpec(schema, preludeOk, schemaOk)
  {
    var k := 0;
    while k < |Prelude|
      invariant 0 <= k <= |Prelude|
      invariant FirstPreludeFailure(preludeOk, 0) == FirstPreludeFailure(preludeOk, k)
    {
      if !preludeOk(k) {
        return Err(PreludeFailed(k));
      }
      k := k + 1;
    }
    if schema.None? {
      return Err(SchemaUnreadable);
    }
    var stmts := Statements(schema.value);
    var issued, failures := ExecuteStatements(stmts, schemaOk);
    r := Ok(Outcome(Prelude + issued, failures));
  }

  /** The loop over the schema statements. */
  method ExecuteStatements(stmts: seq<string>, schemaOk: (nat, string) -> bool) returns (issued: seq<string>, failures: seq<nat>)
    ensures (issued, failures) == Run(stmts, schemaOk)
  {
    issued, failures := [], [];
    var i := 0;
    while i < |stmts|
      invariant 0 <= i <= |stmts|
      invariant (issued, failures) == Run(stmts[..i], schemaOk)
    {
      assert stmts[..i + 1][..i] == stmts[..i];
      var stmt := stmts[i];
      if Executes(stmt) {
        issued := issued + [stmt];
        if !schemaOk(i, stmt) {
          failures := failures + [i];
        }
      }
      i := i + 1;
    }
    assert stmts[..|stmts|] == stmts;
  }
}
