/**
 * train_model in train.py: choose the data source (API, else the fallback
 * CSV), validate the requested target and feature columns, coerce features to
 * numbers, impute them (group median by area, then column median, then 0),
 * add the rainfall x temperature interaction, scale, prepare the target
 * (drop incomplete rows, or impute the target median), refuse fewer than 100
 * samples, and package the fitted model with its feature columns.
 *
 * Fuzzy column matching, the fitted scaler and the train/test split plus
 * regressor fit are parameters of the model (closeMatch, scale, fit).
 */
module Train {
  import opened Wrappers
  import opened Frames
  import opened Stats

  // ---------------------------------------------------------------------------
  // Frames and data acquisition
  // ---------------------------------------------------------------------------

  /** A data frame column by column: names, one column of cells per name, and the row count. */
  datatype Frame = Frame(names: seq<string>, columns: seq<seq<Cell>>, height: nat)

  predicate FrameWellFormed(f: Frame)
  {
    && |f.columns| == |f.names|
    && NoDuplicates(f.names)
    && forall c :: 0 <= c < |f.columns| ==> |f.columns[c]| == f.height
  }

  /** DataFrame.empty: no rows or no columns. */
  predicate IsEmpty(f: Frame)
  {
    f.height == 0 || |f.names| == 0
  }

  function ColumnOf(f: Frame, name: string): (col: seq<Cell>)
    requires FrameWellFormed(f) && name in f.names
    ensures |col| == f.height
  {
    f.columns[IndexOf(f.names, name)]
  }

  datatype Source = Api | Csv

  datatype TrainError =
    | CsvMissing                              // the fallback CSV does not exist
    | MissingTarget(target: string)
    | MissingFeatures(missing: seq<string>)
    | DuplicateFeatures                       // pd.to_numeric is handed a frame, not a column
    | TooFewSamples(samples: nat)
    | TargetArrayHasNoValues                  // drop_na path: y.values on a numpy array

  /**
   * Step 1: the API frame when the fetch succeeded and is not empty, otherwise
   * the CSV file (which may itself be empty); fetched is None when the fetch
   * raised, csv is None when the file does not exist.
   */
  function AcquireData(fetched: Option<Frame>, csv: Option<Frame>): (r: Result<(Frame, Source), TrainError>)
    ensures r.Ok? && r.value.1 == Api <==> fetched.Some? && !IsEmpty(fetched.value)
    ensures r.Ok? && r.value.1 == Api ==> r.value.0 == fetched.value
    ensures r.Ok? && r.value.1 == Csv ==> csv.Some? && r.value.0 == csv.value
    ensures r.Err? <==> (fetched.None? || IsEmpty(fetched.value)) && csv.None?
  {
    if fetched.Some? && !IsEmpty(fetched.value) then Ok((fetched.value, Api))
    else if csv.Some? then Ok((csv.value, Csv))
    else Err(CsvMissing)
  }

  // ---------------------------------------------------------------------------
  // Column validation
  // ---------------------------------------------------------------------------

  /** A requested feature after auto-mapping: the close match of a missing feature, if any. */
  function Suggest(f: string, names: seq<string>, closeMatch: (string, seq<string>) -> Option<string>): string
  {
    if f !in names && closeMatch(f, names).Some? then closeMatch(f, names).value else f
  }

  function SuggestAll(features: seq<string>, names: seq<string>, closeMatch: (string, seq<string>) -> Option<string>): (r: seq<string>)
    ensures |r| == |features|
    ensures forall i :: 0 <= i < |features| ==> r[i] == Suggest(features[i], names, closeMatch)
  {
    seq(|features|, i requires 0 <= i < |features| => Suggest(features[i], names, closeMatch))
  }

  predicate HasSuggestion(missing: seq<string>, names: seq<string>, closeMatch: (string, seq<string>) -> Option<string>)
  {
    exists f :: f in missing && closeMatch(f, names).Some?
  }

  /** Membership in the frame's columns, as a filter. */
  function InFrame(names: seq<string>): string -> bool
  {
    (c: string) => c in names
  }

  /** Absence from the frame's columns, as a filter. */
  function NotInFrame(names: seq<string>): string -> bool
  {
    (c: string) => c !in names
  }

  /**
   * Step 3: the target must exist; missing features are auto-mapped when any
   * has a close match, dropped when allowed, and an error otherwise.
   */
  function ResolveFeatures(
    names: seq<string>, features: seq<string>, target: string, allowMissing: bool,
    closeMatch: (string, seq<string>) -> Option<string>): (r: Result<seq<string>, TrainError>)
    ensures target !in names ==> r == Err(MissingTarget(target))
    ensures r.Ok? ==> target in names && forall f :: f in r.value ==> f in names
    ensures r.Ok? ==> |r.value| <= |features| && forall f :: f in features && f in names ==> f in r.value
    ensures r.Ok? ==> forall c :: c in r.value ==>
      c in features || exists f :: f in features && f !in names && closeMatch(f, names) == Some(c)
    ensures target in names && (forall f :: f in features ==> f in names) ==> r == Ok(features)
    ensures (target in names && (exists f :: f in features && f !in names)
             && HasSuggestion(Filter(NotInFrame(names), features), names, closeMatch)) ==>
      r == Ok(Filter(InFrame(names), SuggestAll(features, names, closeMatch)))
    ensures (target in names && (exists f :: f in features && f !in names)
             && !HasSuggestion(Filter(NotInFrame(names), features), names, closeMatch) && allowMissing) ==>
      r == Ok(Filter(InFrame(names), features))
    ensures r.Err? && target in names <==>
      && target in names
      && !allowMissing
      && (exists f :: f in features && f !in names)
      && !HasSuggestion(Filter(NotInFrame(names), features), names, closeMatch)
  {
    if target !in names then Err(MissingTarget(target))
    else
      var missing := Filter(NotInFrame(names), features);
      if missing == [] then
        assert forall f :: f in features ==> f in names;
        Ok(features)
      else if HasSuggestion(missing, names, closeMatch) then
        var mapped := SuggestAll(features, names, closeMatch);
        assert forall f :: f in features && f in names ==> f in mapped by {
          forall f | f in features && f in names ensures f in mapped {
            var i :| 0 <= i < |features| && features[i] == f;
            assert mapped[i] == f;
          }
        }
        assert forall c :: c in mapped ==>
          c in features || exists f :: f in features && f !in names && closeMatch(f, names) == Some(c) by {
          forall c | c in mapped
            ensures c in features || exists f :: f in features && f !in names && closeMatch(f, names) == Some(c)
          {
            var i :| 0 <= i < |mapped| && mapped[i] == c;
            assert features[i] in features;
          }
        }
        var kept := Filter(InFrame(names), mapped);
        assert forall f :: f in kept <==> f in mapped && f in names;
        assert |kept| <= |mapped| == |features|;
        assert missing[0] in features && missing[0] !in names;
        Ok(kept)
      else if allowMissing then
        var kept := Filter(InFrame(names), features);
        assert forall f :: f in kept <==> f in features && f in names;
        assert missing[0] in features && missing[0] !in names;
        Ok(kept)
      else
        assert missing[0] in features;
        Err(MissingFeatures(missing))
  }

  /**
   * A missing feature whose close match is a column comes back as that
   * column, while the target is present.
   */
  lemma ResolveAutoMaps(
    names: seq<string>, features: seq<string>, target: string, allowMissing: bool,
    closeMatch: (string, seq<string>) -> Option<string>, i: nat)
    requires target in names && i < |features| && features[i] !in names
    requires closeMatch(features[i], names).Some? && closeMatch(features[i], names).value in names
    ensures var r := ResolveFeatures(names, features, target, allowMissing, closeMatch);
      r.Ok? && closeMatch(features[i], names).value in r.value
  {
    var missing := Filter(NotInFrame(names), features);
    assert features[i] in missing;
    var mapped := SuggestAll(features, names, closeMatch);
    assert mapped[i] == closeMatch(features[i], names).value;
    assert mapped[i] in Filter(InFrame(names), mapped);
  }

  // ---------------------------------------------------------------------------
  // Numeric feature matrix
  // ---------------------------------------------------------------------------

  /** A numeric frame: column names, columns of optional numbers (None is NaN), row count. */
  datatype Matrix = Matrix(names: seq<string>, columns: seq<seq<Option<real>>>, height: nat)

  predicate MatrixWellFormed(m: Matrix)
  {
    |m.columns| == |m.names| && forall c :: 0 <= c < |m.columns| ==> |m.columns[c]| == m.height
  }

  /** No NaN anywhere. */
  predicate Complete(m: Matrix)
  {
    forall c, i :: 0 <= c < |m.columns| && 0 <= i < |m.columns[c]| ==> m.columns[c][i].Some?
  }

  function MatrixColumn(m: Matrix, name: string): (col: seq<Option<real>>)
    requires MatrixWellFormed(m) && name in m.names
    ensures |col| == m.height
  {
    m.columns[IndexOf(m.names, name)]
  }

  /** pd.to_numeric(column, errors='coerce'). */
  function NumericColumn(col: seq<Cell>): (r: seq<Option<real>>)
    ensures |r| == |col| && forall i :: 0 <= i < |col| ==> r[i] == ToNumeric(col[i])
  {
    seq(|col|, i requires 0 <= i < |col| => ToNumeric(col[i]))
  }

  /** df[features] with every column coerced to numbers. */
  function SelectNumeric(f: Frame, features: seq<string>): (m: Matrix)
    requires FrameWellFormed(f) && forall x :: x in features ==> x in f.names
    ensures MatrixWellFormed(m) && m.names == features && m.height == f.height
    ensures forall c :: 0 <= c < |features| ==> m.columns[c] == NumericColumn(ColumnOf(f, features[c]))
  {
    Matrix(features, seq(|features|, c requires 0 <= c < |features| => NumericColumn(ColumnOf(f, features[c]))), f.height)
  }

  // ---------------------------------------------------------------------------
  // Imputation
  // ---------------------------------------------------------------------------

  const AreaColumn: string := "area"

  /** v lies between two observed values of col. */
  ghost predicate Observed(v: real, col: seq<Option<real>>)
  {
    && (exists j :: 0 <= j < |col| && col[j].Some? && col[j].value <= v)
    && (exists k :: 0 <= k < |col| && col[k].Some? && v <= col[k].value)
  }

  predicate AnyObserved(col: seq<Option<real>>)
  {
    exists j :: 0 <= j < |col| && col[j].Some?
  }

  /** The observed values of the rows whose area is key. */
  function GroupValues(col: seq<Option<real>>, areas: seq<Cell>, key: Cell): (r: seq<real>)
    requires |areas| == |col|
    ensures forall v :: v in r ==> exists j :: 0 <= j < |col| && areas[j] == key && col[j] == Some(v)
    ensures forall j :: 0 <= j < |col| && areas[j] == key && col[j].Some? ==> col[j].value in r
  {
    if col == [] then []
    else
      var rest := GroupValues(col[1..], areas[1..], key);
      assert forall v :: v in rest ==> exists j :: 0 <= j < |col| && areas[j] == key && col[j] == Some(v) by {
        forall v | v in rest ensures exists j :: 0 <= j < |col| && areas[j] == key && col[j] == Some(v) {
          var j :| 0 <= j < |col| - 1 && areas[1..][j] == key && col[1..][j] == Some(v);
          assert areas[j + 1] == key && col[j + 1] == Some(v);
        }
      }
      assert forall j :: 1 <= j < |col| && areas[j] == key && col[j].Some? ==> col[j].value in rest by {
        forall j | 1 <= j < |col| && areas[j] == key && col[j].Some? ensures col[j].value in rest {
          assert areas[1..][j - 1] == key && col[1..][j - 1] == col[j];
        }
      }
      (if areas[0] == key && col[0].Some? then [col[0].value] else []) + rest
  }

  /** v lies between two observed values of the rows whose area is key. */
  ghost predicate ObservedInArea(v: real, col: seq<Option<real>>, areas: seq<Cell>, key: Cell)
    requires |areas| == |col|
  {
    && (exists j :: 0 <= j < |col| && areas[j] == key && col[j].Some? && col[j].value <= v)
    && (exists k :: 0 <= k < |col| && areas[k] == key && col[k].Some? && v <= col[k].value)
  }

  lemma MedianObserved(g: seq<real>, col: seq<Option<real>>)
    requires |g| > 0 && forall v :: v in g ==> exists j :: 0 <= j < |col| && col[j] == Some(v)
    ensures Observed(Median(g), col)
  {
    var m := Median(g);
    var i :| 0 <= i < |g| && g[i] <= m;
    var k :| 0 <= k < |g| && m <= g[k];
    assert g[i] in g && g[k] in g;
  }

  /** The median of an area's observed values lies between two of them. */
  lemma MedianInArea(col: seq<Option<real>>, areas: seq<Cell>, key: Cell)
    requires |areas| == |col| && GroupValues(col, areas, key) != []
    ensures ObservedInArea(Median(GroupValues(col, areas, key)), col, areas, key)
    ensures Observed(Median(GroupValues(col, areas, key)), col)
  {
    var g := GroupValues(col, areas, key);
    var m := Median(g);
    var i :| 0 <= i < |g| && g[i] <= m;
    var k :| 0 <= k < |g| && m <= g[k];
    assert g[i] in g && g[k] in g;
  }

  /**
   * groupby(df['area'])[c].transform(lambda x: x.fillna(x.median())): a
   * missing value takes its area's median when the area has observations;
   * rows without an area belong to no group and come back missing.
   */
  function GroupFill(col: seq<Option<real>>, areas: seq<Cell>): (r: seq<Option<real>>)
    requires |areas| == |col|
    ensures |r| == |col|
    ensures forall i :: 0 <= i < |col| && !areas[i].Null? && col[i].Some? ==> r[i] == col[i]
    ensures forall i :: 0 <= i < |col| && areas[i].Null? ==> r[i].None?
    ensures forall i :: 0 <= i < |col| && !areas[i].Null? && col[i].None? ==>
      && (r[i].Some? <==> GroupValues(col, areas, areas[i]) != [])
      && (r[i].Some? ==> r[i].value == Median(GroupValues(col, areas, areas[i])))
      && (r[i].Some? ==> ObservedInArea(r[i].value, col, areas, areas[i]))
    ensures forall i :: 0 <= i < |r| && r[i].Some? ==> Observed(r[i].value, col)
  {
    var r := seq(|col|, i requires 0 <= i < |col| =>
      if areas[i].Null? then None
      else if col[i].Some? then col[i]
      else
        var g := GroupValues(col, areas, areas[i]);
        if g == [] then None else Some(Median(g)));
    forall i | 0 <= i < |r| && r[i].Some? && col[i].None?
      ensures ObservedInArea(r[i].value, col, areas, areas[i]) && Observed(r[i].value, col)
    {
      MedianInArea(col, areas, areas[i]);
    }
    assert forall i :: 0 <= i < |r| && r[i].Some? ==> Observed(r[i].value, col) by {
      forall i | 0 <= i < |r| && r[i].Some? && col[i].Some? ensures Observed(r[i].value, col) {
        assert col[i].value <= r[i].value <= col[i].value;
      }
    }
    r
  }

  /** fillna(median), the median taken over the observed values, or 0 when there are none. */
  function FillMissing(col: seq<Option<real>>): (r: seq<Option<real>>)
    ensures |r| == |col|
    ensures forall i :: 0 <= i < |r| ==> r[i].Some?
    ensures forall i :: 0 <= i < |col| && col[i].Some? ==> r[i] == col[i]
    ensures forall i :: 0 <= i < |col| && col[i].None? ==>
      if AnyObserved(col) then Observed(r[i].value, col) else r[i].value == 0.0
    ensures forall i :: 0 <= i < |col| && col[i].None? && Present(col) != [] ==> r[i].value == Median(Present(col))
  {
    var vals := Present(col);
    var med := if vals == [] then 0.0 else Median(vals);
    assert vals != [] ==> Observed(med, col) by {
      if vals != [] {
        MedianObserved(vals, col);
      }
    }
    assert AnyObserved(col) ==> vals != [] by {
      if AnyObserved(col) {
        var j :| 0 <= j < |col| && col[j].Some?;
        assert col[j] in col;
        assert col[j].value in vals;
      }
    }
    seq(|col|, i requires 0 <= i < |col| => if col[i].Some? then col[i] else Some(med))
  }

  /** The imputation of one feature column; areas is the frame's 'area' column when it has one. */
  function Impute(col: seq<Option<real>>, areas: Option<seq<Cell>>): seq<Option<real>>
    requires areas.Some? ==> |areas.value| == |col|
  {
    FillMissing(if areas.Some? then GroupFill(col, areas.value) else col)
  }

  lemma ObservedMonotone(v: real, a: seq<Option<real>>, b: seq<Option<real>>)
    requires Observed(v, a)
    requires forall i :: 0 <= i < |a| && a[i].Some? ==> Observed(a[i].value, b)
    ensures Observed(v, b)
  {
    var j :| 0 <= j < |a| && a[j].Some? && a[j].value <= v;
    var k :| 0 <= k < |a| && a[k].Some? && v <= a[k].value;
    var j' :| 0 <= j' < |b| && b[j'].Some? && b[j'].value <= a[j].value;
    var k' :| 0 <= k' < |b| && b[k'].Some? && a[k].value <= b[k'].value;
  }

  /**
   * Imputation leaves no NaN, keeps every observed value of a row that has an
   * area (or of every row, without an area column), and fills every gap with
   * a value between two observed values of the column, or with 0.
   */
  lemma ImputeProperties(col: seq<Option<real>>, areas: Option<seq<Cell>>)
    requires areas.Some? ==> |areas.value| == |col|
    ensures var r := Impute(col, areas);
      && |r| == |col|
      && (forall i :: 0 <= i < |r| ==> r[i].Some?)
      && (forall i :: 0 <= i < |col| && col[i].Some? && (areas.None? || !areas.value[i].Null?) ==> r[i] == col[i])
      && (forall i :: 0 <= i < |r| ==> r[i].value == 0.0 || Observed(r[i].value, col))
  {
    var mid := if areas.Some? then GroupFill(col, areas.value) else col;
    var r := Impute(col, areas);
    forall i | 0 <= i < |r| ensures r[i].value == 0.0 || Observed(r[i].value, col) {
      if mid[i].Some? {
        if areas.Some? {
          assert Observed(mid[i].value, col);
        } else {
          assert col[i].value <= r[i].value <= col[i].value;
        }
      } else if AnyObserved(mid) {
        if areas.Some? {
          ObservedMonotone(r[i].value, mid, col);
        }
      }
    }
  }

  function ImputeAll(m: Matrix, areas: Option<seq<Cell>>): (r: Matrix)
    requires MatrixWellFormed(m) && (areas.Some? ==> |areas.value| == m.height)
    ensures MatrixWellFormed(r) && r.names == m.names && r.height == m.height
  {
    m.(columns := seq(|m.columns|, c requires 0 <= c < |m.columns| => Impute(m.columns[c], areas)))
  }

  // ---------------------------------------------------------------------------
  // Interaction, scaling, target
  // ---------------------------------------------------------------------------

  const RainfallName: string := "rainfall"
  const TemperatureName: string := "temperature"
  const RainTemp: string := "rain_temp_interact"

  /** NaN-propagating multiplication. */
  function Product(a: Option<real>, b: Option<real>): Option<real>
  {
    if a.Some? && b.Some? then Some(a.value * b.value) else None
  }

  predicate HasInteractionInputs(names: seq<string>)
  {
    RainfallName in names && TemperatureName in names
  }

  /**
   * X['rain_temp_interact'] = X['rainfall'] * X['temperature'] when both
   * columns are features: an existing column of that name is overwritten in
   * place, otherwise the column is appended.
   */
  function AddInteraction(m: Matrix): (r: Matrix)
    requires MatrixWellFormed(m) && NoDuplicates(m.names)
    ensures MatrixWellFormed(r) && NoDuplicates(r.names) && r.height == m.height
    ensures !HasInteractionInputs(m.names) ==> r == m
    ensures HasInteractionInputs(m.names) ==>
      && r.names == (if RainTemp in m.names then m.names else m.names + [RainTemp])
      && forall i :: 0 <= i < m.height ==>
           MatrixColumn(r, RainTemp)[i] == Product(MatrixColumn(m, RainfallName)[i], MatrixColumn(m, TemperatureName)[i])
    ensures HasInteractionInputs(m.names) ==>
      forall n :: n in m.names && n != RainTemp ==> MatrixColumn(r, n) == MatrixColumn(m, n)
  {
    if HasInteractionInputs(m.names) then
      var rain := MatrixColumn(m, RainfallName);
      var temp := MatrixColumn(m, TemperatureName);
      var prod := seq(m.height, i requires 0 <= i < m.height => Product(rain[i], temp[i]));
      if RainTemp in m.names then
        SetColumnFacts(m, RainTemp, prod);
        m.(columns := m.columns[IndexOf(m.names, RainTemp) := prod])
      else
        AppendColumnFacts(m, RainTemp, prod);
        Matrix(m.names + [RainTemp], m.columns + [prod], m.height)
    else m
  }

  /** Overwriting the column of a name changes that column only. */
  lemma SetColumnFacts(m: Matrix, name: string, col: seq<Option<real>>)
    requires MatrixWellFormed(m) && name in m.names && |col| == m.height
    ensures var r := m.(columns := m.columns[IndexOf(m.names, name) := col]);
      && MatrixWellFormed(r) && MatrixColumn(r, name) == col
      && forall n :: n in m.names && n != name ==> MatrixColumn(r, n) == MatrixColumn(m, n)
  {
  }

  /** Appending a column under a new name keeps the names distinct and the other columns. */
  lemma AppendColumnFacts(m: Matrix, name: string, col: seq<Option<real>>)
    requires MatrixWellFormed(m) && NoDuplicates(m.names) && name !in m.names && |col| == m.height
    ensures var r := Matrix(m.names + [name], m.columns + [col], m.height);
      && MatrixWellFormed(r) && NoDuplicates(r.names) && MatrixColumn(r, name) == col
      && forall n :: n in m.names ==> MatrixColumn(r, n) == MatrixColumn(m, n)
  {
    var names := m.names + [name];
    AppendDistinct(m.names, [name]);
    assert IndexOf(names, name) == |m.names| by {
      assert names[..|m.names|] == m.names;
    }
    forall n | n in m.names ensures IndexOf(names, n) == IndexOf(m.names, n) {
      var k := IndexOf(m.names, n);
      assert names[k] == n;
      assert names[..k] == m.names[..k];
    }
  }

  /** StandardScaler.fit_transform, column by column; NaN stays NaN. */
  function ScaleAll(m: Matrix, scale: (string, real) -> real): (r: Matrix)
    requires MatrixWellFormed(m)
    ensures MatrixWellFormed(r) && r.names == m.names && r.height == m.height
    ensures forall c, i :: 0 <= c < |m.columns| && 0 <= i < m.height ==>
      r.columns[c][i] == (if m.columns[c][i].Some? then Some(scale(m.names[c], m.columns[c][i].value)) else None)
  {
    m.(columns := seq(|m.columns|, c requires 0 <= c < |m.columns| =>
      seq(|m.columns[c]|, i requires 0 <= i < |m.columns[c]| =>
        if m.columns[c][i].Some? then Some(scale(m.names[c], m.columns[c][i].value)) else None)))
  }

  /** The target column after pd.to_numeric(errors='coerce'), its median filled in (0 when all NaN). */
  function FillTarget(y: seq<Option<real>>): (r: seq<real>)
    ensures |r| == |y|
    ensures forall i :: 0 <= i < |y| && y[i].Some? ==> r[i] == y[i].value
    ensures forall i :: 0 <= i < |y| && y[i].None? ==>
      && (Present(y) == [] ==> r[i] == 0.0)
      && (Present(y) != [] ==> r[i] == Median(Present(y)) && Observed(r[i], y))
  {
    var vals := Present(y);
    var med := if vals == [] then 0.0 else Median(vals);
    assert vals != [] ==> Observed(med, y) by {
      if vals != [] {
        MedianObserved(vals, y);
      }
    }
    seq(|y|, i requires 0 <= i < |y| => if y[i].Some? then y[i].value else med)
  }

  /** Row i has every feature and the target. */
  predicate CompleteRow(m: Matrix, y: seq<Option<real>>, i: int)
    requires MatrixWellFormed(m) && |y| == m.height
  {
    0 <= i < m.height && y[i].Some? && forall c :: 0 <= c < |m.columns| ==> m.columns[c][i].Some?
  }

  function Range(n: nat): (r: seq<int>)
    ensures |r| == n && forall i :: 0 <= i < n ==> r[i] == i
  {
    seq(n, i => i)
  }

  /** The rows DataFrame.dropna() keeps, in order. */
  function KeptRows(m: Matrix, y: seq<Option<real>>): (keep: seq<int>)
    requires MatrixWellFormed(m) && |y| == m.height
    ensures forall k :: 0 <= k < |keep| ==> CompleteRow(m, y, keep[k])
    ensures forall i :: CompleteRow(m, y, i) <==> i in keep
    ensures IsSubsequence(keep, Range(m.height)) && |keep| <= m.height
  {
    FilterIsSubsequence((i: int) => CompleteRow(m, y, i), Range(m.height));
    assert forall i :: CompleteRow(m, y, i) ==> i in Range(m.height) by {
      forall i | CompleteRow(m, y, i) ensures i in Range(m.height) {
        assert Range(m.height)[i] == i;
      }
    }
    Filter((i: int) => CompleteRow(m, y, i), Range(m.height))
  }

  /** drop_na: keep exactly the rows with every feature and the target. */
  function DropIncomplete(m: Matrix, y: seq<Option<real>>): (r: (Matrix, seq<real>))
    requires MatrixWellFormed(m) && |y| == m.height
    ensures MatrixWellFormed(r.0) && Complete(r.0) && r.0.names == m.names
    ensures |r.1| == r.0.height == |KeptRows(m, y)|
    ensures forall k :: 0 <= k < r.0.height ==>
      && Some(r.1[k]) == y[KeptRows(m, y)[k]]
      && forall c :: 0 <= c < |m.columns| ==> r.0.columns[c][k] == m.columns[c][KeptRows(m, y)[k]]
  {
    var keep := KeptRows(m, y);
    var cols := seq(|m.columns|, c requires 0 <= c < |m.columns| =>
      seq(|keep|, k requires 0 <= k < |keep| => m.columns[c][keep[k]]));
    (Matrix(m.names, cols, |keep|), seq(|keep|, k requires 0 <= k < |keep| => y[keep[k]].value))
  }

  // ---------------------------------------------------------------------------
  // The pipeline
  // ---------------------------------------------------------------------------

  /** The request fields this model uses; test_size, random_state and n_estimators go to fit. */
  datatype TrainRequest = TrainRequest(
    featureColumns: seq<string>, targetColumn: string, allowMissingFeatures: bool, dropNa: bool)

  /** The saved bundle: model, final feature columns, target column, fitted scaler. */
  datatype Bundle<M> = Bundle(model: M, featureColumns: seq<string>, targetColumn: string, scaler: (string, real) -> real)

  datatype TrainOutcome<M> = TrainOutcome(bundle: Bundle<M>, samples: nat, source: Source)

  const MinSamples: nat := 100

  function AreasOf(f: Frame): (r: Option<seq<Cell>>)
    requires FrameWellFormed(f)
    ensures r.Some? ==> |r.value| == f.height
  {
    if AreaColumn in f.names then Some(ColumnOf(f, AreaColumn)) else None
  }

  /** Steps 4 to 6: the feature matrix and target vector handed to the split and fit. */
  function Prepare(f: Frame, features: seq<string>, target: string, dropNa: bool, scale: (string, real) -> real): (r: (Matrix, seq<real>))
    requires FrameWellFormed(f) && NoDuplicates(features)
    requires (forall x :: x in features ==> x in f.names) && target in f.names
    ensures MatrixWellFormed(r.0) && r.0.height == |r.1|
  {
    var x0 := SelectNumeric(f, features);
    var x1 := if dropNa then x0 else ImputeAll(x0, AreasOf(f));
    var x2 := ScaleAll(AddInteraction(x1), scale);
    var y := NumericColumn(ColumnOf(f, target));
    if dropNa then DropIncomplete(x2, y) else (x2, FillTarget(y))
  }

  /** What train_model returns, from the fetched frame and the CSV frame. */
  function TrainSpec<M>(
    fetched: Option<Frame>, csv: Option<Frame>, req: TrainRequest,
    closeMatch: (string, seq<string>) -> Option<string>, scale: (string, real) -> real,
    fit: (Matrix, seq<real>) -> M): Result<TrainOutcome<M>, TrainError>
    requires fetched.Some? ==> FrameWellFormed(fetched.value)
    requires csv.Some? ==> FrameWellFormed(csv.value)
  {
    match AcquireData(fetched, csv)
    case Err(e) => Err(e)
    case Ok((f, source)) =>
      match ResolveFeatures(f.names, req.featureColumns, req.targetColumn, req.allowMissingFeatures, closeMatch)
      case Err(e) => Err(e)
      case Ok(features) =>
        if !NoDuplicates(features) then Err(DuplicateFeatures)
        else
          var (x, y) := Prepare(f, features, req.targetColumn, req.dropNa, scale);
          if |y| < MinSamples then Err(TooFewSamples(|y|))
          else Ok(TrainOutcome(Bundle(fit(x, y), x.names, req.targetColumn, scale), |y|, source))
  }

  /** for col in X_raw.columns: X_raw[col] = pd.to_numeric(X_raw[col], errors="coerce") */
  method ConvertFeatures(f: Frame, features: seq<string>) returns (x: Matrix)
    requires FrameWellFormed(f) && forall n :: n in features ==> n in f.names
    ensures x == SelectNumeric(f, features)
  {
    var columns: seq<seq<Option<real>>> := [];
    var c := 0;
    while c < |features|
      invariant 0 <= c <= |features| && |columns| == c
      invariant forall k :: 0 <= k < c ==> columns[k] == NumericColumn(ColumnOf(f, features[k]))
    {
      columns := columns + [NumericColumn(ColumnOf(f, features[c]))];
      c := c + 1;
    }
    x := Matrix(features, columns, f.height);
  }

  /** The imputation loop: each numeric column in turn is group-filled, then median-filled. */
  method ImputeColumns(x0: Matrix, areas: Option<seq<Cell>>) returns (x: Matrix)
    requires MatrixWellFormed(x0) && (areas.Some? ==> |areas.value| == x0.height)
    ensures x == ImputeAll(x0, areas)
  {
    x := x0;
    var j := 0;
    while j < |x.columns|
      invariant 0 <= j <= |x.columns| == |x0.columns|
      invariant x.names == x0.names && x.height == x0.height
      invariant forall k :: 0 <= k < j ==> x.columns[k] == Impute(x0.columns[k], areas)
      invariant forall k :: j <= k < |x.columns| ==> x.columns[k] == x0.columns[k]
    {
      var filled := ImputeColumn(x.columns[j], areas);
      x := x.(columns := x.columns[j := filled]);
      j := j + 1;
    }
  }

  /** One pass of the imputation loop: the group fill, then the median fill. */
  method ImputeColumn(col: seq<Option<real>>, areas: Option<seq<Cell>>) returns (filled: seq<Option<real>>)
    requires areas.Some? ==> |areas.value| == |col|
    ensures filled == Impute(col, areas)
  {
    var grouped := col;
    if areas.Some? {
      grouped := GroupFill(col, areas.value);
    }
    filled := FillMissing(grouped);
  }

  /** train_model: acquisition, validation, the column loops, target handling and the sample guard. */
  method TrainModel<M>(
    fetched: Option<Frame>, csv: Option<Frame>, req: TrainRequest,
    closeMatch: (string, seq<string>) -> Option<string>, scale: (string, real) -> real,
    fit: (Matrix, seq<real>) -> M) returns (r: Result<TrainOutcome<M>, TrainError>)
    requires fetched.Some? ==> FrameWellFormed(fetched.value)
    requires csv.Some? ==> FrameWellFormed(csv.value)
    ensures r == TrainSpec(fetched, csv, req, closeMatch, scale, fit)
  {
    var acquired := AcquireData(fetched, csv);
    if acquired.Err? {
      return Err(acquired.error);
    }
    var (f, source) := acquired.value;
    var resolved := ResolveFeatures(f.names, req.featureColumns, req.targetColumn, req.allowMissingFeatures, closeMatch);
    if resolved.Err? {
      return Err(resolved.error);
    }
    var features := resolved.value;
    if !NoDuplicates(features) {
      return Err(DuplicateFeatures);
    }

    var x := ConvertFeatures(f, features);
    if !req.dropNa {
      x := ImputeColumns(x, AreasOf(f));
    }
    var x2 := ScaleAll(AddInteraction(x), scale);
    var y := NumericColumn(ColumnOf(f, req.targetColumn));
    var prepared := if req.dropNa then DropIncomplete(x2, y) else (x2, FillTarget(y));
    assert prepared == Prepare(f, features, req.targetColumn, req.dropNa, scale);
    if |prepared.1| < MinSamples {
      return Err(TooFewSamples(|prepared.1|));
    }
    r := Ok(TrainOutcome(Bundle(fit(prepared.0, prepared.1), prepared.0.names, req.targetColumn, scale), |prepared.1|, source));
  }

  /**
   * train_model as written: on the drop_na path y is already the numpy array
   * temp["_target_"].values, so the later y.values raises AttributeError once
   * the sample guard has passed; every drop_na run fails.
   */
  function TrainAsWritten<M>(
    fetched: Option<Frame>, csv: Option<Frame>, req: TrainRequest,
    closeMatch: (string, seq<string>) -> Option<string>, scale: (string, real) -> real,
    fit: (Matrix, seq<real>) -> M): (r: Result<TrainOutcome<M>, TrainError>)
    requires fetched.Some? ==> FrameWellFormed(fetched.value)
    requires csv.Some? ==> FrameWellFormed(csv.value)
    ensures r.Ok? ==> !req.dropNa
  {
    var intended := TrainSpec(fetched, csv, req, closeMatch, scale, fit);
    if req.dropNa && intended.Ok? then Err(TargetArrayHasNoValues) else intended
  }

  /** A frame of 100 complete rows that the intended drop_na path trains on and the written one rejects. */
  lemma DropNaAlwaysFails<M>(closeMatch: (string, seq<string>) -> Option<string>, scale: (string, real) -> real,
    fit: (Matrix, seq<real>) -> M)
    ensures var f := Frame(["crop_yield"], [seq(100, i => Num(1.0))], 100);
      var req := TrainRequest([], "crop_yield", false, true);
      && TrainSpec(Some(f), None, req, closeMatch, scale, fit).Ok?
      && TrainSpec(Some(f), None, req, closeMatch, scale, fit).value.samples == 100
      && TrainAsWritten(Some(f), None, req, closeMatch, scale, fit) == Err(TargetArrayHasNoValues)
  {
    var f := Frame(["crop_yield"], [seq(100, i => Num(1.0))], 100);
    assert FrameWellFormed(f);
    var x := ScaleAll(AddInteraction(SelectNumeric(f, [])), scale);
    var y := NumericColumn(ColumnOf(f, "crop_yield"));
    assert forall i :: 0 <= i < 100 ==> CompleteRow(x, y, i);
    FilterAllKept((i: int) => CompleteRow(x, y, i), Range(100));
    assert |KeptRows(x, y)| == 100;
  }

  // ---------------------------------------------------------------------------
  // Properties of the pipeline
  // ---------------------------------------------------------------------------

  /** A feature with no numeric value at all is imputed to all zeros. */
  lemma NonNumericFeatureBecomesZero(col: seq<Option<real>>, areas: Option<seq<Cell>>)
    requires areas.Some? ==> |areas.value| == |col|
    requires forall i :: 0 <= i < |col| ==> col[i].None?
    ensures forall i :: 0 <= i < |col| ==> Impute(col, areas)[i] == Some(0.0)
  {
    var mid := if areas.Some? then GroupFill(col, areas.value) else col;
    assert !AnyObserved(col);
    assert !AnyObserved(mid);
  }

  lemma ImputeAllComplete(m: Matrix, areas: Option<seq<Cell>>)
    requires MatrixWellFormed(m) && (areas.Some? ==> |areas.value| == m.height)
    ensures Complete(ImputeAll(m, areas))
  {
    forall c | 0 <= c < |m.columns| {
      ImputeProperties(m.columns[c], areas);
    }
  }

  lemma AddInteractionComplete(m: Matrix)
    requires MatrixWellFormed(m) && NoDuplicates(m.names) && Complete(m)
    ensures Complete(AddInteraction(m))
  {
    if HasInteractionInputs(m.names) {
      var r := AddInteraction(m);
      forall c, i | 0 <= c < |r.columns| && 0 <= i < |r.columns[c]| ensures r.columns[c][i].Some? {
        if r.names[c] == RainTemp {
          assert IndexOf(r.names, RainTemp) == c;
          assert m.columns[IndexOf(m.names, RainfallName)][i].Some?;
          assert m.columns[IndexOf(m.names, TemperatureName)][i].Some?;
        } else {
          var n := r.names[c];
          assert n in m.names;
          assert IndexOf(r.names, n) == c;
          assert r.columns[c] == MatrixColumn(m, n);
        }
      }
    }
  }

  /**
   * The matrix handed to the fit has no NaN and one row per target value;
   * without drop_na it keeps every row of the frame.
   */
  lemma PrepareComplete(f: Frame, features: seq<string>, target: string, dropNa: bool, scale: (string, real) -> real)
    requires FrameWellFormed(f) && NoDuplicates(features)
    requires (forall x :: x in features ==> x in f.names) && target in f.names
    ensures var (x, y) := Prepare(f, features, target, dropNa, scale);
      && Complete(x)
      && |y| <= f.height
      && (!dropNa ==> |y| == f.height)
      && x.names == (if HasInteractionInputs(features) && RainTemp !in features then features + [RainTemp] else features)
  {
    var x0 := SelectNumeric(f, features);
    if !dropNa {
      var x1 := ImputeAll(x0, AreasOf(f));
      ImputeAllComplete(x0, AreasOf(f));
      AddInteractionComplete(x1);
    }
  }

  /**
   * What a successful training run promises: at least 100 samples, no more
   * samples than rows (exactly the rows without drop_na), the requested
   * target, and feature columns that exist in the frame, plus the interaction.
   */
  lemma TrainOutcomeFacts<M>(
    fetched: Option<Frame>, csv: Option<Frame>, req: TrainRequest,
    closeMatch: (string, seq<string>) -> Option<string>, scale: (string, real) -> real,
    fit: (Matrix, seq<real>) -> M)
    requires fetched.Some? ==> FrameWellFormed(fetched.value)
    requires csv.Some? ==> FrameWellFormed(csv.value)
    ensures var r := TrainSpec(fetched, csv, req, closeMatch, scale, fit);
      r.Ok? ==>
        var f := AcquireData(fetched, csv).value.0;
        && r.value.samples >= MinSamples
        && r.value.samples <= f.height
        && (!req.dropNa ==> r.value.samples == f.height)
        && r.value.bundle.targetColumn == req.targetColumn
        && req.targetColumn in f.names
        && NoDuplicates(r.value.bundle.featureColumns)
        && (forall c :: c in r.value.bundle.featureColumns ==> c in f.names || c == RainTemp)
  {
    var r := TrainSpec(fetched, csv, req, closeMatch, scale, fit);
    if r.Ok? {
      var f := AcquireData(fetched, csv).value.0;
      var features := ResolveFeatures(f.names, req.featureColumns, req.targetColumn, req.allowMissingFeatures, closeMatch).value;
      PreparedNames(f, features, req.targetColumn, req.dropNa, scale);
    }
  }

  /** The prepared matrix has distinct names drawn from the frame or the interaction column. */
  lemma PreparedNames(f: Frame, features: seq<string>, target: string, dropNa: bool, scale: (string, real) -> real)
    requires FrameWellFormed(f) && NoDuplicates(features)
    requires (forall x :: x in features ==> x in f.names) && target in f.names
    ensures var (x, y) := Prepare(f, features, target, dropNa, scale);
      && |y| <= f.height
      && (!dropNa ==> |y| == f.height)
      && NoDuplicates(x.names)
      && (forall c :: c in x.names ==> c in f.names || c == RainTemp)
  {
    PrepareComplete(f, features, target, dropNa, scale);
    if HasInteractionInputs(features) && RainTemp !in features {
      AppendDistinct(features, [RainTemp]);
    }
  }

  /** A frame with fewer than 100 rows can never train a model. */
  lemma TooFewRowsFails<M>(
    fetched: Option<Frame>, csv: Option<Frame>, req: TrainRequest,
    closeMatch: (string, seq<string>) -> Option<string>, scale: (string, real) -> real,
    fit: (Matrix, seq<real>) -> M)
    requires fetched.Some? ==> FrameWellFormed(fetched.value)
    requires csv.Some? ==> FrameWellFormed(csv.value)
    requires AcquireData(fetched, csv).Ok? && AcquireData(fetched, csv).value.0.height < MinSamples
    ensures TrainSpec(fetched, csv, req, closeMatch, scale, fit).Err?
  {
    TrainOutcomeFacts(fetched, csv, req, closeMatch, scale, fit);
  }
}
