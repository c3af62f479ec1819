/**
 * load_model and predict in train.py: the saved bundle is a dictionary of
 * named artifacts; loading checks the file exists and holds "model" and
 * "feature_columns"; predict reindexes one record to the saved column order
 * (absent or non-numeric values become 0) and returns the model's single
 * prediction. The regressor's prediction is the parameter `evaluate`.
 */
module Inference {
  import opened Wrappers
  import opened Frames
  import Train

  /** One value of the joblib bundle dictionary. */
  datatype Artifact<M> =
    | ModelEntry(model: M)
    | ColumnsEntry(columns: seq<string>)
    | TargetEntry(target: string)
    | ScalerEntry(scale: (string, real) -> real)

  type Bundle<M> = map<string, Artifact<M>>

  datatype InferenceError =
    | ModelNotFound                   // no file at the model path
    | Corrupted(missing: set<string>) // required keys absent from the bundle
    | WrongArtifact                   // a key holds something of another kind
    | ScalerMissing                   // only the corrected predict needs the scaler

  const ModelKey: string := "model"
  const ColumnsKey: string := "feature_columns"
  const TargetKey: string := "target_column"
  const ScalerKey: string := "scaler"

  function RequiredKeys(): set<string>
  {
    {ModelKey, ColumnsKey}
  }

  /** The dictionary train_model dumps. */
  function SaveBundle<M>(b: Train.Bundle<M>): (r: Bundle<M>)
    ensures RequiredKeys() <= r.Keys && ScalerKey in r
  {
    map[ModelKey := ModelEntry(b.model), ColumnsKey := ColumnsEntry(b.featureColumns),
        TargetKey := TargetEntry(b.targetColumn), ScalerKey := ScalerEntry(b.scaler)]
  }

  /** load_model: `stored` is None when the file does not exist. */
  function LoadModel<M>(stored: Option<Bundle<M>>): (r: Result<Bundle<M>, InferenceError>)
    ensures stored.None? <==> r == Err(ModelNotFound)
    ensures r.Ok? <==> stored.Some? && RequiredKeys() <= stored.value.Keys
    ensures r.Ok? ==> r.value == stored.value
    ensures stored.Some? && r.Err? ==>
      r.error.Corrupted? && r.error.missing != {} && r.error.missing <= RequiredKeys()
      && forall k :: k in r.error.missing <==> k in RequiredKeys() && k !in stored.value
  {
    if stored.None? then Err(ModelNotFound)
    else
      var missing := RequiredKeys() - stored.value.Keys;
      if missing != {} then Err(Corrupted(missing))
      else
        assert ModelKey !in missing && ColumnsKey !in missing;
        Ok(stored.value)
  }

  /** One value after pd.to_numeric(errors="coerce").fillna(0); reindex fills absent columns with 0. */
  function ValueOrZero(record: map<string, Cell>, name: string): real
  {
    if name in record && record[name].Num? then record[name].x else 0.0
  }

  /** The single row handed to model.predict: the record reindexed to the saved columns. */
  function ReindexVector(columns: seq<string>, record: map<string, Cell>): (v: seq<real>)
    ensures |v| == |columns|
    ensures forall i :: 0 <= i < |columns| ==>
      (columns[i] in record && record[columns[i]].Num? ==> v[i] == record[columns[i]].x)
      && (columns[i] !in record || !record[columns[i]].Num? ==> v[i] == 0.0)
  {
    seq(|columns|, i requires 0 <= i < |columns| => ValueOrZero(record, columns[i]))
  }

  /** predict as written: the raw reindexed record, neither scaled nor given the interaction. */
  function Predict<M>(stored: Option<Bundle<M>>, record: map<string, Cell>, evaluate: (M, seq<real>) -> real): (r: Result<real, InferenceError>)
    ensures LoadModel(stored).Err? ==> r == Err(LoadModel(stored).error)
    ensures r.Ok? ==>
      var b := stored.value;
      b[ModelKey].ModelEntry? && b[ColumnsKey].ColumnsEntry?
      && r.value == evaluate(b[ModelKey].model, ReindexVector(b[ColumnsKey].columns, record))
  {
    match LoadModel(stored)
    case Err(e) => Err(e)
    case Ok(b) =>
      if !b[ModelKey].ModelEntry? || !b[ColumnsKey].ColumnsEntry? then Err(WrongArtifact)
      else Ok(evaluate(b[ModelKey].model, ReindexVector(b[ColumnsKey].columns, record)))
  }

  /** A bundle saved by training predicts on the record reindexed to its feature columns. */
  lemma PredictAfterSave<M>(b: Train.Bundle<M>, record: map<string, Cell>, evaluate: (M, seq<real>) -> real)
    ensures Predict(Some(SaveBundle(b)), record, evaluate) == Ok(evaluate(b.model, ReindexVector(b.featureColumns, record)))
  {
  }

  /** Every feature the record does not supply, or supplies as text, is fed to the model as 0. */
  lemma UnknownFeaturesAreZero<M>(stored: Option<Bundle<M>>, evaluate: (M, seq<real>) -> real)
    ensures var r := Predict(stored, map[], evaluate);
      r.Ok? ==> r.value == evaluate(stored.value[ModelKey].model, seq(|stored.value[ColumnsKey].columns|, i => 0.0))
  {
    var r := Predict(stored, map[], evaluate);
    if r.Ok? {
      var cols := stored.value[ColumnsKey].columns;
      assert ReindexVector(cols, map[]) == seq(|cols|, i => 0.0);
    }
  }

  // ---------------------------------------------------------------------------
  // The record as training saw it
  // ---------------------------------------------------------------------------

  /** Row i of a prepared (complete) training matrix, in column order. */
  function TrainingRow(x: Train.Matrix, i: int): (v: seq<real>)
    requires Train.MatrixWellFormed(x) && Train.Complete(x) && 0 <= i < x.height
    ensures |v| == |x.columns|
  {
    seq(|x.columns|, c requires 0 <= c < |x.columns| => x.columns[c][i].value)
  }

  /** A feature before scaling: the interaction is recomputed from the record, as training did. */
  function RawFeature(columns: seq<string>, record: map<string, Cell>, name: string): real
  {
    if name == Train.RainTemp && Train.HasInteractionInputs(columns) then
      ValueOrZero(record, Train.RainfallName) * ValueOrZero(record, Train.TemperatureName)
    else ValueOrZero(record, name)
  }

  /** The record transformed the way training transformed its rows: interaction, then the scaler. */
  function TrainingVector(columns: seq<string>, record: map<string, Cell>, scale: (string, real) -> real): (v: seq<real>)
    ensures |v| == |columns|
    ensures forall i :: 0 <= i < |columns| ==> v[i] == scale(columns[i], RawFeature(columns, record, columns[i]))
  {
    seq(|columns|, i requires 0 <= i < |columns| => scale(columns[i], RawFeature(columns, record, columns[i])))
  }

  /** predict as intended: apply the saved scaler and rebuild the interaction before predicting. */
  function PredictCorrected<M>(stored: Option<Bundle<M>>, record: map<string, Cell>, evaluate: (M, seq<real>) -> real): (r: Result<real, InferenceError>)
    ensures LoadModel(stored).Err? ==> r == Err(LoadModel(stored).error)
    ensures r.Ok? ==>
      var b := stored.value;
      b[ModelKey].ModelEntry? && b[ColumnsKey].ColumnsEntry? && ScalerKey in b && b[ScalerKey].ScalerEntry?
      && r.value == evaluate(b[ModelKey].model, TrainingVector(b[ColumnsKey].columns, record, b[ScalerKey].scale))
  {
    match LoadModel(stored)
    case Err(e) => Err(e)
    case Ok(b) =>
      if !b[ModelKey].ModelEntry? || !b[ColumnsKey].ColumnsEntry? then Err(WrongArtifact)
      else if ScalerKey !in b then Err(ScalerMissing)
      else if !b[ScalerKey].ScalerEntry? then Err(WrongArtifact)
      else Ok(evaluate(b[ModelKey].model, TrainingVector(b[ColumnsKey].columns, record, b[ScalerKey].scale)))
  }

  /**
   * The record carries row i of the matrix before interaction and scaling
   * (an interaction column that training recomputes need not be supplied).
   */
  ghost predicate RecordOfRow(record: map<string, Cell>, x1: Train.Matrix, i: int)
    requires Train.MatrixWellFormed(x1) && 0 <= i < x1.height
  {
    forall c :: 0 <= c < |x1.columns| && (x1.names[c] != Train.RainTemp || !Train.HasInteractionInputs(x1.names)) ==>
      x1.names[c] in record && x1.columns[c][i].Some? && record[x1.names[c]] == Num(x1.columns[c][i].value)
  }

  lemma RecordValue(record: map<string, Cell>, x1: Train.Matrix, i: int, n: string)
    requires Train.MatrixWellFormed(x1) && NoDuplicates(x1.names) && 0 <= i < x1.height
    requires RecordOfRow(record, x1, i) && n in x1.names
    requires n != Train.RainTemp || !Train.HasInteractionInputs(x1.names)
    ensures Train.MatrixColumn(x1, n)[i] == Some(ValueOrZero(record, n))
  {
    var c := IndexOf(x1.names, n);
    assert x1.names[c] == n;
  }

  lemma InteractionOfRecord(x1: Train.Matrix, i: int, record: map<string, Cell>)
    requires Train.MatrixWellFormed(x1) && NoDuplicates(x1.names) && 0 <= i < x1.height
    requires RecordOfRow(record, x1, i) && Train.HasInteractionInputs(x1.names)
    ensures Train.Product(Train.MatrixColumn(x1, Train.RainfallName)[i], Train.MatrixColumn(x1, Train.TemperatureName)[i])
      == Some(ValueOrZero(record, Train.RainfallName) * ValueOrZero(record, Train.TemperatureName))
  {
    RecordValue(record, x1, i, Train.RainfallName);
    RecordValue(record, x1, i, Train.TemperatureName);
    var ra := Train.MatrixColumn(x1, Train.RainfallName)[i];
    var te := Train.MatrixColumn(x1, Train.TemperatureName)[i];
    assert Train.Product(ra, te).value == ValueOrZero(record, Train.RainfallName) * ValueOrZero(record, Train.TemperatureName);
  }

  /** After the interaction step, every column of row i holds the record's raw feature. */
  lemma InteractionRowIsRawFeature(x1: Train.Matrix, i: int, record: map<string, Cell>, c: int)
    requires Train.MatrixWellFormed(x1) && NoDuplicates(x1.names) && 0 <= i < x1.height
    requires RecordOfRow(record, x1, i)
    requires 0 <= c < |Train.AddInteraction(x1).names|
    ensures var x1a := Train.AddInteraction(x1);
      x1a.columns[c][i] == Some(RawFeature(x1a.names, record, x1a.names[c]))
  {
    var x1a := Train.AddInteraction(x1);
    var n := x1a.names[c];
    assert Train.HasInteractionInputs(x1a.names) <==> Train.HasInteractionInputs(x1.names);
    IndexOfDistinct(x1a.names, c);
    assert x1a.columns[c] == Train.MatrixColumn(x1a, n);
    if n == Train.RainTemp && Train.HasInteractionInputs(x1.names) {
      InteractionOfRecord(x1, i, record);
    } else {
      assert n in x1.names;
      RecordValue(record, x1, i, n);
    }
  }

  /**
   * The corrected predict, given a training row back, sees exactly the vector
   * the model was fitted on: the training matrix after the interaction and
   * the scaler, at that row.
   */
  lemma CorrectedSeesTrainingRow(x1: Train.Matrix, i: int, record: map<string, Cell>, scale: (string, real) -> real)
    requires Train.MatrixWellFormed(x1) && NoDuplicates(x1.names) && Train.Complete(x1) && 0 <= i < x1.height
    requires RecordOfRow(record, x1, i)
    ensures var x2 := Train.ScaleAll(Train.AddInteraction(x1), scale);
      Train.Complete(x2)
      && TrainingVector(x2.names, record, scale) == TrainingRow(x2, i)
  {
    var x1a := Train.AddInteraction(x1);
    Train.AddInteractionComplete(x1);
    var x2 := Train.ScaleAll(x1a, scale);
    forall c | 0 <= c < |x2.names|
      ensures x2.columns[c][i] == Some(scale(x2.names[c], RawFeature(x2.names, record, x2.names[c])))
    {
      InteractionRowIsRawFeature(x1, i, record, c);
    }
  }

  /**
   * The source as written: a model trained with a scaler that shifts rainfall
   * by -100, asked about a training row with rainfall 150, is fed 150 where
   * the model saw 50.
   */
  lemma PredictIgnoresScaler()
    ensures var x1 := Train.Matrix([Train.RainfallName], [[Some(150.0)]], 1);
      var scale := (n: string, v: real) => v - 100.0;
      var x2 := Train.ScaleAll(Train.AddInteraction(x1), scale);
      var record := map[Train.RainfallName := Num(150.0)];
      && Train.Complete(x2)
      && ReindexVector(x2.names, record) == [150.0]
      && TrainingRow(x2, 0) == [50.0]
      && TrainingVector(x2.names, record, scale) == [50.0]
  {
    var x1 := Train.Matrix([Train.RainfallName], [[Some(150.0)]], 1);
    var scale := (n: string, v: real) => v - 100.0;
    var record := map[Train.RainfallName := Num(150.0)];
    assert !Train.HasInteractionInputs(x1.names);
    CorrectedSeesTrainingRow(x1, 0, record, scale);
  }
}
