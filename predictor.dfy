/**
 * The credit score predictor (api/predictor.py): the loaded artifacts, the
 * scoring and explanation entry points, and the process-wide lazy instance.
 */
module Predictor {
  import opened Wrappers
  import opened Config
  import opened Vectorizer
  import opened DecisionRule
  import opened Attribution

  /** One row of `predict_proba`: (probability of no default, probability of default). */
  datatype Probabilities = Probabilities(pNoDefault: real, pDefault: real)

  /** The loaded model's `predict_proba`: one pair per input row, or None where it raises. */
  type Classifier = seq<seq<Cell>> -> Option<seq<Probabilities>>

  /** What the explainer returns for a matrix: attribution rows and base values. */
  datatype Explanation = Explanation(values: seq<seq<real>>, baseValues: seq<real>)

  /** The loaded explainer, called on a matrix; None where it raises. */
  type Explainer = seq<seq<Cell>> -> Option<Explanation>

  /** The threshold descriptor: no file, a file that does not parse, or its `threshold` field if any. */
  datatype ThresholdFile = Absent | Unreadable | Present(threshold: Option<real>)

  /** The artifacts found on disk; None where opening or unpickling raises. */
  datatype ArtifactFiles = ArtifactFiles(
    model: Option<Classifier>,
    explainer: Option<Explainer>,
    featureNames: Option<seq<string>>,
    thresholdFile: ThresholdFile)

  datatype LoadError = ModelUnreadable | ExplainerUnreadable | FeatureNamesUnreadable | ThresholdUnreadable

  /** Why a scoring or explanation call raises. */
  datatype PredictError = NotLoaded | ScoringFailed | ExplanationFailed

  /** The first artifact whose loading raises, in the order the loader reads them. */
  function FirstLoadError(files: ArtifactFiles): (e: Option<LoadError>)
    ensures e.None? <==> files.model.Some? && files.explainer.Some? && files.featureNames.Some? && !files.thresholdFile.Unreadable?
  {
    if files.model.None? then Some(ModelUnreadable)
    else if files.explainer.None? then Some(ExplainerUnreadable)
    else if files.featureNames.None? then Some(FeatureNamesUnreadable)
    else if files.thresholdFile.Unreadable? then Some(ThresholdUnreadable)
    else None
  }

  /** The threshold after reading the descriptor, starting from `current`. */
  function LoadedThreshold(file: ThresholdFile, current: real): real
    requires !file.Unreadable?
  {
    match file
    case Absent => current
    case Present(t) => t.GetOr(DefaultThreshold)
  }

  /** The loaded threshold is the descriptor's field, and the default when the file or the field is absent. */
  lemma LoadedThresholdFallback(file: ThresholdFile)
    requires !file.Unreadable?
    ensures file.Present? && file.threshold.Some? ==> LoadedThreshold(file, DefaultThreshold) == file.threshold.value
    ensures !(file.Present? && file.threshold.Some?) ==> LoadedThreshold(file, DefaultThreshold) == 0.5
  {
  }

  class CreditScorePredictor {
    var model: Option<Classifier>
    var explainer: Option<Explainer>
    var featureNames: Option<seq<string>>
    var threshold: real

    /** The field defaults set before the artifacts are read. */
    constructor ()
      ensures model == None && explainer == None && featureNames == None
      ensures threshold == DefaultThreshold
    {
      model := None;
      explainer := None;
      featureNames := None;
      threshold := DefaultThreshold;
    }

    /**
     * `_load_artifacts`: read model, explainer, feature names and threshold
     * descriptor in that order; the first that raises stops the loading and
     * the fields read before it keep their new values.
     */
    method LoadArtifacts(files: ArtifactFiles) returns (err: Option<LoadError>)
      modifies this
      ensures err == FirstLoadError(files)
      ensures model == if files.model.Some? then files.model else old(model)
      ensures explainer == if files.model.Some? && files.explainer.Some? then files.explainer else old(explainer)
      ensures featureNames ==
                if files.model.Some? && files.explainer.Some? && files.featureNames.Some?
                then files.featureNames else old(featureNames)
      ensures threshold ==
                if err.None? then LoadedThreshold(files.thresholdFile, old(threshold)) else old(threshold)
    {
      if files.model.None? {
        return Some(ModelUnreadable);
      }
      model := files.model;
      if files.explainer.None? {
        return Some(ExplainerUnreadable);
      }
      explainer := files.explainer;
      if files.featureNames.None? {
        return Some(FeatureNamesUnreadable);
      }
      featureNames := files.featureNames;
      match files.thresholdFile {
        case Absent =>
        case Unreadable =>
          return Some(ThresholdUnreadable);
        case Present(t) =>
          threshold := t.GetOr(DefaultThreshold);
      }
      err := None;
    }

    /** `CreditScorePredictor()`: set the defaults, then load; a load that raises yields no predictor. */
    static method Create(files: ArtifactFiles) returns (r: Result<CreditScorePredictor, LoadError>)
      ensures r.Ok? <==> FirstLoadError(files).None?
      ensures r.Err? ==> Some(r.error) == FirstLoadError(files)
      ensures r.Ok? ==> fresh(r.value)
      ensures r.Ok? ==> r.value.model == files.model && r.value.explainer == files.explainer
      ensures r.Ok? ==> r.value.featureNames == files.featureNames
      ensures r.Ok? ==> r.value.GetThreshold() == LoadedThreshold(files.thresholdFile, DefaultThreshold)
      ensures r.Ok? ==> r.value.IsLoaded()
    {
      var p := new CreditScorePredictor();
      var err := p.LoadArtifacts(files);
      if err.Some? {
        return Err(err.value);
      }
      return Ok(p);
    }

    /** `is_loaded`: a model is held. */
    function IsLoaded(): (loaded: bool)
      reads this
      ensures loaded <==> model.Some?
    {
      model.Some?
    }

    /** `get_threshold`: the threshold the decisions use when no override is given. */
    function GetThreshold(): (t: real)
      reads this
      ensures t == threshold
    {
      threshold
    }

    /** What `predict_proba` returns: row 0 of the model's output on the prepared matrix. */
    function Score(features: map<string, real>): Result<Probabilities, PredictError>
      reads this
    {
      if featureNames.None? || model.None? then Err(NotLoaded)
      else
        var rows := model.value([Vectorized(featureNames.value, features)]);
        if rows.None? || |rows.value| == 0 then Err(ScoringFailed) else Ok(rows.value[0])
    }

    /** `predict_proba`: prepare the features and score them with the model. */
    method PredictProba(features: map<string, real>) returns (r: Result<Probabilities, PredictError>)
      ensures r == Score(features)
      ensures r.Ok? ==> featureNames.Some? && model.Some?
      ensures r.Ok? ==> exists rows :: model.value([Vectorized(featureNames.value, features)]) == Some(rows) && |rows| > 0 && rows[0] == r.value
    {
      if featureNames.None? {
        return Err(NotLoaded);
      }
      var x := PrepareFeatures(featureNames.value, features);
      if model.None? {
        return Err(NotLoaded);
      }
      var rows := model.value(x);
      if rows.None? || |rows.value| == 0 {
        return Err(ScoringFailed);
      }
      r := Ok(rows.value[0]);
    }

    /**
     * `predict`: the active threshold is the override when given, otherwise the
     * loaded one; predict default iff the default probability exceeds it.
     */
    method Predict(features: map<string, real>, override: Option<real>) returns (r: Result<Verdict, PredictError>)
      ensures r.Ok? <==> Score(features).Ok?
      ensures r.Err? ==> r.error == Score(features).error
      ensures r.Ok? ==> r.value == Decide(Score(features).value.pDefault, ActiveThreshold(override, threshold))
      ensures r.Ok? ==> (r.value.prediction == 1 <==> Score(features).value.pDefault > ActiveThreshold(override, threshold))
      ensures r.Ok? ==> (r.value.decision.Text() == "REJECTED" <==> r.value.prediction == 1)
      ensures r.Ok? && override.None? ==>
                (r.value.decision == Approved <==> Score(features).value.pDefault <= GetThreshold())
    {
      var probs := PredictProba(features);
      if probs.Err? {
        return Err(probs.error);
      }
      var thresh := ActiveThreshold(override, threshold);
      r := Ok(Decide(probs.value.pDefault, thresh));
    }

    /** Row 0 of the explainer's attributions and base values for the prepared matrix. */
    function ExplainedRow(features: map<string, real>): Result<(seq<real>, real), PredictError>
      reads this
    {
      if featureNames.None? || explainer.None? then Err(NotLoaded)
      else
        var e := explainer.value([Vectorized(featureNames.value, features)]);
        if e.None? || |e.value.values| == 0 || |e.value.baseValues| == 0 then Err(ExplanationFailed)
        else Ok((e.value.values[0], e.value.baseValues[0]))
    }

    /**
     * `get_feature_importance`: explain the prepared row and rank the
     * attributions; reports signed top lists and the reconstructed value.
     */
    method GetFeatureImportance(features: map<string, real>, topN: int) returns (r: Result<Importance, PredictError>)
      ensures r.Ok? <==> ExplainedRow(features).Ok?
      ensures r.Err? ==> r.error == ExplainedRow(features).error
      ensures r.Ok? ==> featureNames.Some?
      ensures r.Ok? ==> r.value == Rank(featureNames.value, ExplainedRow(features).value.0, ExplainedRow(features).value.1, topN)
      ensures r.Ok? ==> r.value.baseValue == ExplainedRow(features).value.1
      ensures r.Ok? ==> r.value.predictionValue == r.value.baseValue + Sum(ExplainedRow(features).value.0)
      ensures r.Ok? ==> forall i :: 0 <= i < |r.value.topPositive| ==> r.value.topPositive[i].value > 0.0
      ensures r.Ok? ==> forall i :: 0 <= i < |r.value.topNegative| ==> r.value.topNegative[i].value < 0.0
      ensures r.Ok? && topN >= 0 ==> |r.value.topPositive| <= topN && |r.value.topNegative| <= topN
    {
      if featureNames.None? {
        return Err(NotLoaded);
      }
      var x := PrepareFeatures(featureNames.value, features);
      if explainer.None? {
        return Err(NotLoaded);
      }
      var e := explainer.value(x);
      if e.None? || |e.value.values| == 0 || |e.value.baseValues| == 0 {
        return Err(ExplanationFailed);
      }
      var vals := e.value.values[0];
      var base := e.value.baseValues[0];
      r := Ok(Rank(featureNames.value, vals, base, topN));
    }

    /** `get_feature_importance(features)`: the call with the default `top_n`. */
    method GetDefaultFeatureImportance(features: map<string, real>) returns (r: Result<Importance, PredictError>)
      ensures r.Ok? <==> ExplainedRow(features).Ok?
      ensures r.Err? ==> r.error == ExplainedRow(features).error
      ensures r.Ok? ==> featureNames.Some?
      ensures r.Ok? ==> r.value == Rank(featureNames.value, ExplainedRow(features).value.0, ExplainedRow(features).value.1, DefaultTopN)
      ensures r.Ok? ==> |r.value.topPositive| <= 10 && |r.value.topNegative| <= 10
    {
      r := GetFeatureImportance(features, DefaultTopN);
    }
  }

  /**
   * Scoring fails with `NotLoaded` before the artifacts are in place and with
   * `ScoringFailed` where the model raises; otherwise it is the model's first row.
   */
  lemma ScoreCases(p: CreditScorePredictor, features: map<string, real>)
    ensures p.featureNames.None? || p.model.None? ==> p.Score(features) == Err(NotLoaded)
    ensures p.Score(features).Ok? ==> p.featureNames.Some? && p.model.Some?
    ensures p.Score(features).Ok? ==>
              (var rows := p.model.value([Vectorized(p.featureNames.value, features)]);
               rows.Some? && |rows.value| > 0 && rows.value[0] == p.Score(features).value)
    ensures p.Score(features).Err? && p.featureNames.Some? && p.model.Some? ==> p.Score(features) == Err(ScoringFailed)
  {
  }

  /**
   * Explaining fails with `NotLoaded` before the artifacts are in place and with
   * `ExplanationFailed` where the explainer raises; otherwise it is the first
   * attribution row and the first base value.
   */
  lemma ExplainedRowCases(p: CreditScorePredictor, features: map<string, real>)
    ensures p.featureNames.None? || p.explainer.None? ==> p.ExplainedRow(features) == Err(NotLoaded)
    ensures p.ExplainedRow(features).Ok? ==> p.featureNames.Some? && p.explainer.Some?
    ensures p.ExplainedRow(features).Ok? ==>
              (var e := p.explainer.value([Vectorized(p.featureNames.value, features)]);
               e.Some? && |e.value.values| > 0 && |e.value.baseValues| > 0 &&
               p.ExplainedRow(features).value == (e.value.values[0], e.value.baseValues[0]))
    ensures p.ExplainedRow(features).Err? && p.featureNames.Some? && p.explainer.Some? ==>
              p.ExplainedRow(features) == Err(ExplanationFailed)
  {
  }

  /** Scoring ignores feature names that are not in the schema. */
  lemma ScoreIgnoresUnknownNames(p: CreditScorePredictor, features: map<string, real>, extra: map<string, real>)
    requires p.featureNames.Some?
    requires forall k :: k in extra ==> k !in p.featureNames.value
    ensures p.Score(features + extra) == p.Score(features)
    ensures p.ExplainedRow(features + extra) == p.ExplainedRow(features)
  {
    UnknownNamesIgnored(p.featureNames.value, features, extra);
  }

  /** The module-level `_predictor` and `get_predictor`. */
  class PredictorRegistry {
    var instance: CreditScorePredictor?

    /** The registry only ever holds a fully loaded predictor. */
    ghost predicate Valid()
      reads this, instance
    {
      instance != null ==> instance.IsLoaded() && instance.featureNames.Some? && instance.explainer.Some?
    }

    constructor ()
      ensures Valid() && instance == null
    {
      instance := null;
    }

    /**
     * Create the predictor on the first successful call and hand out that
     * same instance ever after, without reading the artifacts again.
     */
    method GetPredictor(files: ArtifactFiles) returns (r: Result<CreditScorePredictor, LoadError>)
      requires Valid()
      modifies this
      ensures Valid()
      ensures old(instance) != null ==> r == Ok(old(instance)) && instance == old(instance)
      ensures old(instance) == null ==> (r.Ok? <==> FirstLoadError(files).None?)
      ensures old(instance) == null && r.Ok? ==>
                fresh(r.value) && r.value.model == files.model && r.value.explainer == files.explainer &&
                r.value.featureNames == files.featureNames &&
                r.value.threshold == LoadedThreshold(files.thresholdFile, DefaultThreshold)
      ensures old(instance) == null && r.Err? ==> instance == null && Some(r.error) == FirstLoadError(files)
      ensures r.Ok? ==> instance == r.value && r.value.IsLoaded()
    {
      if instance == null {
        var created := CreditScorePredictor.Create(files);
        if created.Err? {
          return created;
        }
        instance := created.value;
      }
      r := Ok(instance);
    }
  }

  /** Two calls in a row return the very same predictor. */
  method GetPredictorTwice(registry: PredictorRegistry, files: ArtifactFiles) returns (first: Result<CreditScorePredictor, LoadError>, second: Result<CreditScorePredictor, LoadError>)
    requires registry.Valid()
    modifies registry
    ensures registry.Valid()
    ensures first.Ok? ==> second == first
  {
    first := registry.GetPredictor(files);
    second := registry.GetPredictor(files);
  }
}
