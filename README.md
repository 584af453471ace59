# Credit score predictor — a verified model of the scoring and explanation core

This project models, in Dafny, the core of a small credit-scoring service. A
pre-trained default-risk classifier and a SHAP-style explainer sit behind
`CreditScorePredictor` (api/predictor.py). The model covers the following:

- **Feature vectorizer** (`Vectorizer`). `_prepare_features` turns a sparse
  name → value map into one dense row laid out by the ordered feature schema.
  Absent names become the missing sentinel `Missing` (NaN in the source).
  Names outside the schema are ignored.
- **Decision rule** (`DecisionRule`). The active threshold is the caller's
  override, or the loaded threshold when there is none. The prediction is 1
  exactly when the default probability is *strictly* above that threshold, so
  a tie is approved. The decision is `REJECTED` exactly when the prediction is 1.
- **Attribution ranking** (`Attribution`). This is `get_feature_importance`
  once the explainer has answered:
  - The attribution row is zipped with the schema into an insertion-ordered
    dictionary.
  - That dictionary is sorted stably by descending absolute value.
  - The sorted entries are split into strictly positive and strictly negative
    lists. Each list is cut with Python's `[:top_n]`.
  - The prediction value is rebuilt as `base_value + sum(attributions)`.
- **Artifact holder** (`Predictor.CreditScorePredictor`). This is a class with
  the fields `model`, `explainer`, `featureNames` and `threshold`:
  - The constructor sets the defaults that `__init__` sets.
  - `LoadArtifacts` assigns the four fields one step at a time, stopping at the
    first artifact that cannot be read.
  - `Create` is `CreditScorePredictor()`.
  - `IsLoaded` and `GetThreshold` are the two field reads. Their behaviour after
    loading is stated by `Create`.
  - `PredictProba`, `Predict` and `GetFeatureImportance` are the entry points.
    They read the object and change nothing.

  `Predictor.PredictorRegistry` is the module-level `_predictor` with
  `get_predictor`. It builds the instance on the first successful call and
  returns that same instance from then on.
- **Request handlers** (`Api`). These model the per-request response assembly
  of `/predict` and the `/predict/batch` loop. The loop emits one response per
  client, in input order, and counts approved and rejected decisions.

Foreign parts become values:
- The unpickled model is a function value of type `Classifier`, from a matrix
  to an `Option` of probability rows.
- The explainer has type `Explainer`, from a matrix to an `Option` of
  attribution rows and base values.
- In both, `None` means the library call raises.
- The file reads become an `ArtifactFiles` value. Its fields are `None` where
  opening or unpickling raises. The threshold descriptor is `Absent`,
  `Unreadable` (the file exists but does not parse) or `Present(field)`.
- Exceptions become the `Err` case of `Result`.
- New artifacts are passed to `GetPredictor` as a parameter. This stands for
  the files the configured paths point to. Once an instance exists they are
  ignored.

Behaviours of the code worth stating explicitly:
- A threshold descriptor that exists but does not parse stops the loading,
  just like a missing model. It does not fall back to the default.
- A descriptor without a `threshold` field gives `DefaultThreshold` (0.5).
- Vectorizing an empty map is not an error. It gives an all-missing row.
- The code sorts all attributions first and then filters by sign.
  `SortFilterCommute` proves this gives the same lists as filtering by sign
  first and then sorting.
- `get_feature_importance` defaults `top_n` to 10 (`Config.DefaultTopN`).
  `GetDefaultFeatureImportance` is the call without `top_n`, the one the
  `/feature-importance` handler makes.
- The dictionary built from `zip` is modelled with Python's semantics:
  - a repeated schema name keeps its first position and its last value;
  - `zip` stops at the shorter of names and attributions.

  The positional and reconstruction laws are proved for distinct names, because
  with repeated names they do not hold of the reported dictionary. The
  reconstruction law also needs no more attributions than names, because `zip`
  drops the extra ones from the dictionary but `sum` still counts them.

## Model

| member | source | states |
|---|---|---|
| Vectorizer.PrepareFeatures | api/predictor.py:72-96 | returns a single row of exactly `len(feature_names)` entries; entry `i` is `features[feature_names[i]]` when that name is present and `Missing` otherwise; equal to `Vectorized` |
| Vectorizer.Vectorized | api/predictor.py:87-94 | the reference row has one entry per schema name |
| Vectorizer.VectorizedAt | api/predictor.py:89-94 | position `i` depends only on `schema[i]`: its value when present, `Missing` otherwise |
| Vectorizer.UnknownNamesIgnored | api/predictor.py:89-94 | adding names that are not in the schema never changes the row |
| Vectorizer.EmptyMapAllMissing | api/predictor.py:87-94 | an empty map is accepted and every entry of the row is `Missing` |
| Vectorizer.SchemaOrderExample | api/predictor.py:89-94 | schema `[a,b,c]` with map `{c:3, a:1}` gives `[1, Missing, 3]`: the layout follows the schema, not the map |
| DecisionRule.Decision.Text | api/predictor.py:151-152 | the label is `"APPROVED"` or `"REJECTED"`, and `"REJECTED"` exactly for a rejection |
| DecisionRule.ActiveThreshold | api/predictor.py:146 | the override when one is given (including 0), otherwise the loaded threshold |
| DecisionRule.Decide | api/predictor.py:148-152 | prediction is 0 or 1; prediction 1 iff `p_default > threshold` (strict); `REJECTED` iff prediction 1 |
| DecisionRule.TieIsApproved | api/predictor.py:149 | a probability equal to the threshold gives `(0, APPROVED)` |
| DecisionRule.ThresholdMonotone | api/predictor.py:149 | raising the threshold never turns an approval into a rejection |
| DecisionRule.ProbabilityMonotone | api/predictor.py:149 | a higher default probability never turns a rejection into an approval |
| DecisionRule.ThresholdExample | api/predictor.py:146-152 | probability 0.7 is `(1, REJECTED)` under threshold 0.48 and `(0, APPROVED)` under 0.8 |
| Attribution.Zip | api/predictor.py:192 | the pairing has as many entries as the shorter of names and attributions |
| Attribution.FilterMembers | api/predictor.py:203-211 | the kept entries are exactly the entries of the input the predicate accepts (`if v > 0`, `if v < 0`) |
| Attribution.SliceTo | api/predictor.py:206 | `s[:n]` is a prefix of `s` with `min(n, len)` entries, or `max(0, len + n)` entries for negative `n` |
| Attribution.BuildDict | api/predictor.py:190-193 | the dictionary comprehension has at most one entry per zipped pair, and at least one when there are pairs |
| Attribution.BuildDictDistinct | api/predictor.py:190-193 | the dictionary `BuildDict` builds has one entry per feature name |
| Attribution.BuildDictMembers | api/predictor.py:190-193 | every dictionary entry is one of the zipped pairs |
| Attribution.BuildDictLastWins | api/predictor.py:190-193 | for a repeated name, the dictionary keeps the value written last |
| Attribution.BuildDictOfDistinct | api/predictor.py:190-193 | with distinct names, the dictionary is the zipped pairs in order |
| Attribution.InsertPermutation | api/predictor.py:196-200 | `InsertByMagnitude`, the step of the sort, adds exactly the inserted entry |
| Attribution.InsertOrdered | api/predictor.py:196-200 | `InsertByMagnitude` into a ranking gives a ranking |
| Attribution.InsertStable | api/predictor.py:196-200 | `InsertByMagnitude` puts the new entry ahead of every entry of its magnitude, as the first element of a stable sort |
| Attribution.SortSpec | api/predictor.py:196-200 | `SortByMagnitude` (the `sorted` call) returns a permutation of the dictionary items, ordered by non-increasing absolute value |
| Attribution.SortStable | api/predictor.py:196-200 | `SortByMagnitude` keeps entries of equal absolute value in their dictionary order (stable sort) |
| Attribution.FilterInsertDropped | api/predictor.py:196-211 | an entry of the other sign, inserted into the ranking, disappears again when the list is filtered by sign |
| Attribution.FilterInsertKept | api/predictor.py:196-211 | inserting an entry of the kept sign into a ranking and then filtering equals filtering and then inserting |
| Attribution.SortFilterCommute | api/predictor.py:196-211 | sorting and then filtering by sign gives the same list as filtering by sign and then sorting |
| Attribution.RankedFilter | api/predictor.py:196-211 | filtering the ranking by sign keeps it ranked and keeps exactly the entries of that sign |
| Attribution.PrefixOutranksRest | api/predictor.py:206 | a prefix of a ranked list is ranked, and every entry in it outranks every entry left out |
| Attribution.TopSpec | api/predictor.py:196-211 | `Top` (the filtered, sliced comprehension): each top list holds entries of its sign, ranked by magnitude; for `top_n >= 0` it has `min(top_n, count)` entries; no omitted entry of that sign outranks a selected one |
| Attribution.Rank | api/predictor.py:186-222 | every top-positive value is > 0 and every top-negative value is < 0; both are dictionary entries, so zeros are in neither list; lengths follow `top_n`; the lists are ordered by magnitude and hold the largest; `prediction_value == base_value + sum(attributions)` |
| Attribution.ShapValuesPositional | api/predictor.py:190-193 | with distinct names, `shap_values` entry `i` is `(feature_names[i], attributions[i])` |
| Attribution.ShapValuesLastWins | api/predictor.py:190-193 | a repeated name reports the attribution at its last position |
| Attribution.ReconstructionLaw | api/predictor.py:214 | with distinct names and at most one attribution per name, `base_value + sum(shap_values.values()) == prediction_value` |
| Attribution.RankingTiesKeepOrder | api/predictor.py:196-211 | within one sign, entries of equal magnitude appear in dictionary (schema) order |
| Attribution.TopTiesKeepOrder | api/predictor.py:196-211 | among entries of one sign and one magnitude, the reported ones are the earliest in schema order |
| Predictor.FirstLoadError | api/predictor.py:39-70 | loading succeeds iff model, explainer and feature names are readable and the threshold file is absent or parses |
| Predictor.LoadedThresholdFallback | api/predictor.py:59-66 | the loaded threshold is the descriptor's `threshold` field, and 0.5 when the file or the field is absent |
| Predictor.CreditScorePredictor.constructor | api/predictor.py:29-34 | all artifacts unset and threshold `DEFAULT_THRESHOLD` before loading |
| Predictor.CreditScorePredictor.LoadArtifacts | api/predictor.py:37-70 | fields are assigned in order up to the first failure, which is reported; the threshold changes only on a full load |
| Predictor.CreditScorePredictor.Create | api/predictor.py:29-35 | the predictor exists iff loading succeeds; it then holds the loaded artifacts, `is_loaded()` holds, and `get_threshold()` is the loaded or default threshold |
| Predictor.CreditScorePredictor.IsLoaded | api/predictor.py:227-229 | true exactly when a model is held, as `Create` and `GetPredictor` guarantee for every predictor they return |
| Predictor.CreditScorePredictor.GetThreshold | api/predictor.py:231-233 | the threshold the object holds; `Create` fixes it to the descriptor's value or 0.5 |
| Predictor.ScoreCases | api/predictor.py:112-118 | `Score`, what `predict_proba` returns: `NotLoaded` before the artifacts are set, `ScoringFailed` where the model raises, and otherwise row 0 of the model's output on the prepared row |
| Predictor.ExplainedRowCases | api/predictor.py:179-187 | `ExplainedRow`: `NotLoaded` before the artifacts are set, `ExplanationFailed` where the explainer raises or returns no row, and otherwise attribution row 0 with base value 0 |
| Predictor.ScoreIgnoresUnknownNames | api/predictor.py:113-114 | adding feature names outside the schema changes neither the scores nor the explanation |
| Predictor.CreditScorePredictor.PredictProba | api/predictor.py:98-118 | row 0 of the model's output on the prepared one-row matrix; an error where the model raises |
| Predictor.CreditScorePredictor.Predict | api/predictor.py:120-157 | fails exactly when scoring fails; otherwise the verdict is `Decide(p_default, override or loaded threshold)`, so prediction 1 iff strictly above |
| Predictor.CreditScorePredictor.GetFeatureImportance | api/predictor.py:159-225 | fails exactly when the explainer fails; otherwise the ranking of row 0, with signed top lists of at most `top_n` entries and `prediction_value == base_value + sum(row)` |
| Predictor.CreditScorePredictor.GetDefaultFeatureImportance | api/predictor.py:159-163 | the call without `top_n` is the ranking with `top_n = 10`, so each top list has at most 10 entries |
| Predictor.PredictorRegistry.constructor | api/predictor.py:237 | the process starts without a predictor |
| Predictor.PredictorRegistry.GetPredictor | api/predictor.py:240-252 | creates the predictor only when none exists, and only keeps one that loaded; otherwise returns the existing instance unchanged, without reading artifacts |
| Predictor.GetPredictorTwice | api/predictor.py:249-252 | two calls in a row return the same instance |
| Api.ResponseFor | api/main.py:140-153 | a response echoes the `client_id`, reports `threshold_used == get_threshold()` and the model's probabilities, and its decision is consistent with them |
| Api.Predict | api/main.py:135-156 | the `/predict` response equals `ResponseFor` |
| Api.CountsPartition | api/main.py:226-229 | `CountApproved` plus `CountRejected` is the number of responses: every response not approved is counted as rejected |
| Api.CountsExtremes | api/main.py:226-229 | `CountRejected` is 0 exactly when every response is approved, and `CountApproved` is 0 exactly when every response is rejected |
| Api.CountsAppend | api/main.py:226-229 | each appended response adds one to the approved count when approved, and one to the rejected count otherwise |
| Api.PredictBatch | api/main.py:183-246 | fails iff some client fails, with the first failure; otherwise one response per client in input order, each echoing its `client_id` and the threshold, `approved_count` and `rejected_count` count the decisions, `approved + rejected == total_clients == len(clients)`, and an empty batch gives all zeros |

## Left out

- File reading, unpickling, JSON parsing and `Path.exists` (api/predictor.py:42-63) are I/O. Their outcomes are the `ArtifactFiles` parameter. A `threshold` field that is not a number is not modelled.
- The model's `predict_proba` and the explainer's `__call__` are foreign library code. They are function values supplied with the artifacts. That the probabilities lie in [0,1] and sum to about 1 is the model's promise and is not stated.
- Floating point: values are `real`, so `sum` and the reconstruction are exact. NaN is the distinct `Missing` entry, so a NaN supplied inside the feature map is not distinguished from a value.
- A pickle that loads to `None` is treated as a loaded artifact.
- `float(...)` conversions and the `(1, -1)` reshape as a numpy operation are not modelled. The reshape is the one-row `seq<seq<Cell>>`.
- `predict` scores the features a second time after `predict_proba`. Scoring is a deterministic function here, so the second call cannot fail and gives the same probabilities.
- Logging and the re-raising `except` blocks are not modelled; only the raised error is, as an `Err` value.
- The FastAPI application itself is HTTP glue and is left out:
  - routing and the async `lifespan`;
  - CORS;
  - `health_check`;
  - the `/feature-importance` handler, which copies the fields of `GetFeatureImportance` and the `client_id`;
  - `HTTPException` status codes and the global exception handler.
- Request and response schemas (api/models.py) are left out:
  - the non-empty `features` check;
  - the numeric bounds on response fields.
- The Streamlit dashboard, the environment-variable configuration and the unused `FN_COST`/`FP_COST` constants are left out.
- Concurrency: the service shares no mutable state after loading. The registry is modelled for sequential calls only.
