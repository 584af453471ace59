/**
 * The request handlers of api/main.py that assemble prediction responses:
 * one client at a time, and a batch with its approval statistics.
 */
module Api {
  import opened Wrappers
  import opened DecisionRule
  import opened Predictor

  /** A validated request body: the feature map and an optional client identifier. */
  datatype ClientFeatures = ClientFeatures(features: map<string, real>, clientId: Option<string>)

  datatype PredictionResponse = PredictionResponse(
    clientId: Option<string>,
    probabilityDefault: real,
    probabilityNoDefault: real,
    prediction: int,
    decision: Decision,
    thresholdUsed: real)

  datatype BatchPredictionResponse = BatchPredictionResponse(
    predictions: seq<PredictionResponse>,
    totalClients: int,
    approvedCount: int,
    rejectedCount: int)

  /**
   * The response for one client: its probabilities, the decision under the
   * loaded threshold, that threshold and the client's own identifier.
   */
  function ResponseFor(p: CreditScorePredictor, client: ClientFeatures): (r: Result<PredictionResponse, PredictError>)
    reads p
    ensures r.Ok? <==> p.Score(client.features).Ok?
    ensures r.Err? ==> r.error == p.Score(client.features).error
    ensures r.Ok? ==> r.value.clientId == client.clientId && r.value.thresholdUsed == p.GetThreshold()
    ensures r.Ok? ==> r.value.probabilityDefault == p.Score(client.features).value.pDefault
    ensures r.Ok? ==> r.value.probabilityNoDefault == p.Score(client.features).value.pNoDefault
    ensures r.Ok? ==> ResponseConsistent(r.value)
  {
    match p.Score(client.features)
    case Err(e) => Err(e)
    case Ok(probs) =>
      var v := Decide(probs.pDefault, p.threshold);
      Ok(PredictionResponse(client.clientId, probs.pDefault, probs.pNoDefault, v.prediction, v.decision, p.threshold))
  }

  /** The decision agrees with the reported probability and threshold. */
  predicate ResponseConsistent(resp: PredictionResponse) {
    && (resp.prediction == 0 || resp.prediction == 1)
    && (resp.prediction == 1 <==> resp.probabilityDefault > resp.thresholdUsed)
    && (resp.decision == Rejected <==> resp.prediction == 1)
  }

  /** `predict`: score the client, decide under the loaded threshold and assemble the response. */
  method Predict(p: CreditScorePredictor, client: ClientFeatures) returns (r: Result<PredictionResponse, PredictError>)
    ensures r == ResponseFor(p, client)
  {
    var probs := p.PredictProba(client.features);
    if probs.Err? {
      return Err(probs.error);
    }
    var verdict := p.Predict(client.features, None);
    if verdict.Err? {
      // Scoring is deterministic: the model already answered for these features.
      assert false;
    }
    r := Ok(PredictionResponse(client.clientId, probs.value.pDefault, probs.value.pNoDefault,
                               verdict.value.prediction, verdict.value.decision, p.GetThreshold()));
  }

  /** The number of approved responses. */
  function CountApproved(preds: seq<PredictionResponse>): nat {
    if preds == [] then 0
    else CountApproved(preds[..|preds| - 1]) + (if preds[|preds| - 1].decision == Approved then 1 else 0)
  }

  /** The number of rejected responses (those not approved). */
  function CountRejected(preds: seq<PredictionResponse>): nat {
    if preds == [] then 0
    else CountRejected(preds[..|preds| - 1]) + (if preds[|preds| - 1].decision == Rejected then 1 else 0)
  }

  /** Every response is counted exactly once, as approved or as rejected. */
  lemma {:induction false} CountsPartition(preds: seq<PredictionResponse>)
    ensures CountApproved(preds) + CountRejected(preds) == |preds|
  {
    if preds != [] {
      CountsPartition(preds[..|preds| - 1]);
    }
  }

  /**
   * No response is rejected exactly when all are approved, and none is approved
   * exactly when all are rejected.
   */
  lemma {:induction false} CountsExtremes(preds: seq<PredictionResponse>)
    ensures CountRejected(preds) == 0 <==> forall i :: 0 <= i < |preds| ==> preds[i].decision == Approved
    ensures CountApproved(preds) == 0 <==> forall i :: 0 <= i < |preds| ==> preds[i].decision == Rejected
  {
    if preds != [] {
      var front := preds[..|preds| - 1];
      CountsExtremes(front);
      assert forall i :: 0 <= i < |front| ==> front[i] == preds[i];
    }
  }

  /** Appending one response adds it to exactly one of the two counts. */
  lemma CountsAppend(preds: seq<PredictionResponse>, resp: PredictionResponse)
    ensures CountApproved(preds + [resp]) == CountApproved(preds) + (if resp.decision == Approved then 1 else 0)
    ensures CountRejected(preds + [resp]) == CountRejected(preds) + (if resp.decision == Approved then 0 else 1)
  {
    assert (preds + [resp])[..|preds|] == preds;
  }

  /**
   * `predict_batch`: answer every client in input order and count the
   * approvals and the rest; the first client that raises fails the batch.
   */
  method PredictBatch(p: CreditScorePredictor, clients: seq<ClientFeatures>) returns (r: Result<BatchPredictionResponse, PredictError>)
    ensures r.Err? <==> exists i :: 0 <= i < |clients| && ResponseFor(p, clients[i]).Err?
    ensures r.Err? ==> exists i :: 0 <= i < |clients| && ResponseFor(p, clients[i]) == Err(r.error) &&
                         forall j :: 0 <= j < i ==> ResponseFor(p, clients[j]).Ok?
    ensures r.Ok? ==> |r.value.predictions| == |clients| == r.value.totalClients
    ensures r.Ok? ==> forall i :: 0 <= i < |clients| ==> ResponseFor(p, clients[i]) == Ok(r.value.predictions[i])
    ensures r.Ok? ==> forall i :: 0 <= i < |clients| ==>
              r.value.predictions[i].clientId == clients[i].clientId &&
              r.value.predictions[i].thresholdUsed == p.GetThreshold()
    ensures r.Ok? ==> r.value.approvedCount == CountApproved(r.value.predictions)
    ensures r.Ok? ==> r.value.rejectedCount == CountRejected(r.value.predictions)
    ensures r.Ok? ==> r.value.approvedCount + r.value.rejectedCount == r.value.totalClients
    ensures clients == [] ==> r == Ok(BatchPredictionResponse([], 0, 0, 0))
  {
    var predictions: seq<PredictionResponse> := [];
    var approvedCount, rejectedCount := 0, 0;
    for i := 0 to |clients|
      invariant |predictions| == i
      invariant forall k :: 0 <= k < i ==> ResponseFor(p, clients[k]) == Ok(predictions[k])
      invariant approvedCount == CountApproved(predictions)
      invariant rejectedCount == CountRejected(predictions)
    {
      var response := Predict(p, clients[i]);
      if response.Err? {
        assert ResponseFor(p, clients[i]) == Err(response.error);
        return Err(response.error);
      }
      CountsAppend(predictions, response.value);
      predictions := predictions + [response.value];
      if response.value.decision == Approved {
        approvedCount := approvedCount + 1;
      } else {
        rejectedCount := rejectedCount + 1;
      }
    }
    CountsPartition(predictions);
    assert forall k :: 0 <= k < |clients| ==> ResponseFor(p, clients[k]).Ok?;
    r := Ok(BatchPredictionResponse(predictions, |predictions|, approvedCount, rejectedCount));
  }
}
