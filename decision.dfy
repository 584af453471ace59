/**
 * The decision rule: a default probability against the active threshold
 * gives a binary prediction and the business decision.
 */
module DecisionRule {
  import opened Wrappers

  /** The business decision; a predicted default means rejection. */
  datatype Decision = Approved | Rejected {
    /** The label the service reports. */
    function Text(): (s: string)
      ensures s == "APPROVED" || s == "REJECTED"
      ensures (s == "REJECTED") <==> Rejected?
    {
      if Rejected? then "REJECTED" else "APPROVED"
    }
  }

  /** What `predict` returns: the 0/1 prediction and the decision. */
  datatype Verdict = Verdict(prediction: int, decision: Decision)

  /** The caller's override when one is given, otherwise the loaded threshold. */
  function ActiveThreshold(override: Option<real>, loaded: real): (t: real)
    ensures override.Some? ==> t == override.value
    ensures override.None? ==> t == loaded
  {
    match override
    case Some(t) => t
    case None => loaded
  }

  /** Predict default exactly when the probability strictly exceeds the threshold. */
  function Decide(pDefault: real, threshold: real): (v: Verdict)
    ensures v.prediction == 0 || v.prediction == 1
    ensures v.prediction == 1 <==> pDefault > threshold
    ensures v.decision == Rejected <==> v.prediction == 1
  {
    var prediction := if pDefault > threshold then 1 else 0;
    Verdict(prediction, if prediction == 1 then Rejected else Approved)
  }

  /** A probability equal to the threshold is approved: the comparison is strict. */
  lemma TieIsApproved(p: real)
    ensures Decide(p, p) == Verdict(0, Approved)
  {
  }

  /** Raising the threshold never turns an approval into a rejection. */
  lemma ThresholdMonotone(p: real, t1: real, t2: real)
    requires t1 <= t2
    ensures Decide(p, t1).decision == Approved ==> Decide(p, t2).decision == Approved
  {
  }

  /** A higher default probability never turns a rejection into an approval. */
  lemma ProbabilityMonotone(p1: real, p2: real, t: real)
    requires p1 <= p2
    ensures Decide(p1, t).decision == Rejected ==> Decide(p2, t).decision == Rejected
  {
  }

  /** Probability 0.7 is rejected under threshold 0.48 and approved under 0.8. */
  lemma ThresholdExample()
    ensures Decide(0.7, 0.48) == Verdict(1, Rejected)
    ensures Decide(0.7, 0.8) == Verdict(0, Approved)
  {
  }
}
