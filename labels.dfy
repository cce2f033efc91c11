/** Stance labels, their one-vs-rest binary relabelling, and the test that picks
    out a binary detector's misclassified tweets. */
module Labels {

  const Comment: string := "comment"
  const Deny: string := "deny"
  const Query: string := "query"
  const Support: string := "support"

  /** The four classes of the base classifier. */
  const Classes: seq<string> := [Comment, Deny, Query, Support]

  /** The label that stands for every class but `one`. */
  function NotLabel(one: string): (r: string)
    ensures r != one && |r| == |one| + 4
  {
    "not_" + one
  }

  /** The one-vs-rest label of a single annotation. */
  function OneVsRestLabel(gold: string, one: string): (r: string)
    ensures r == one || r == NotLabel(one)
    ensures r == one <==> gold == one
  {
    if gold == one then gold else NotLabel(one)
  }

  /** Builds the one-vs-rest annotation map, one key at a time. */
  method GenerateOneVsRestAnnotations(annotations: map<string, string>, one: string)
    returns (oneVsRest: map<string, string>)
    ensures oneVsRest.Keys == annotations.Keys
    ensures forall id | id in annotations :: oneVsRest[id] == OneVsRestLabel(annotations[id], one)
  {
    oneVsRest := map[];
    var remaining := annotations.Keys;
    while remaining != {}
      invariant remaining <= annotations.Keys
      invariant oneVsRest.Keys == annotations.Keys - remaining
      invariant forall id | id in oneVsRest :: oneVsRest[id] == OneVsRestLabel(annotations[id], one)
      decreases remaining
    {
      var id :| id in remaining;
      oneVsRest := oneVsRest[id := if annotations[id] == one then annotations[id] else NotLabel(one)];
      remaining := remaining - {id};
    }
  }

  /** Relabelling an already relabelled map for the same target changes nothing. */
  lemma OneVsRestIdempotent(gold: string, one: string)
    ensures OneVsRestLabel(OneVsRestLabel(gold, one), one) == OneVsRestLabel(gold, one)
  {
  }

  /** A binary detector's prediction is misclassified when it says `one` for a
      tweet whose gold base label is not `one`, or `not_one` for one whose is. */
  function Misclassified(prediction: string, gold: string, one: string): (wrong: bool)
    ensures wrong <==>
      (prediction == one || prediction == NotLabel(one)) && prediction != OneVsRestLabel(gold, one)
  {
    (prediction == one && gold != one) || (prediction == NotLabel(one) && gold == one)
  }

  /** The positions the misclassification listing reports, in order. */
  method MisclassifiedIndices(predictions: seq<string>, goldBase: seq<string>, one: string)
    returns (indices: seq<nat>)
    requires |goldBase| == |predictions|
    ensures forall k | 0 <= k < |indices| :: indices[k] < |predictions|
    ensures forall k, l | 0 <= k < l < |indices| :: indices[k] < indices[l]
    ensures forall i | 0 <= i < |predictions| ::
      i in indices <==> Misclassified(predictions[i], goldBase[i], one)
  {
    indices := [];
    for i := 0 to |predictions|
      invariant forall k | 0 <= k < |indices| :: indices[k] < i
      invariant forall k, l | 0 <= k < l < |indices| :: indices[k] < indices[l]
      invariant forall j | 0 <= j < i :: j in indices <==> Misclassified(predictions[j], goldBase[j], one)
    {
      var prediction := predictions[i];
      if Misclassified(prediction, goldBase[i], one) {
        indices := indices + [i];
      }
    }
  }
}
