/** The ensemble combiner: merges the base, deny and query classifiers' predictions
    by two priority rules, keeps the rule with the better accuracy against the
    gold base labels, and packages the chosen labels by tweet `id_str`. */
module Ensemble {
  import opened Labels

  /** Without deny: a base `comment` wins, then a query-detector `query`, then base. */
  function WithoutDeny(base: string, query: string): (r: string)
    ensures r == base || r == Query
  {
    if base == Comment then Comment
    else if query == Query then Query
    else base
  }

  /** With deny: a query-detector `query` wins, then a deny-detector `deny`, then base. */
  function WithDeny(base: string, deny: string, query: string): (r: string)
    ensures r == base || r == Query || r == Deny
  {
    if query == Query then Query
    else if deny == Deny then Deny
    else base
  }

  function CombineWithoutDeny(base: seq<string>, query: seq<string>): (r: seq<string>)
    requires |query| == |base|
    ensures |r| == |base|
  {
    seq(|base|, i requires 0 <= i < |base| => WithoutDeny(base[i], query[i]))
  }

  function CombineWithDeny(base: seq<string>, deny: seq<string>, query: seq<string>): (r: seq<string>)
    requires |deny| == |base| && |query| == |base|
    ensures |r| == |base|
  {
    seq(|base|, i requires 0 <= i < |base| => WithDeny(base[i], deny[i], query[i]))
  }

  /** The priority rules, index by index. */
  lemma CombinePriorities(base: seq<string>, deny: seq<string>, query: seq<string>, i: nat)
    requires |deny| == |base| && |query| == |base| && i < |base|
    ensures base[i] == Comment ==> CombineWithoutDeny(base, query)[i] == Comment
    ensures base[i] != Comment && query[i] == Query ==> CombineWithoutDeny(base, query)[i] == Query
    ensures base[i] != Comment && query[i] != Query ==> CombineWithoutDeny(base, query)[i] == base[i]
    ensures query[i] == Query ==> CombineWithDeny(base, deny, query)[i] == Query
    ensures query[i] != Query && deny[i] == Deny ==> CombineWithDeny(base, deny, query)[i] == Deny
    ensures query[i] != Query && deny[i] != Deny ==> CombineWithDeny(base, deny, query)[i] == base[i]
  {
  }

  /** The two rules disagree only where base says `comment`, or the deny detector says `deny`. */
  lemma StrategiesAgree(base: seq<string>, deny: seq<string>, query: seq<string>, i: nat)
    requires |deny| == |base| && |query| == |base| && i < |base|
    requires base[i] != Comment && deny[i] != Deny
    ensures CombineWithoutDeny(base, query)[i] == CombineWithDeny(base, deny, query)[i]
  {
  }

  /** When every base prediction is one of the four classes, so is every combined label. */
  lemma CombinedAreClasses(base: seq<string>, deny: seq<string>, query: seq<string>)
    requires |deny| == |base| && |query| == |base|
    requires forall i | 0 <= i < |base| :: base[i] in Classes
    ensures forall i | 0 <= i < |base| :: CombineWithoutDeny(base, query)[i] in Classes
    ensures forall i | 0 <= i < |base| :: CombineWithDeny(base, deny, query)[i] in Classes
  {
  }

  /** The combining loop, appending one label per evaluation tweet to each list. */
  method CombinePredictions(base: seq<string>, deny: seq<string>, query: seq<string>)
    returns (woDeny: seq<string>, wDeny: seq<string>)
    requires |deny| == |base| && |query| == |base|
    ensures woDeny == CombineWithoutDeny(base, query)
    ensures wDeny == CombineWithDeny(base, deny, query)
  {
    woDeny, wDeny := [], [];
    for i := 0 to |base|
      invariant woDeny == CombineWithoutDeny(base[..i], query[..i])
      invariant wDeny == CombineWithDeny(base[..i], deny[..i], query[..i])
    {
      if base[i] == Comment {
        woDeny := woDeny + [Comment];
      } else if query[i] == Query {
        woDeny := woDeny + [Query];
      } else {
        woDeny := woDeny + [base[i]];
      }

      if query[i] == Query {
        wDeny := wDeny + [Query];
      } else if deny[i] == Deny {
        wDeny := wDeny + [Deny];
      } else {
        wDeny := wDeny + [base[i]];
      }
    }
    assert base[..|base|] == base && deny[..|base|] == deny && query[..|base|] == query;
  }

  /** The number of positions where a prediction agrees with the gold label; over one
      gold list it orders predictions exactly as their accuracy does. */
  function Matches(predictions: seq<string>, gold: seq<string>): (n: nat)
    requires |predictions| == |gold|
    ensures n == |Agreements(predictions, gold)|
    ensures n <= |gold|
    ensures n == |gold| <==> predictions == gold
  {
    if gold == [] then 0
    else
      var k := |gold| - 1;
      AgreementsStep(predictions, gold);
      Matches(predictions[..k], gold[..k]) + (if predictions[k] == gold[k] then 1 else 0)
  }

  /** The positions where a prediction agrees with the gold label. */
  ghost function Agreements(predictions: seq<string>, gold: seq<string>): set<nat>
    requires |predictions| == |gold|
  {
    set i: nat | i < |gold| && predictions[i] == gold[i]
  }

  lemma AgreementsStep(predictions: seq<string>, gold: seq<string>)
    requires |predictions| == |gold| > 0
    ensures var k := |gold| - 1;
      && k !in Agreements(predictions[..k], gold[..k])
      && Agreements(predictions, gold) ==
           Agreements(predictions[..k], gold[..k]) + (if predictions[k] == gold[k] then {k} else {})
  {
  }

  /** The fraction of positions where a prediction agrees with the gold label. */
  function Accuracy(predictions: seq<string>, gold: seq<string>): (acc: real)
    requires |predictions| == |gold| && |gold| > 0
    ensures 0.0 <= acc <= 1.0
    ensures acc == 1.0 <==> predictions == gold
  {
    var m := Matches(predictions, gold);
    FractionBounds(m as real, |gold| as real);
    m as real / |gold| as real
  }

  lemma FractionBounds(m: real, n: real)
    requires 0.0 <= m <= n && n > 0.0
    ensures 0.0 <= m / n <= 1.0
    ensures m / n == 1.0 <==> m == n
  {
    assert m / n * n == m;
  }

  /** The with-deny labels are chosen only when they match the gold labels strictly
      more often; a tie keeps the without-deny labels. */
  function ChooseStrategy(woDeny: seq<string>, wDeny: seq<string>, gold: seq<string>): (chosen: seq<string>)
    requires |woDeny| == |gold| && |wDeny| == |gold|
    ensures chosen == woDeny || chosen == wDeny
    ensures Matches(chosen, gold) >= Matches(woDeny, gold)
    ensures Matches(chosen, gold) >= Matches(wDeny, gold)
    ensures Matches(woDeny, gold) == Matches(wDeny, gold) ==> chosen == woDeny
  {
    if Matches(woDeny, gold) < Matches(wDeny, gold) then wDeny else woDeny
  }

  /** Both strategies are scored against the same gold list, so comparing their
      accuracies is comparing their match counts, and the choice by match count is
      the choice by accuracy. */
  lemma AccuracyOrder(woDeny: seq<string>, wDeny: seq<string>, gold: seq<string>)
    requires |woDeny| == |gold| && |wDeny| == |gold| && |gold| > 0
    ensures Accuracy(woDeny, gold) < Accuracy(wDeny, gold) <==> Matches(woDeny, gold) < Matches(wDeny, gold)
    ensures ChooseStrategy(woDeny, wDeny, gold) ==
      if Accuracy(woDeny, gold) < Accuracy(wDeny, gold) then wDeny else woDeny
  {
    DivisionKeepsOrder(Matches(woDeny, gold) as real, Matches(wDeny, gold) as real, |gold| as real);
  }

  lemma DivisionKeepsOrder(a: real, b: real, n: real)
    requires n > 0.0
    ensures a / n < b / n <==> a < b
  {
    assert a / n * n == a && b / n * n == b;
    if a < b {
      assert b / n - a / n == (b - a) / n;
    }
  }

  /** Index `i` is the last position in `ids[..n]` holding its id. */
  predicate LastOccurrence(ids: seq<string>, n: nat, i: nat)
    requires i < n <= |ids|
  {
    forall j | i < j < n :: ids[j] != ids[i]
  }

  /** Writes the i-th prediction under the i-th evaluation tweet's `id_str`; a later
      tweet with the same `id_str` overwrites an earlier one. */
  method BuildResults(evalIds: seq<string>, predictions: seq<string>) returns (results: map<string, string>)
    requires |predictions| <= |evalIds|
    ensures results.Keys == set i | 0 <= i < |predictions| :: evalIds[i]
    ensures forall i | 0 <= i < |predictions| && LastOccurrence(evalIds, |predictions|, i) ::
      results[evalIds[i]] == predictions[i]
  {
    results := map[];
    for i := 0 to |predictions|
      invariant results.Keys == set k | 0 <= k < i :: evalIds[k]
      invariant forall k | 0 <= k < i && LastOccurrence(evalIds, i, k) :: results[evalIds[k]] == predictions[k]
    {
      results := results[evalIds[i] := predictions[i]];
    }
  }

  /** The end of classification: combine, choose a rule, package by tweet `id_str`. */
  method EnsembleResults(base: seq<string>, deny: seq<string>, query: seq<string>,
                         goldBase: seq<string>, evalIds: seq<string>)
    returns (results: map<string, string>)
    requires |deny| == |base| && |query| == |base|
    requires |goldBase| == |base| && |evalIds| == |base|
    ensures results.Keys == set i | 0 <= i < |evalIds| :: evalIds[i]
    ensures forall i | 0 <= i < |evalIds| && LastOccurrence(evalIds, |evalIds|, i) ::
      results[evalIds[i]] ==
        ChooseStrategy(CombineWithoutDeny(base, query), CombineWithDeny(base, deny, query), goldBase)[i]
  {
    var woDeny, wDeny := CombinePredictions(base, deny, query);
    var predictions := ChooseStrategy(woDeny, wDeny, goldBase);
    results := BuildResults(evalIds, predictions);
  }
}
