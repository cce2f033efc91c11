# SDQC stance classification: the deterministic core

This project models, in Dafny, the label and list handling of the stance
classifier in `rumoureval/classification/sdqc.py`. That classifier gives each
reply in a conversation thread one of four labels: support, deny, query or
comment. Four pieces are modelled.

- **The training filter** (`filter_tweets`). For each training tweet it walks the
  parent links up to the thread's root. It always keeps root tweets. It caches
  each root's text per root id within one call. When `filter_short` is set, it
  drops a reply whose text splits on `' '` into fewer than three pieces. Otherwise
  it keeps a reply only when the reply's similarity to the root text is below the
  threshold.
- **One-vs-rest relabelling** (`generate_one_vs_rest_annotations`). It maps every
  annotation to `one` or to `not_<one>`. The misclassification test used by the
  query and deny listings is modelled too.
- **The ensemble combiner.** It merges the base, deny and query predictions by two
  priority rules, "without deny" and "with deny".
- **Strategy selection and result packaging.** The with-deny labels win only on
  strictly higher accuracy. The chosen labels are then written into a dictionary
  keyed by each evaluation tweet's `id_str`.

Files and modules:

- `threads.dfy` (`Threads`): the parent relation as a map from tweet id to an
  optional parent id, the root walk as a function and as a loop, and lemmas
  about ancestors.
- `text_split.dfy` (`TextSplit`): Python's `str.split(sep)` with an explicit
  one-character separator, its inverse `sep.join`, and both round trips.
- `training_filter.dfy` (`TrainingFilter`): the filter loop with its root-text
  cache, proved equal to a specification function. It also holds the lemmas on
  membership, order, kept roots, dropped short replies and the similarity test,
  and a concrete root-and-three-replies scenario.
- `labels.dfy` (`Labels`): the label constants, one-vs-rest relabelling and the
  misclassification predicate and listing.
- `ensemble.dfy` (`Ensemble`): the two priority rules, the combining loop,
  accuracy as a match count and as a fraction, the strategy choice and the result dictionary.

Collaborators the model cannot see are passed in as parameters. These are the
tweet text extractor (`text: TweetId -> string`) and the TF-IDF cosine
similarity (`similarity: (string, string) -> Option<real>`, `None` where the
vectorizer raises). The classifiers' predictions
and the gold labels are also inputs.

Three details of the code shape the filter model:

- The short-reply test splits on the single space character, not on runs of
  whitespace. So "fewer than 3 pieces" means "fewer than two `' '` characters";
  tabs and newlines do not count, and repeated spaces give empty pieces.
- `sdqc` itself calls `filter_tweets` with its defaults (`filter_short=False`,
  threshold 0.9). The filter model takes both as parameters.
- The TF-IDF step can raise `ValueError`, which aborts the whole call. The
  similarity oracle returns `None` for that case, and the filter then returns
  `None` instead of a list.

## Model

| member | source | states |
|---|---|---|
| `Threads.Root` | rumoureval/classification/sdqc.py:48-50 | the walk ends at a known tweet that has no parent; a root tweet is its own root |
| `Threads.FindRoot` | rumoureval/classification/sdqc.py:48-50 | the iterative walk (reassign to the parent while there is one) returns exactly `Root` |
| `Threads.RootIsAncestor` | rumoureval/classification/sdqc.py:48-50 | the root found is the tweet itself or one of its ancestors |
| `Threads.AncestorSharesRoot` | rumoureval/classification/sdqc.py:48-50 | every ancestor of a tweet has the same root as the tweet |
| `Threads.RootIsUnique` | rumoureval/classification/sdqc.py:48-50 | the root is the only parentless tweet on a tweet's ancestor chain |
| `TextSplit.Split` | rumoureval/classification/sdqc.py:66 | splitting on a separator gives one more piece than there are separators, and no piece contains the separator |
| `TextSplit.JoinSplit` | rumoureval/classification/sdqc.py:66 | joining the pieces with the separator gives back the original text |
| `TextSplit.SplitJoin` | rumoureval/classification/sdqc.py:66 | splitting the join of separator-free pieces gives back those pieces |
| `TextSplit.CountConcat` | rumoureval/classification/sdqc.py:66 | the separator count of a concatenation is the sum of the parts' counts |
| `TrainingFilter.TooShort` | rumoureval/classification/sdqc.py:66 | a text splits on `' '` into fewer than 3 pieces exactly when it holds fewer than two spaces |
| `TrainingFilter.Keep` | rumoureval/classification/sdqc.py:48-75 | a root is kept; with `filter_short` set, a reply with fewer than two spaces is dropped; otherwise a reply is kept exactly when its similarity to its root's text is below the threshold, and the decision is `None` exactly when that similarity fails |
| `TrainingFilter.Filtered` | rumoureval/classification/sdqc.py:25-77 | the whole filter as a function over the tweet list: on success the output is no longer than the input and holds only input tweets; `None` when the call aborts |
| `TrainingFilter.FilterTweets` | rumoureval/classification/sdqc.py:25-77 | the loop with the per-call root-text cache returns exactly `Filtered`: the filtered list, or `None` when a similarity fails and the call aborts |
| `TrainingFilter.FailureIsFinal` | rumoureval/classification/sdqc.py:70-71 | once a prefix of the input aborts the call, the whole input does, so the loop may stop at the first failure |
| `TrainingFilter.FilterFails` | rumoureval/classification/sdqc.py:63-75 | the call aborts exactly when some input tweet gets past the root and length tests and its similarity fails |
| `TrainingFilter.FilteredMembers` | rumoureval/classification/sdqc.py:46-77 | when the call succeeds, the output holds only input tweets, and an input tweet is in the output exactly when its keep decision holds |
| `TrainingFilter.FilteredIsSubsequence` | rumoureval/classification/sdqc.py:46-77 | when the call succeeds, the output is the subsequence of the input at exactly the positions whose keep decision holds, in input order, so a tweet listed twice and kept is output twice |
| `TrainingFilter.RootsAreKept` | rumoureval/classification/sdqc.py:52-55 | when the call succeeds, every root tweet of the input is in the output, whatever the flags and threshold |
| `TrainingFilter.ShortRepliesAreDropped` | rumoureval/classification/sdqc.py:65-67 | with `filter_short` set, a reply with fewer than two spaces is dropped before its similarity is computed, so it neither is output nor aborts the call |
| `TrainingFilter.SimilarityDecides` | rumoureval/classification/sdqc.py:69-75 | when the call succeeds, a reply that passes the length test has a similarity, and is in the output exactly when that similarity is below the threshold |
| `TrainingFilter.ShortReplyScenario` | rumoureval/classification/sdqc.py:25-77 | a root with replies "Is that true?", "No it's not true" and "lol same", with `filter_short` set and similarities that succeed below 0.9, keeps the root and the first two replies in order and drops only "lol same" |
| `Labels.NotLabel` | rumoureval/classification/sdqc.py:374 | `not_<one>` differs from `one` and is four characters longer |
| `Labels.OneVsRestLabel` | rumoureval/classification/sdqc.py:373-374 | the result is `one` or `not_<one>`, and it is `one` exactly when the gold label is `one` |
| `Labels.GenerateOneVsRestAnnotations` | rumoureval/classification/sdqc.py:359-375 | the result has exactly the input's keys, and each value is the one-vs-rest label of the input's value |
| `Labels.OneVsRestIdempotent` | rumoureval/classification/sdqc.py:371-375 | relabelling an already relabelled annotation for the same target changes nothing |
| `Labels.Misclassified` | rumoureval/classification/sdqc.py:272-291 | a detector's prediction is misclassified exactly when it is one of the two binary labels and differs from the one-vs-rest label of the gold base label; with `one` = `query` this is the test at line 272, with `one` = `deny` the test at line 291 |
| `Labels.MisclassifiedIndices` | rumoureval/classification/sdqc.py:270-291 | the listing reports, in increasing order, exactly the positions whose prediction is misclassified; it models both the query listing (lines 270-272) and the deny listing (lines 289-291) |
| `Ensemble.WithoutDeny` | rumoureval/classification/sdqc.py:305-310 | the without-deny label is the base label or `query` |
| `Ensemble.WithDeny` | rumoureval/classification/sdqc.py:312-317 | the with-deny label is the base label, `query` or `deny` |
| `Ensemble.CombineWithoutDeny` | rumoureval/classification/sdqc.py:302-310 | `predictions_wo_deny`: one without-deny label per evaluation tweet, as many labels as base predictions |
| `Ensemble.CombineWithDeny` | rumoureval/classification/sdqc.py:302-317 | `predictions_w_deny`: one with-deny label per evaluation tweet, as many labels as base predictions |
| `Ensemble.CombinePriorities` | rumoureval/classification/sdqc.py:302-317 | without deny, a base `comment` wins, then a detector `query`, then base; with deny, a detector `query` wins, then a detector `deny`, then base |
| `Ensemble.StrategiesAgree` | rumoureval/classification/sdqc.py:302-317 | the two rules give the same label wherever base is not `comment` and the deny detector does not say `deny` |
| `Ensemble.CombinedAreClasses` | rumoureval/classification/sdqc.py:302-317 | when every base prediction is one of the four classes, so is every label of both rules |
| `Ensemble.CombinePredictions` | rumoureval/classification/sdqc.py:302-317 | the combining loop produces, index by index, exactly the two rules' label lists |
| `Ensemble.Matches` | rumoureval/classification/sdqc.py:326-327 | the match count is the number of positions where prediction and gold label agree; it is at most the gold length, and equals it exactly when the predictions equal the gold list |
| `Ensemble.Accuracy` | rumoureval/classification/sdqc.py:326-327 | the accuracy lies between 0 and 1, and is 1 exactly when the predictions equal the gold list |
| `Ensemble.AccuracyOrder` | rumoureval/classification/sdqc.py:349 | for the two strategies' lists over one non-empty gold list, the accuracy comparison equals the match-count comparison, so `ChooseStrategy` makes line 349's choice by accuracy |
| `Ensemble.ChooseStrategy` | rumoureval/classification/sdqc.py:349 | the chosen list is one of the two lists, has at least as many matches as each, and is the without-deny list on a tie |
| `Ensemble.BuildResults` | rumoureval/classification/sdqc.py:351-354 | the keys are exactly the evaluation tweets' `id_str`s, and each key maps to the prediction at its last occurrence (later duplicates overwrite earlier ones) |
| `Ensemble.EnsembleResults` | rumoureval/classification/sdqc.py:302-356 | the result maps each evaluation `id_str` to the chosen strategy's label at its last occurrence, and has no other keys |

## Left out

- The scikit-learn machinery is not modelled. This covers `GridSearchCV`, `SVC`, `Pipeline`/`FeatureUnion`, `DictVectorizer` and the `build_*_pipeline` constructors with their weight tables. These are library training and numeric optimisation. The three classifiers' predictions enter the model as input lists.
- TF-IDF vectorisation and cosine similarity are floating-point library numerics. They are an oracle function of (root text, reply text) returning a real, or `None` where the vectorizer raises `ValueError`. Dafny reals are exact, so floating-point rounding is not modelled.
- TrainingFilter.FilterTweets: which texts make the vectorizer raise is library behaviour (its default token pattern finds no token in either text). The model leaves that to the oracle; it only models that such a failure aborts the call.
- `TweetDetailExtractor.get_parseable_tweet_text` is not part of this model. It is an oracle function of the tweet id, so equal ids give equal text. Under that model the root-text cache cannot change a result; the filter loop keeps it, with the invariant that each cached entry is the root's text.
- Tweets are identified by their numeric `id`. The test `root_tweet == tweet` is modelled as equality of ids.
- Threads.Forest: the parent links carry a `depth` measure that strictly decreases from reply to parent. This stands for the acyclicity of conversation threads, without which the source's `while` loop would not end.
- `metrics.accuracy_score` is modelled as an integer match count against the gold list, and as that count over the list's length in exact reals (`Ensemble.Accuracy`). Floating-point rounding is not modelled. `Ensemble.Accuracy` requires a non-empty gold list, because the fraction is undefined for an empty one; `Ensemble.ChooseStrategy` compares match counts and so also covers the empty list.
- `classification_report`, `confusion_matrix`, all logging, `print`/`pprint` output and `time()` timing are not modelled.
- The misclassification listing's printing is not modelled. This includes the extra walk to each reported tweet's root for its text, which is the same walk as `Threads.FindRoot`.
- Building the label lists from the annotation dictionaries is not modelled (`y_train_*` and `y_eval_*`, which raise `KeyError` on a missing id). The gold base labels enter `Ensemble.EnsembleResults` as a list.
- Ensemble.CombinePredictions: requires the three prediction lists to have the same length, which the three `predict` calls on one evaluation list always give. The `IndexError` path for a shorter deny or query list is not modelled.
- Ensemble.EnsembleResults: requires the gold list, the `id_str` list and the prediction lists to have the same length, as they all come from one evaluation list.
- Labels.MisclassifiedIndices: requires the prediction and gold lists to have the same length, for the same reason.
- Labels.GenerateOneVsRestAnnotations: Python dictionaries keep insertion order and Dafny maps do not, so the key order of the result is not modelled. The same holds for `Ensemble.BuildResults`.
- Labels stay strings, as in the code. They are not a closed four-variant type, because the code compares strings and the detectors' labels (`not_deny`, `not_query`) lie outside the four classes.
