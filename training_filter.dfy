/** The training-set filter: drops replies that are too short or that restate the
    root tweet of their thread, and always keeps root tweets. */
module TrainingFilter {
  import opened Threads
  import opened TextSplit

  /** The two collaborators the filter consults: the parseable text of a tweet
      (the tweet detail extractor) and the TF-IDF cosine similarity of a root text
      and a reply text, computed over a vocabulary of those two documents only.
      The similarity is `None` where the vectorizer raises `ValueError` (neither
      text holds a token of its vocabulary), which aborts the whole filter call. */
  datatype Extractor = Extractor(text: TweetId -> string, similarity: (string, string) -> Option<real>)

  /** A reply is too short when splitting its text on the space character gives
      fewer than three pieces, that is, when it holds fewer than two spaces. */
  function TooShort(text: string): (short: bool)
    ensures short <==> Count(text, ' ') < 2
  {
    |Split(text, ' ')| < 3
  }

  /** Every tweet in the list is a known tweet of the forest. */
  predicate InForest(f: Forest, tweets: seq<TweetId>)
  {
    forall id | id in tweets :: id in f.parent
  }

  /** The keep/drop decision for one tweet; `None` when its similarity fails. */
  function Keep(f: Forest, ex: Extractor, filterShort: bool, threshold: real, id: TweetId): (keep: Option<bool>)
    requires f.Valid() && id in f.parent
    ensures f.IsRoot(id) ==> keep == Some(true)
    ensures !f.IsRoot(id) && filterShort && Count(ex.text(id), ' ') < 2 ==> keep == Some(false)
    ensures keep.None? <==>
      !f.IsRoot(id) && !(filterShort && Count(ex.text(id), ' ') < 2) &&
      ex.similarity(ex.text(Root(f, id)), ex.text(id)).None?
    ensures keep == Some(true) <==>
      f.IsRoot(id) ||
      (!(filterShort && Count(ex.text(id), ' ') < 2) &&
       ex.similarity(ex.text(Root(f, id)), ex.text(id)).Some? &&
       ex.similarity(ex.text(Root(f, id)), ex.text(id)).value < threshold)
  {
    var root := Root(f, id);
    if root == id then Some(true)
    else if filterShort && TooShort(ex.text(id)) then Some(false)
    else
      match ex.similarity(ex.text(root), ex.text(id))
      case None => None
      case Some(similarity) => Some(similarity < threshold)
  }

  /** The tweets the filter keeps, in input order; `None` when the call aborts. */
  function Filtered(f: Forest, ex: Extractor, filterShort: bool, threshold: real, tweets: seq<TweetId>)
    : (out: Option<seq<TweetId>>)
    requires f.Valid() && InForest(f, tweets)
    ensures out.Some? ==> |out.value| <= |tweets|
    ensures out.Some? ==> forall x | x in out.value :: x in tweets
  {
    if tweets == [] then Some([])
    else
      var last := tweets[|tweets| - 1];
      match Filtered(f, ex, filterShort, threshold, tweets[..|tweets| - 1])
      case None => None
      case Some(kept) =>
        match Keep(f, ex, filterShort, threshold, last)
        case None => None
        case Some(keep) => Some(if keep then kept + [last] else kept)
  }

  /** The loop over the tweets, with the per-call cache of root texts keyed by root id.
      A failing similarity ends the call with `None`, as the raised error does. */
  method FilterTweets(f: Forest, ex: Extractor, filterShort: bool, threshold: real, tweets: seq<TweetId>)
    returns (result: Option<seq<TweetId>>)
    requires f.Valid() && InForest(f, tweets)
    ensures result == Filtered(f, ex, filterShort, threshold, tweets)
  {
    var rootCache: map<TweetId, string> := map[];
    var filtered := [];
    for i := 0 to |tweets|
      invariant Filtered(f, ex, filterShort, threshold, tweets[..i]) == Some(filtered)
      invariant forall r | r in rootCache :: rootCache[r] == ex.text(r)
    {
      assert tweets[..i + 1][..i] == tweets[..i];
      var tweet := tweets[i];
      var rootTweet := FindRoot(f, tweet);

      // Root tweets are never filtered.
      if rootTweet == tweet {
        filtered := filtered + [tweet];
        continue;
      }

      var rootText := if rootTweet in rootCache then rootCache[rootTweet] else ex.text(rootTweet);
      rootCache := rootCache[rootTweet := rootText];
      var tweetText := ex.text(tweet);

      if filterShort && |Split(tweetText, ' ')| < 3 {
        continue;
      }

      var similarity := ex.similarity(rootText, tweetText);
      if similarity.None? {
        FailureIsFinal(f, ex, filterShort, threshold, tweets, i + 1);
        return None;
      }
      if similarity.value < threshold {
        filtered := filtered + [tweet];
      }
    }
    assert tweets[..|tweets|] == tweets;
    result := Some(filtered);
  }

  /** Once a prefix of the input aborts the call, the whole input does. */
  lemma {:induction false} FailureIsFinal(f: Forest, ex: Extractor, filterShort: bool, threshold: real,
                                          tweets: seq<TweetId>, n: nat)
    requires f.Valid() && InForest(f, tweets) && n <= |tweets|
    requires Filtered(f, ex, filterShort, threshold, tweets[..n]).None?
    ensures Filtered(f, ex, filterShort, threshold, tweets).None?
    decreases |tweets| - n
  {
    if n < |tweets| {
      assert tweets[..n + 1][..n] == tweets[..n];
      FailureIsFinal(f, ex, filterShort, threshold, tweets, n + 1);
    } else {
      assert tweets[..n] == tweets;
    }
  }

  /** The call aborts exactly when some input tweet reaches a similarity that fails. */
  lemma {:induction false} FilterFails(f: Forest, ex: Extractor, filterShort: bool, threshold: real, tweets: seq<TweetId>)
    requires f.Valid() && InForest(f, tweets)
    ensures Filtered(f, ex, filterShort, threshold, tweets).None? <==>
      exists x | x in tweets :: Keep(f, ex, filterShort, threshold, x).None?
  {
    if tweets != [] {
      var init := tweets[..|tweets| - 1];
      assert tweets == init + [tweets[|tweets| - 1]];
      FilterFails(f, ex, filterShort, threshold, init);
    }
  }

  /** When the call succeeds, a tweet is in the output exactly when it is in the input
      and its own keep decision says so; the output holds nothing else. */
  lemma {:induction false} FilteredMembers(f: Forest, ex: Extractor, filterShort: bool, threshold: real, tweets: seq<TweetId>)
    requires f.Valid() && InForest(f, tweets)
    ensures Filtered(f, ex, filterShort, threshold, tweets).Some? ==>
      forall x | x in Filtered(f, ex, filterShort, threshold, tweets).value :: x in tweets
    ensures Filtered(f, ex, filterShort, threshold, tweets).Some? ==>
      forall x | x in tweets ::
        (x in Filtered(f, ex, filterShort, threshold, tweets).value <==>
         Keep(f, ex, filterShort, threshold, x) == Some(true))
  {
    if tweets != [] {
      var init := tweets[..|tweets| - 1];
      assert tweets == init + [tweets[|tweets| - 1]];
      FilteredMembers(f, ex, filterShort, threshold, init);
      FilterFails(f, ex, filterShort, threshold, init);
    }
  }

  /** `idx` lists, in increasing order, the positions in `b` that the elements of `a` come from. */
  ghost predicate Embedding<T>(idx: seq<nat>, a: seq<T>, b: seq<T>)
  {
    && |idx| == |a|
    && (forall k | 0 <= k < |idx| :: idx[k] < |b| && a[k] == b[idx[k]])
    && (forall k, l | 0 <= k < l < |idx| :: idx[k] < idx[l])
  }

  /** `idx` lists exactly the input positions whose keep decision says so. */
  ghost predicate KeptPositions(f: Forest, ex: Extractor, filterShort: bool, threshold: real,
                                idx: seq<nat>, tweets: seq<TweetId>)
    requires f.Valid() && InForest(f, tweets)
  {
    forall i | 0 <= i < |tweets| :: i in idx <==> Keep(f, ex, filterShort, threshold, tweets[i]) == Some(true)
  }

  /** The filter only appends in iteration order: its output is the subsequence of its
      input at exactly the positions it keeps, so each occurrence of a kept tweet is
      output once. */
  lemma {:induction false} FilteredIsSubsequence(f: Forest, ex: Extractor, filterShort: bool, threshold: real, tweets: seq<TweetId>)
    requires f.Valid() && InForest(f, tweets)
    ensures Filtered(f, ex, filterShort, threshold, tweets).Some? ==>
      exists idx :: Embedding(idx, Filtered(f, ex, filterShort, threshold, tweets).value, tweets) &&
        KeptPositions(f, ex, filterShort, threshold, idx, tweets)
  {
    var out := Filtered(f, ex, filterShort, threshold, tweets);
    if tweets == [] {
      assert Embedding([], out.value, tweets) && KeptPositions(f, ex, filterShort, threshold, [], tweets);
    } else if out.Some? {
      var n := |tweets| - 1;
      var init, last := tweets[..n], tweets[n];
      assert tweets == init + [last];
      var kept := Filtered(f, ex, filterShort, threshold, init).value;
      FilteredIsSubsequence(f, ex, filterShort, threshold, init);
      var idx: seq<nat> :| Embedding(idx, kept, init) && KeptPositions(f, ex, filterShort, threshold, idx, init);
      var keep := Keep(f, ex, filterShort, threshold, last) == Some(true);
      var idx': seq<nat> := if keep then idx + [|init|] else idx;
      EmbeddingAppend(idx, kept, init, last);
      KeptPositionsAppend(f, ex, filterShort, threshold, idx, init, last);
      assert Embedding(idx', out.value, tweets) && KeptPositions(f, ex, filterShort, threshold, idx', tweets);
    }
  }

  lemma KeptPositionsAppend(f: Forest, ex: Extractor, filterShort: bool, threshold: real,
                            idx: seq<nat>, tweets: seq<TweetId>, x: TweetId)
    requires f.Valid() && InForest(f, tweets) && x in f.parent && |tweets| !in idx
    requires KeptPositions(f, ex, filterShort, threshold, idx, tweets)
    ensures InForest(f, tweets + [x])
    ensures KeptPositions(f, ex, filterShort, threshold,
      if Keep(f, ex, filterShort, threshold, x) == Some(true) then idx + [|tweets|] else idx, tweets + [x])
  {
    assert forall i | 0 <= i < |tweets| :: (tweets + [x])[i] == tweets[i];
  }

  /** Appending one element to the input extends an embedding, with or without the
      new element in the output. */
  lemma EmbeddingAppend<T>(idx: seq<nat>, a: seq<T>, b: seq<T>, x: T)
    requires Embedding(idx, a, b)
    ensures |b| !in idx
    ensures Embedding(idx, a, b + [x])
    ensures Embedding(idx + [|b|], a + [x], b + [x])
  {
    assert forall k | 0 <= k < |idx| :: idx[k] != |b|;
  }

  /** Every root tweet of the input is in the output. */
  lemma RootsAreKept(f: Forest, ex: Extractor, filterShort: bool, threshold: real, tweets: seq<TweetId>)
    requires f.Valid() && InForest(f, tweets)
    ensures Filtered(f, ex, filterShort, threshold, tweets).Some? ==>
      forall x | x in tweets && f.IsRoot(x) :: x in Filtered(f, ex, filterShort, threshold, tweets).value
  {
    FilteredMembers(f, ex, filterShort, threshold, tweets);
  }

  /** With `filterShort` set, a reply with fewer than two spaces in its text is never
      kept, and never reaches the similarity that could abort the call. */
  lemma ShortRepliesAreDropped(f: Forest, ex: Extractor, threshold: real, tweets: seq<TweetId>)
    requires f.Valid() && InForest(f, tweets)
    ensures forall x | x in f.parent && !f.IsRoot(x) && Count(ex.text(x), ' ') < 2 ::
      Keep(f, ex, true, threshold, x) == Some(false)
    ensures Filtered(f, ex, true, threshold, tweets).Some? ==>
      forall x | x in f.parent && !f.IsRoot(x) && Count(ex.text(x), ' ') < 2 ::
        x !in Filtered(f, ex, true, threshold, tweets).value
  {
    FilteredMembers(f, ex, true, threshold, tweets);
  }

  /** When the call succeeds, a reply that passes the length test is kept exactly when
      its similarity to the root text is below the threshold. */
  lemma SimilarityDecides(f: Forest, ex: Extractor, filterShort: bool, threshold: real, tweets: seq<TweetId>)
    requires f.Valid() && InForest(f, tweets)
    ensures Filtered(f, ex, filterShort, threshold, tweets).Some? ==>
      forall x | x in tweets && !f.IsRoot(x) && !(filterShort && Count(ex.text(x), ' ') < 2) ::
        ex.similarity(ex.text(Root(f, x)), ex.text(x)).Some? &&
        (x in Filtered(f, ex, filterShort, threshold, tweets).value <==>
         ex.similarity(ex.text(Root(f, x)), ex.text(x)).value < threshold)
  {
    FilteredMembers(f, ex, filterShort, threshold, tweets);
    FilterFails(f, ex, filterShort, threshold, tweets);
  }

  /** A root (0) with three replies: "Is that true?" (1), "No it's not true" (2) and
      "lol same" (3). */
  const ScenarioForest: Forest :=
    Forest(map[0 := None, 1 := Some(0), 2 := Some(0), 3 := Some(0)], map[0 := 0, 1 := 1, 2 := 1, 3 := 1])

  function ScenarioText(id: TweetId): string
  {
    if id == 0 then "Breaking news: X happened"
    else if id == 1 then "Is that true?"
    else if id == 2 then "No it's not true"
    else "lol same"
  }

  lemma ScenarioIsForest()
    ensures ScenarioForest.Valid() && InForest(ScenarioForest, [0, 1, 2, 3])
    ensures Root(ScenarioForest, 0) == 0 && Root(ScenarioForest, 1) == 0
    ensures Root(ScenarioForest, 2) == 0 && Root(ScenarioForest, 3) == 0
  {
  }

  lemma ScenarioFirstReplyIsLong()
    ensures !TooShort(ScenarioText(1))
  {
    assert ScenarioText(1) == "Is that true?" && Count("Is that true?", ' ') == 2;
  }

  lemma ScenarioSecondReplyIsLong()
    ensures !TooShort(ScenarioText(2))
  {
    CountConcat("No it's ", "not true", ' ');
    assert ScenarioText(2) == "No it's " + "not true";
  }

  lemma ScenarioThirdReplyIsShort()
    ensures TooShort(ScenarioText(3))
  {
    assert ScenarioText(3) == "lol same" && Count("lol same", ' ') == 1;
  }

  lemma ScenarioDecisions(similarity: (string, string) -> Option<real>)
    requires forall a, b :: similarity(a, b).Some? && similarity(a, b).value < 0.9
    ensures ScenarioForest.Valid() && 0 in ScenarioForest.parent && 1 in ScenarioForest.parent
    ensures 2 in ScenarioForest.parent && 3 in ScenarioForest.parent
    ensures Keep(ScenarioForest, Extractor(ScenarioText, similarity), true, 0.9, 0) == Some(true)
    ensures Keep(ScenarioForest, Extractor(ScenarioText, similarity), true, 0.9, 1) == Some(true)
    ensures Keep(ScenarioForest, Extractor(ScenarioText, similarity), true, 0.9, 2) == Some(true)
    ensures Keep(ScenarioForest, Extractor(ScenarioText, similarity), true, 0.9, 3) == Some(false)
  {
    ScenarioIsForest();
    ScenarioFirstReplyIsLong();
    ScenarioSecondReplyIsLong();
    ScenarioThirdReplyIsShort();
  }

  /** One step of the filter: appending a tweet whose decision is known. */
  lemma FilteredAppend(f: Forest, ex: Extractor, filterShort: bool, threshold: real,
                       tweets: seq<TweetId>, x: TweetId, kept: seq<TweetId>, keep: bool)
    requires f.Valid() && InForest(f, tweets) && x in f.parent
    requires Filtered(f, ex, filterShort, threshold, tweets) == Some(kept)
    requires Keep(f, ex, filterShort, threshold, x) == Some(keep)
    ensures InForest(f, tweets + [x])
    ensures Filtered(f, ex, filterShort, threshold, tweets + [x]) == Some(if keep then kept + [x] else kept)
  {
    assert (tweets + [x])[..|tweets|] == tweets;
  }

  /** With `filterShort` set and replies unlike the root, the filter drops only the
      two-word reply. */
  lemma ShortReplyScenario(similarity: (string, string) -> Option<real>)
    requires forall a, b :: similarity(a, b).Some? && similarity(a, b).value < 0.9
    ensures ScenarioForest.Valid() && InForest(ScenarioForest, [0, 1, 2, 3])
    ensures Filtered(ScenarioForest, Extractor(ScenarioText, similarity), true, 0.9, [0, 1, 2, 3]) == Some([0, 1, 2])
  {
    ScenarioIsForest();
    ScenarioDecisions(similarity);
    var f, ex := ScenarioForest, Extractor(ScenarioText, similarity);
    assert Filtered(f, ex, true, 0.9, []) == Some([]);
    FilteredAppend(f, ex, true, 0.9, [], 0, [], true);
    assert [] + [0] == [0];
    FilteredAppend(f, ex, true, 0.9, [0], 1, [0], true);
    assert [0] + [1] == [0, 1];
    FilteredAppend(f, ex, true, 0.9, [0, 1], 2, [0, 1], true);
    assert [0, 1] + [2] == [0, 1, 2];
    FilteredAppend(f, ex, true, 0.9, [0, 1, 2], 3, [0, 1, 2], false);
    assert [0, 1, 2] + [3] == [0, 1, 2, 3];
  }
}
