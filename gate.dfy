/** The relevance pre-filter and the dispatch decision of `fetch_news`: a
    headline is classified only when it mentions one of the keywords, and a
    verdict is forwarded either on the main path (up or down with at least 65
    percent) or on the force-review path (a special-topic word in the
    headline, at least 60 percent, any direction but "neutral"). */
module Gate {
  import opened Text
  import opened ReplyParser

  /** The relevance keywords, as written (mixed case). */
  const Keywords: seq<string> := ["bitcoin", "crypto", "ethereum", "SEC", "inflation", "interest rate",
    "Trump", "ETF", "Binance", "lawsuit", "regulation", "hacked", "halving", "adoption", "crackdown",
    "tariff", "federal reserve", "usd", "recession"]

  /** The special topics that lower the bar, already lower-case. */
  const ForceReview: seq<string> := ["trump", "protest", "unrest", "clash", "musk", "riot", "chaos",
    "emergency", "conflict"]

  const MainThreshold := 65
  const ForceThreshold := 60

  /** Which branch of the if/elif/else the verdict takes. */
  datatype Decision = MainAlert | ForcedAlert | Skip

  /** `any(keyword.lower() in title.lower() for keyword in words)` */
  predicate MentionsAnyIgnoringCase(words: seq<string>, title: string) {
    exists i :: 0 <= i < |words| && IsSubstring(Lower(words[i]), Lower(title))
  }

  /** `any(word in title.lower() for word in words)`: the words themselves are
      not lower-cased. */
  predicate MentionsAnyInLowered(words: seq<string>, title: string) {
    exists i :: 0 <= i < |words| && IsSubstring(words[i], Lower(title))
  }

  /** The relevance test that guards the classifier call. */
  predicate IsRelevant(title: string) {
    MentionsAnyIgnoringCase(Keywords, title)
  }

  /** The if/elif/else that follows the classifier call, for a given list of
      force-review words. */
  function Decide(title: string, v: Verdict, force: seq<string>): (d: Decision)
    ensures d == MainAlert <==> (v.direction == "up" || v.direction == "down") && v.confidence >= MainThreshold
    ensures d == ForcedAlert ==> v.direction != "neutral" && v.confidence >= ForceThreshold
    ensures d == ForcedAlert ==> MentionsAnyInLowered(force, title)
  {
    if v.direction in ["up", "down"] && v.confidence >= MainThreshold then MainAlert
    else if MentionsAnyInLowered(force, title) && v.confidence >= ForceThreshold && v.direction != "neutral" then
      ForcedAlert
    else Skip
  }

  /** Whether the analyzer sends the alert, with the words it uses. */
  predicate Dispatches(title: string, v: Verdict) {
    Decide(title, v, ForceReview) != Skip
  }

  // ---------------------------------------------------------------------------
  // Properties of the gate

  /** The analyzer sends an alert exactly for an up or down verdict of at
      least 65 percent, or for a verdict other than "neutral" of at least 60
      percent on a headline that mentions a special topic in any case. */
  lemma DispatchesIff(title: string, v: Verdict)
    ensures Dispatches(title, v) <==>
      ((v.direction == "up" || v.direction == "down") && v.confidence >= MainThreshold)
      || (MentionsAnyIgnoringCase(ForceReview, title) && v.confidence >= ForceThreshold && v.direction != "neutral")
  {
    DecideDispatchesIff(title, v, ForceReview);
    ForceReviewIgnoresCase(title);
  }

  /** The gate dispatches exactly on the main path or the force-review path. */
  lemma DecideDispatchesIff(title: string, v: Verdict, force: seq<string>)
    ensures Decide(title, v, force) != Skip <==>
      ((v.direction == "up" || v.direction == "down") && v.confidence >= MainThreshold)
      || (MentionsAnyInLowered(force, title) && v.confidence >= ForceThreshold && v.direction != "neutral")
  {
  }

  /** No verdict below 60 percent is forwarded, whatever the headline, the
      direction or the force-review words. */
  lemma GateFloor(title: string, v: Verdict, force: seq<string>)
    requires v.confidence < ForceThreshold
    ensures Decide(title, v, force) == Skip
  {
  }

  /** A neutral verdict is never forwarded, on either path. */
  lemma NeutralNeverDispatches(title: string, v: Verdict, force: seq<string>)
    requires v.direction == "neutral"
    ensures Decide(title, v, force) == Skip
  {
  }

  /** An up or down verdict of at least 65 percent is forwarded on the main
      path whatever the force-review words are. */
  lemma StrongVerdictDispatches(title: string, v: Verdict, force: seq<string>)
    requires v.direction == "up" || v.direction == "down"
    requires v.confidence >= MainThreshold
    ensures Decide(title, v, force) == MainAlert
  {
  }

  /** On the force-review path any non-neutral label is forwarded, including
      one that is neither "up" nor "down". */
  lemma ForcedPathAcceptsAnyLabel(title: string, v: Verdict, force: seq<string>)
    requires MentionsAnyInLowered(force, title)
    requires v.direction != "neutral" && v.confidence >= ForceThreshold
    ensures Decide(title, v, force) != Skip
    ensures v.direction != "up" && v.direction != "down" ==> Decide(title, v, force) == ForcedAlert
  {
  }

  /** Without a force-review word only the main path remains. */
  lemma WithoutForceWordOnlyMainPath(title: string, v: Verdict, force: seq<string>)
    requires !MentionsAnyInLowered(force, title)
    ensures Decide(title, v, force) != Skip <==>
      (v.direction == "up" || v.direction == "down") && v.confidence >= MainThreshold
  {
  }

  /** Testing words that are already lower-case against the lower-cased
      headline is a case-insensitive test. */
  lemma LowerWordsIgnoreCase(words: seq<string>, title: string)
    requires forall i :: 0 <= i < |words| ==> Lower(words[i]) == words[i]
    ensures MentionsAnyInLowered(words, title) <==> MentionsAnyIgnoringCase(words, title)
  {
  }

  /** The force-review words are lower-case. */
  lemma ForceReviewIsLower()
    ensures forall i :: 0 <= i < |ForceReview| ==> Lower(ForceReview[i]) == ForceReview[i]
  {
    forall i | 0 <= i < |ForceReview|
      ensures Lower(ForceReview[i]) == ForceReview[i]
    {
      var w := ForceReview[i];
      forall k | 0 <= k < |w|
        ensures LowerChar(w[k]) == w[k]
      {
        assert 'a' <= w[k] <= 'z';
      }
      LowerIdempotent(w);
    }
  }

  /** The force-review test ignores the case of the headline. */
  lemma ForceReviewIgnoresCase(title: string)
    ensures MentionsAnyInLowered(ForceReview, title) <==> MentionsAnyIgnoringCase(ForceReview, title)
  {
    ForceReviewIsLower();
    LowerWordsIgnoreCase(ForceReview, title);
  }

  /** Relevance does not depend on the case of the headline. */
  lemma RelevanceIgnoresCase(title: string)
    ensures IsRelevant(Upper(title)) <==> IsRelevant(title)
  {
    LowerOfUpper(title);
  }

  /** A headline that contains a keyword, in any case, is relevant. */
  lemma KeywordMakesRelevant(i: nat, pre: string, post: string)
    requires i < |Keywords|
    ensures IsRelevant(pre + Keywords[i] + post)
  {
    var title := pre + Keywords[i] + post;
    LowerConcat(pre + Keywords[i], post);
    LowerConcat(pre, Keywords[i]);
    IsSubstringWitness(Lower(Keywords[i]), Lower(pre), Lower(post));
  }
}
