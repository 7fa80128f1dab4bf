/**
 * The interestingness test that `extract_highlights` applies to the text of
 * each transcript segment.
 */
module Scorer {
  import opened PyBuiltins

  /** `any(word in text for word in keywords)`. */
  function AnyKeyword(keywords: seq<string>, text: string): bool {
    if keywords == [] then false
    else Contains(text, keywords[0]) || AnyKeyword(keywords[1..], text)
  }

  /** `any(...)` holds exactly when some keyword of the list is contained in the text. */
  lemma {:induction false} AnyKeywordSpec(keywords: seq<string>, text: string)
    ensures AnyKeyword(keywords, text) <==> exists k :: 0 <= k < |keywords| && Contains(text, keywords[k])
  {
    if keywords != [] {
      AnyKeywordSpec(keywords[1..], text);
      assert forall k :: 1 <= k < |keywords| ==> keywords[k] == keywords[1..][k - 1];
    }
  }

  /** The segment text, lower-cased, contains a keyword or has more than eight words. */
  predicate IsInteresting(text: string, keywords: seq<string>) {
    var lowered := Lower(text);
    AnyKeyword(keywords, lowered) || |Split(lowered)| > 8
  }

  /**
   * The score holds exactly when some keyword is a substring of the
   * lower-cased text, or that text has more than eight whitespace-separated
   * words (counted by the word-count automaton).
   */
  lemma ScoreSpec(text: string, keywords: seq<string>)
    ensures IsInteresting(text, keywords) <==>
      (exists k, i :: 0 <= k < |keywords| && OccursAt(keywords[k], Lower(text), i))
      || CountWords(Lower(text), false) > 8
  {
    var lowered := Lower(text);
    SplitCount(lowered);
    AnyKeywordSpec(keywords, lowered);
    forall k | 0 <= k < |keywords| ensures Contains(lowered, keywords[k]) <==> exists i :: OccursAt(keywords[k], lowered, i) {
      ContainsSpec(lowered, keywords[k]);
    }
  }
}
