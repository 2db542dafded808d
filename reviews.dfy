/**
 * The review record of app/analyzer.py:25-29 and the per-review tests the
 * scorer and the filter share: sentiment (analyzer.py:108-115), the mismatch
 * rule (analyzer.py:160-169, 221-227), the short-review rule and the
 * normalized text used for exact duplicates (analyzer.py:131, 232).
 */
module Reviews {
  import opened Wrappers
  import opened Text
  import opened Lexicon
  import opened Tokenizer

  /**
   * A review: an optional integer rating, its text and an optional creation
   * time, of which only the calendar day is ever used (a day number here).
   */
  datatype Review = Review(rating: Option<int>, text: string, created: Option<int>)

  /** `_has_neg`: some negative word is one of the text's tokens. */
  predicate HasNeg(text: string) {
    exists w | w in NegWords :: w in Tokens(text)
  }

  /** `_has_pos`: some positive word is one of the text's tokens. */
  predicate HasPos(text: string) {
    exists w | w in PosWords :: w in Tokens(text)
  }

  /**
   * The lexicon entry "не" (left over from the multi-word entries) can never
   * match, because every token is at least three characters long: a text is
   * negative exactly when one of the other negative words is among its tokens.
   */
  lemma ShortNegWordNeverMatches(text: string)
    ensures "не" in NegWords
    ensures HasNeg(text) <==> exists w | w in NegWords && |w| >= 3 :: w in Tokens(text)
  {
    TokensAreWellFormed(text);
  }

  predicate IsRated(r: Review) {
    r.rating.Some?
  }

  /** Four tokens or more are needed not to be "too short". */
  predicate IsShort(r: Review) {
    |Tokens(r.text)| <= 3
  }

  /** A rating of 4 or more with a negative text, or of 2 or less with a positive text. */
  predicate IsMismatch(r: Review) {
    && r.rating.Some?
    && ((r.rating.value >= 4 && HasNeg(r.text)) || (r.rating.value <= 2 && HasPos(r.text)))
  }

  /** `re.sub(r"\s+", " ", text.lower()).strip()` */
  function NormText(text: string): string {
    Strip(Collapse(LowerText(text)))
  }

  /** The normalized text of every review, in order. */
  function Norms(reviews: seq<Review>): (s: seq<string>)
    ensures |s| == |reviews|
    ensures forall i | 0 <= i < |reviews| :: s[i] == NormText(reviews[i].text)
  {
    seq(|reviews|, i requires 0 <= i < |reviews| => NormText(reviews[i].text))
  }

  /** The number of elements of `s` that satisfy `p`. */
  function CountIf<T>(s: seq<T>, p: T -> bool): (c: nat)
    ensures c <= |s|
  {
    if s == [] then 0
    else CountIf(s[..|s| - 1], p) + (if p(s[|s| - 1]) then 1 else 0)
  }

  /** One more element counts once more exactly when it has the property. */
  lemma CountIfStep<T>(s: seq<T>, k: nat, p: T -> bool)
    requires k < |s|
    ensures CountIf(s[..k + 1], p) == CountIf(s[..k], p) + (if p(s[k]) then 1 else 0)
  {
    assert s[..k + 1][..k] == s[..k];
  }

  /** Counting a weaker property never gives less. */
  lemma {:induction false} CountIfMonotone<T>(s: seq<T>, p: T -> bool, q: T -> bool)
    requires forall x | x in s :: p(x) ==> q(x)
    ensures CountIf(s, p) <= CountIf(s, q)
  {
    if s != [] {
      assert forall x | x in s[..|s| - 1] :: x in s;
      CountIfMonotone(s[..|s| - 1], p, q);
    }
  }
}
