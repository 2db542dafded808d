/**
 * The trust scorer `trust_score_details` (app/analyzer.py:118-203). Four
 * signals (duplicates, a single-day spike, rating/text mismatch, short
 * reviews) become capped penalties subtracted from 100, and each signal above
 * its threshold adds a reason. Ratios are exact reals; `int(...)` of a
 * non-negative value is `Floor`.
 */
module Trust {
  import opened Wrappers
  import opened Tokenizer
  import opened Similarity
  import opened Reviews
  import opened Sampling

  /** The reasons, in the order the scorer appends them. */
  datatype Reason =
    | NoReviewsToEvaluate   // "Нет отзывов с текстом — оценивать нечего."
    | TemplatedReviews      // "Много однотипных/похожих отзывов (шаблоны/дубли)."
    | SingleDaySpike        // "Есть заметный всплеск отзывов в один день (аномалия по времени)."
    | SentimentMismatch     // "Есть отзывы вида '5★, но текст ругается' (несостыковка тональности)."
    | ShortReviews          // "Много очень коротких отзывов без деталей."
    | NoRedFlags            // "Явных красных флагов по текстам не видно (по простым эвристикам)."

  /** The position of a threshold reason in the fixed order. */
  function Rank(r: Reason): nat {
    match r
    case TemplatedReviews => 0
    case SingleDaySpike => 1
    case SentimentMismatch => 2
    case ShortReviews => 3
    case _ => 4
  }

  /** The `signals` mapping of a non-empty input. */
  datatype Signals = Signals(
    nearDupRatio: real,
    exactDupRatio: real,
    spikeShare: real,
    mismatchRatio: real,
    shortRatio: real,
    sampledReviewsForSimilarity: nat,
    ratedTextReviews: nat)

  /** `{"no_reviews": 0}` for empty input, otherwise the four factors. */
  datatype Penalties =
    | NoReviews
    | Factors(duplicates: int, timeSpike: int, mismatch: int, tooShort: int)
  {
    function Total(): int {
      match this
      case NoReviews => 0
      case Factors(d, t, m, s) => d + t + m + s
    }
  }

  /** The four results of `trust_score_details`; `signals` is `None` for the empty `{}`. */
  datatype Assessment = Assessment(score: int, reasons: seq<Reason>, signals: Option<Signals>, penalties: Penalties)

  /** `max(1, x)`, the guarded denominator. */
  function Max1(x: nat): nat {
    if x < 1 then 1 else x
  }

  /** `num / max(1, den)` for a count of some of `den` items. */
  function Ratio(num: nat, den: nat): (r: real)
    requires num <= den
    ensures 0.0 <= r <= 1.0
    ensures r == 0.0 <==> num == 0
    ensures r == 1.0 <==> (num == den && den > 0)
  {
    RatioAtMostOne(num, Max1(den));
    RatioEnds(num, Max1(den));
    num as real / Max1(den) as real
  }

  // ----- exact duplicates (analyzer.py:131-132) -----

  /** The keys of the `Counter`. */
  function Distinct(s: seq<string>): set<string> {
    set k | k in s
  }

  /** The keys counted at least twice. */
  function Repeated(s: seq<string>): set<string> {
    set k | k in s && multiset(s)[k] >= 2
  }

  function ExactDupRatio(reviews: seq<Review>): real {
    var s := Norms(reviews);
    SubsetSize(Repeated(s), Distinct(s));
    Ratio(|Repeated(s)|, |Distinct(s)|)
  }

  /** When every normalized text is the same and there are two or more, the ratio is 1. */
  lemma AllIdenticalExactRatio(reviews: seq<Review>)
    requires |reviews| >= 2
    requires forall i | 0 <= i < |reviews| :: NormText(reviews[i].text) == NormText(reviews[0].text)
    ensures ExactDupRatio(reviews) == 1.0
  {
    var s := Norms(reviews);
    ConstantKeys(s, s[0]);
  }

  /** A list of at least two copies of one text has that text as its only key, counted twice or more. */
  lemma ConstantKeys(s: seq<string>, k: string)
    requires |s| >= 2 && forall i | 0 <= i < |s| :: s[i] == k
    ensures Distinct(s) == {k} && Repeated(s) == {k}
  {
    MultisetOfConstant(s, k);
    assert s[0] == k;
  }

  lemma {:induction false} MultisetOfConstant(s: seq<string>, k: string)
    requires forall i | 0 <= i < |s| :: s[i] == k
    ensures multiset(s)[k] == |s|
  {
    if s != [] {
      assert s == s[..|s| - 1] + [k];
      MultisetOfConstant(s[..|s| - 1], k);
    }
  }

  // ----- single-day spike (analyzer.py:149-155) -----

  /** `[r.created.date() for r in reviews if r.created]` */
  function Days(reviews: seq<Review>): (ds: seq<int>)
    ensures |ds| <= |reviews|
  {
    if reviews == [] then []
    else
      var last := reviews[|reviews| - 1];
      Days(reviews[..|reviews| - 1]) + (if last.created.Some? then [last.created.value] else [])
  }

  /** `max(Counter(ds).values())` over the first `k` entries' days. */
  function MaxDayCount(ds: seq<int>, k: nat): (c: nat)
    requires k <= |ds|
    ensures forall i | 0 <= i < k :: multiset(ds)[ds[i]] <= c
    ensures k > 0 ==> exists i | 0 <= i < k :: multiset(ds)[ds[i]] == c
    ensures k == 0 ==> c == 0
  {
    if k == 0 then 0
    else
      var c := MaxDayCount(ds, k - 1);
      var d := multiset(ds)[ds[k - 1]];
      if d > c then d else c
  }

  lemma {:induction false} MultiplicityBound(ds: seq<int>, x: int)
    ensures multiset(ds)[x] <= |ds|
  {
    if ds != [] {
      assert ds == ds[..|ds| - 1] + [ds[|ds| - 1]];
      MultiplicityBound(ds[..|ds| - 1], x);
    }
  }

  function SpikeShare(reviews: seq<Review>): real {
    var ds := Days(reviews);
    if ds == [] then 0.0
    else
      var c := MaxDayCount(ds, |ds|);
      var i :| 0 <= i < |ds| && multiset(ds)[ds[i]] == c;
      MultiplicityBound(ds, ds[i]);
      Ratio(c, |ds|)
  }

  // ----- mismatch and short reviews (analyzer.py:157-178) -----

  function MismatchRatio(reviews: seq<Review>): real {
    CountIfMonotone(reviews, IsMismatch, IsRated);
    Ratio(CountIf(reviews, IsMismatch), CountIf(reviews, IsRated))
  }

  function ShortRatio(reviews: seq<Review>): real {
    Ratio(CountIf(reviews, IsShort), |reviews|)
  }

  // ----- near duplicates (analyzer.py:134-143) -----

  function NearDupRatio(reviews: seq<Review>): real {
    var sh := ShingleList(reviews, SampleSize(|reviews|));
    SimilarAmongSize(sh, AllPairs(|sh|));
    Ratio(|SimilarPairs(sh)|, |AllPairs(|sh|)|)
  }

  /** The signals of a non-empty input. */
  function Measure(reviews: seq<Review>): Signals {
    Signals(
      NearDupRatio(reviews),
      ExactDupRatio(reviews),
      SpikeShare(reviews),
      MismatchRatio(reviews),
      ShortRatio(reviews),
      SampleSize(|reviews|),
      CountIf(reviews, IsRated))
  }

  /** `int(min(cap, cap * x))` */
  function Capped(cap: nat, x: real): int {
    var y := cap as real * x;
    (if cap as real <= y then cap as real else y).Floor
  }

  lemma CappedRange(cap: nat, x: real)
    requires 0.0 <= x <= 1.0
    ensures 0 <= Capped(cap, x) <= cap
  {
    var y := cap as real * x;
    assert 0.0 <= y;
  }

  function PenaltiesOf(s: Signals): Penalties {
    Factors(
      Capped(40, 0.7 * s.nearDupRatio + 0.3 * s.exactDupRatio),
      Capped(20, s.spikeShare),
      Capped(20, s.mismatchRatio),
      Capped(20, s.shortRatio))
  }

  /** `max(0, min(100, x))` */
  function Clamp(x: int): int {
    if x < 0 then 0 else if x > 100 then 100 else x
  }

  /** The threshold reasons that fire, in the fixed order. */
  function Fired(dup: bool, spike: bool, mismatch: bool, short: bool): seq<Reason> {
    var a := AppendIf([], dup, TemplatedReviews);
    var b := AppendIf(a, spike, SingleDaySpike);
    var c := AppendIf(b, mismatch, SentimentMismatch);
    AppendIf(c, short, ShortReviews)
  }

  /** The reasons, judged on the unrounded ratios, with the fallback when none fires. */
  function Reasons(s: Signals): seq<Reason> {
    var fired := Fired(s.nearDupRatio > 0.08 || s.exactDupRatio > 0.12, s.spikeShare > 0.35,
                       s.mismatchRatio > 0.10, s.shortRatio > 0.35);
    if fired == [] then [NoRedFlags] else fired
  }

  /** The specification of `trust_score_details`. */
  function Assess(reviews: seq<Review>): Assessment {
    if reviews == [] then Assessment(50, [NoReviewsToEvaluate], None, NoReviews)
    else
      var s := Measure(reviews);
      var p := PenaltiesOf(s);
      Assessment(Clamp(100 - p.Total()), Reasons(s), Some(s), p)
  }

  // ----- properties -----

  /** Empty input: score 50, the one "nothing to evaluate" reason, no signals, `{no_reviews: 0}`. */
  lemma EmptyInput()
    ensures Assess([]).score == 50
    ensures Assess([]).reasons == [NoReviewsToEvaluate]
    ensures Assess([]).signals.None?
    ensures Assess([]).penalties == NoReviews && NoReviews.Total() == 0
  {
  }

  /**
   * For non-empty input every ratio lies in [0, 1], the sample is `min(n, 450)`
   * reviews and `rated_text_reviews` counts the rated reviews.
   */
  lemma SignalsInRange(reviews: seq<Review>)
    requires reviews != []
    ensures var s := Measure(reviews);
      && 0.0 <= s.nearDupRatio <= 1.0
      && 0.0 <= s.exactDupRatio <= 1.0
      && 0.0 <= s.spikeShare <= 1.0
      && 0.0 <= s.mismatchRatio <= 1.0
      && 0.0 <= s.shortRatio <= 1.0
      && s.sampledReviewsForSimilarity == SampleSize(|reviews|)
      && (|reviews| >= SampleCap ==> s.sampledReviewsForSimilarity == SampleCap)
      && s.ratedTextReviews <= |reviews|
  {
  }

  /** Each penalty lies between 0 and its cap, and the score is 100 minus their sum, in [0, 100]. */
  lemma PenaltiesAndScore(reviews: seq<Review>)
    requires reviews != []
    ensures var a := Assess(reviews);
      && a.penalties.Factors?
      && 0 <= a.penalties.duplicates <= 40
      && 0 <= a.penalties.timeSpike <= 20
      && 0 <= a.penalties.mismatch <= 20
      && 0 <= a.penalties.tooShort <= 20
      && a.score == 100 - a.penalties.Total()
      && 0 <= a.score <= 100
  {
    var s := Measure(reviews);
    SignalsInRange(reviews);
    CappedRange(40, 0.7 * s.nearDupRatio + 0.3 * s.exactDupRatio);
    CappedRange(20, s.spikeShare);
    CappedRange(20, s.mismatchRatio);
    CappedRange(20, s.shortRatio);
  }

  /**
   * Each threshold reason is present exactly when its ratio is above the
   * threshold, and the fallback is present exactly when none is.
   */
  lemma ReasonsFollowThresholds(s: Signals)
    ensures var rs := Reasons(s);
      && (TemplatedReviews in rs <==> s.nearDupRatio > 0.08 || s.exactDupRatio > 0.12)
      && (SingleDaySpike in rs <==> s.spikeShare > 0.35)
      && (SentimentMismatch in rs <==> s.mismatchRatio > 0.10)
      && (ShortReviews in rs <==> s.shortRatio > 0.35)
      && (NoRedFlags in rs <==> !(s.nearDupRatio > 0.08 || s.exactDupRatio > 0.12
                                 || s.spikeShare > 0.35 || s.mismatchRatio > 0.10 || s.shortRatio > 0.35))
  {
    FiredMembers(s.nearDupRatio > 0.08 || s.exactDupRatio > 0.12, s.spikeShare > 0.35,
                 s.mismatchRatio > 0.10, s.shortRatio > 0.35);
  }

  /** The fallback stands alone; the list is never empty and follows the fixed order without repetition. */
  lemma ReasonsShape(s: Signals)
    ensures var rs := Reasons(s);
      && (NoRedFlags in rs <==> rs == [NoRedFlags])
      && NoReviewsToEvaluate !in rs
      && 1 <= |rs| <= 4
      && forall i, j | 0 <= i < j < |rs| :: Rank(rs[i]) < Rank(rs[j])
  {
    FiredMembers(s.nearDupRatio > 0.08 || s.exactDupRatio > 0.12, s.spikeShare > 0.35,
                 s.mismatchRatio > 0.10, s.shortRatio > 0.35);
  }

  /** A threshold reason is listed exactly when its flag is set; nothing else is listed. */
  lemma FiredMembers(dup: bool, spike: bool, mismatch: bool, short: bool)
    ensures var f := Fired(dup, spike, mismatch, short);
      && (TemplatedReviews in f <==> dup)
      && (SingleDaySpike in f <==> spike)
      && (SentimentMismatch in f <==> mismatch)
      && (ShortReviews in f <==> short)
      && NoRedFlags !in f && NoReviewsToEvaluate !in f
      && (f == [] <==> !(dup || spike || mismatch || short))
      && |f| <= 4
  {
    var a := AppendIf([], dup, TemplatedReviews);
    var b := AppendIf(a, spike, SingleDaySpike);
    var c := AppendIf(b, mismatch, SentimentMismatch);
    var f := AppendIf(c, short, ShortReviews);
    assert f == Fired(dup, spike, mismatch, short);
    assert |f| == (if dup then 1 else 0) + (if spike then 1 else 0)
                  + (if mismatch then 1 else 0) + (if short then 1 else 0);
  }

  /** Every listed reason ranks below `n`. */
  predicate RanksBelow(f: seq<Reason>, n: nat) {
    forall i | 0 <= i < |f| :: Rank(f[i]) < n
  }

  predicate Ordered(f: seq<Reason>) {
    forall i, j | 0 <= i < j < |f| :: Rank(f[i]) < Rank(f[j])
  }

  /** Appending a reason that ranks above all listed ones keeps the list ordered. */
  function AppendIf(f: seq<Reason>, flag: bool, r: Reason): (g: seq<Reason>)
    requires Ordered(f) && RanksBelow(f, Rank(r))
    ensures g == f + (if flag then [r] else [])
    ensures |g| == |f| + (if flag then 1 else 0)
    ensures forall x :: x in g <==> x in f || (flag && x == r)
    ensures Ordered(g) && RanksBelow(g, Rank(r) + 1)
  {
    f + (if flag then [r] else [])
  }

  // ----- the imperative scorer -----

  /** One pass of the inner loop of analyzer.py:137-142: row `i` adds the pairs `(i, j)`, `j > i`. */
  method CountRow(sh: seq<set<string>>, i: nat, near0: nat, total0: nat) returns (nearPairs: nat, totalPairs: nat)
    requires i < |sh|
    requires total0 == |Visited(|sh|, i, i + 1)|
    requires near0 == |SimilarAmong(sh, Visited(|sh|, i, i + 1))|
    ensures totalPairs == |Visited(|sh|, i + 1, i + 2)|
    ensures nearPairs == |SimilarAmong(sh, Visited(|sh|, i + 1, i + 2))|
  {
    var m := |sh|;
    nearPairs, totalPairs := near0, total0;
    var j := i + 1;
    while j < m
      invariant i + 1 <= j <= m
      invariant totalPairs == |Visited(m, i, j)|
      invariant nearPairs == |SimilarAmong(sh, Visited(m, i, j))|
    {
      VisitedStep(m, i, j);
      SimilarStep(sh, i, j);
      SimilarIsThreshold(sh[i], sh[j]);
      totalPairs := totalPairs + 1;
      if Jaccard(sh[i], sh[j]) >= 0.8 {
        nearPairs := nearPairs + 1;
      }
      j := j + 1;
    }
    VisitedRow(m, i);
  }

  /** The nested loop of analyzer.py:135-142: visited pairs and similar pairs of the sample. */
  method CountNearPairs(sh: seq<set<string>>) returns (nearPairs: nat, totalPairs: nat)
    ensures totalPairs == |AllPairs(|sh|)|
    ensures nearPairs == |SimilarPairs(sh)|
  {
    nearPairs, totalPairs := 0, 0;
    var i := 0;
    VisitedStart(|sh|);
    while i < |sh|
      invariant 0 <= i <= |sh|
      invariant totalPairs == |Visited(|sh|, i, i + 1)|
      invariant nearPairs == |SimilarAmong(sh, Visited(|sh|, i, i + 1))|
    {
      nearPairs, totalPairs := CountRow(sh, i, nearPairs, totalPairs);
      i := i + 1;
    }
    VisitedAll(|sh|);
  }

  /** The loop of analyzer.py:158-169: rated reviews and, among them, mismatches. */
  method CountMismatches(reviews: seq<Review>) returns (mismatch: nat, rated: nat)
    ensures mismatch == CountIf(reviews, IsMismatch)
    ensures rated == CountIf(reviews, IsRated)
    ensures mismatch <= rated
  {
    mismatch, rated := 0, 0;
    var k := 0;
    while k < |reviews|
      invariant 0 <= k <= |reviews|
      invariant mismatch == CountIf(reviews[..k], IsMismatch)
      invariant rated == CountIf(reviews[..k], IsRated)
    {
      var r := reviews[k];
      CountIfStep(reviews, k, IsMismatch);
      CountIfStep(reviews, k, IsRated);
      if r.rating.Some? {
        rated := rated + 1;
        var hasNeg := HasNeg(r.text);
        var hasPos := HasPos(r.text);
        if r.rating.value >= 4 && hasNeg {
          mismatch := mismatch + 1;
        } else if r.rating.value <= 2 && hasPos {
          mismatch := mismatch + 1;
        }
      }
      k := k + 1;
    }
    assert reviews[..k] == reviews;
    CountIfMonotone(reviews, IsMismatch, IsRated);
  }

  /**
   * `trust_score_details`: the result is the specification `Assess`, so every
   * property proved of `Assess` holds of it.
   */
  method TrustScoreDetails(reviews: seq<Review>) returns (a: Assessment)
    ensures a == Assess(reviews)
    ensures 0 <= a.score <= 100 && a.reasons != []
  {
    if reviews == [] {
      return Assessment(50, [NoReviewsToEvaluate], None, NoReviews);
    }
    var m := SampleSize(|reviews|);
    var sh := ShingleList(reviews, m);
    var nearPairs, totalPairs := CountNearPairs(sh);
    SimilarAmongSize(sh, AllPairs(m));
    var nearDupRatio := Ratio(nearPairs, totalPairs);
    var mismatch, rated := CountMismatches(reviews);
    var s := Signals(nearDupRatio, ExactDupRatio(reviews), SpikeShare(reviews),
                     Ratio(mismatch, rated), ShortRatio(reviews), m, rated);
    var p := PenaltiesOf(s);
    a := Assessment(Clamp(100 - p.Total()), Reasons(s), Some(s), p);
    ReasonsShape(s);
    PenaltiesAndScore(reviews);
  }
}
