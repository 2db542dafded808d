/**
 * `clean_rating` (app/analyzer.py:292-297): how many of the reviews the filter
 * kept carry a rating, and the mean of those ratings. A review is kept when
 * its index is not in the drop set.
 */
module CleanRating {
  import opened Wrappers
  import opened Similarity
  import opened Reviews

  /** The returned dictionary: `count` and `avg`, with `avg` absent when nothing is kept. */
  datatype Summary = Summary(count: nat, avg: Option<real>)

  /** Review `i` is kept and rated. */
  predicate KeptRated(reviews: seq<Review>, drop: set<nat>, i: nat)
    requires i < |reviews|
  {
    i !in drop && reviews[i].rating.Some?
  }

  /** The list `kept` of line 293, as the ratings of its reviews, in input order. */
  function KeptRatings(reviews: seq<Review>, drop: set<nat>): (k: seq<int>)
    ensures |k| <= |reviews|
  {
    if reviews == [] then []
    else
      var n := |reviews| - 1;
      KeptRatings(reviews[..n], drop) + (if KeptRated(reviews, drop, n) then [reviews[n].rating.value] else [])
  }

  /** The indices of the kept rated reviews, in increasing order. */
  function KeptOrder(reviews: seq<Review>, drop: set<nat>): (idx: seq<nat>)
    ensures |idx| <= |reviews|
    ensures forall j | 0 <= j < |idx| :: idx[j] < |reviews|
  {
    if reviews == [] then []
    else
      var n := |reviews| - 1;
      KeptOrder(reviews[..n], drop) + (if KeptRated(reviews, drop, n) then [n] else [])
  }

  /**
   * The kept list holds each kept rated review's rating exactly once, in input
   * order: its `j`-th value is the rating of the `j`-th kept rated review, and
   * the enumeration is increasing and misses no kept rated review.
   */
  lemma {:induction false} KeptRatingsEnumerate(reviews: seq<Review>, drop: set<nat>)
    ensures var k, idx := KeptRatings(reviews, drop), KeptOrder(reviews, drop);
      && |k| == |idx|
      && (forall p, q | 0 <= p < q < |idx| :: idx[p] < idx[q])
      && (forall i: nat :: i in idx <==> i < |reviews| && KeptRated(reviews, drop, i))
      && (forall j | 0 <= j < |idx| :: reviews[idx[j]].rating.Some? && k[j] == reviews[idx[j]].rating.value)
  {
    if reviews != [] {
      var n := |reviews| - 1;
      var front := reviews[..n];
      KeptRatingsEnumerate(front, drop);
      var k0, idx0 := KeptRatings(front, drop), KeptOrder(front, drop);
      var k, idx := KeptRatings(reviews, drop), KeptOrder(reviews, drop);
      forall i: nat | i < n ensures KeptRated(front, drop, i) == KeptRated(reviews, drop, i) {
        assert front[i] == reviews[i];
      }
      if KeptRated(reviews, drop, n) {
        assert k == k0 + [reviews[n].rating.value] && idx == idx0 + [n];
        forall j | 0 <= j < |idx| ensures reviews[idx[j]].rating.Some? && k[j] == reviews[idx[j]].rating.value {
          if j < |idx0| {
            assert idx[j] == idx0[j] && k[j] == k0[j] && front[idx0[j]] == reviews[idx0[j]];
          }
        }
      } else {
        assert k == k0 && idx == idx0;
        forall j | 0 <= j < |idx| ensures reviews[idx[j]].rating.Some? && k[j] == reviews[idx[j]].rating.value {
          assert front[idx0[j]] == reviews[idx0[j]];
        }
      }
    }
  }

  function Sum(s: seq<int>): int {
    if s == [] then 0 else Sum(s[..|s| - 1]) + s[|s| - 1]
  }

  /**
   * Lines 292-297, with the mean kept exact: `avg` is absent exactly when
   * nothing is kept, and otherwise times `count` gives the sum of the kept ratings.
   */
  function CleanRating(reviews: seq<Review>, drop: set<nat>): (s: Summary)
    ensures s.avg.None? <==> s.count == 0
    ensures s.avg.Some? ==> s.avg.value * s.count as real == Sum(KeptRatings(reviews, drop)) as real
  {
    var kept := KeptRatings(reviews, drop);
    if kept == [] then Summary(0, None)
    else Summary(|kept|, Some(Sum(kept) as real / |kept| as real))
  }

  /** The indices of the kept rated reviews. */
  ghost function KeptIndices(reviews: seq<Review>, drop: set<nat>): set<nat> {
    set i | 0 <= i < |reviews| && KeptRated(reviews, drop, i)
  }

  lemma {:induction false} KeptIndicesStep(reviews: seq<Review>, drop: set<nat>)
    requires reviews != []
    ensures var n := |reviews| - 1;
      KeptIndices(reviews, drop) ==
        KeptIndices(reviews[..n], drop) + (if KeptRated(reviews, drop, n) then {n} else {})
  {
    var n := |reviews| - 1;
    forall i | 0 <= i < n ensures KeptRated(reviews[..n], drop, i) == KeptRated(reviews, drop, i) {
      assert reviews[..n][i] == reviews[i];
    }
  }

  /** `count` is the number of indices whose review is kept and rated. */
  lemma {:induction false} CountIsKeptRated(reviews: seq<Review>, drop: set<nat>)
    ensures CleanRating(reviews, drop).count == |KeptIndices(reviews, drop)|
  {
    if reviews != [] {
      var n := |reviews| - 1;
      CountIsKeptRated(reviews[..n], drop);
      KeptIndicesStep(reviews, drop);
      assert n !in KeptIndices(reviews[..n], drop);
    } else {
      assert KeptIndices(reviews, drop) == {};
    }
  }

  /** Dropping more reviews never raises `count`. */
  lemma DroppingMoreKeepsFewer(reviews: seq<Review>, drop: set<nat>, more: set<nat>)
    requires drop <= more
    ensures CleanRating(reviews, more).count <= CleanRating(reviews, drop).count
  {
    CountIsKeptRated(reviews, drop);
    CountIsKeptRated(reviews, more);
    SubsetSize(KeptIndices(reviews, more), KeptIndices(reviews, drop));
  }

  /** `count` never exceeds the number of rated reviews, and equals it when no review is dropped. */
  lemma {:induction false} CountAtMostRated(reviews: seq<Review>, drop: set<nat>)
    ensures CleanRating(reviews, drop).count <= CountIf(reviews, IsRated)
    ensures (forall i | i in drop :: i >= |reviews|) ==> CleanRating(reviews, drop).count == CountIf(reviews, IsRated)
  {
    if reviews != [] {
      var n := |reviews| - 1;
      CountAtMostRated(reviews[..n], drop);
    }
  }

  /** A sum of values inside `[lo, hi]` lies between `lo` and `hi` times the length. */
  lemma {:induction false} SumBounds(s: seq<int>, lo: int, hi: int)
    requires forall k | 0 <= k < |s| :: lo <= s[k] <= hi
    ensures lo * |s| <= Sum(s) <= hi * |s|
  {
    if s != [] {
      SumBounds(s[..|s| - 1], lo, hi);
    }
  }

  /** Every kept rating is the rating of some kept review. */
  lemma {:induction false} KeptRatingsFromReviews(reviews: seq<Review>, drop: set<nat>, x: int)
    requires x in KeptRatings(reviews, drop)
    ensures exists i | 0 <= i < |reviews| :: KeptRated(reviews, drop, i) && reviews[i].rating.value == x
  {
    var n := |reviews| - 1;
    if x in KeptRatings(reviews[..n], drop) {
      KeptRatingsFromReviews(reviews[..n], drop, x);
      var i :| 0 <= i < n && KeptRated(reviews[..n], drop, i) && reviews[..n][i].rating.value == x;
      assert reviews[..n][i] == reviews[i];
    } else {
      assert KeptRated(reviews, drop, n);
    }
  }

  /** Dividing a sum between `lo * c` and `hi * c` by `c` lands between `lo` and `hi`. */
  lemma MeanBetween(sum: int, c: nat, lo: int, hi: int)
    requires c > 0 && lo * c <= sum <= hi * c
    ensures lo as real <= sum as real / c as real <= hi as real
  {
    var m := sum as real / c as real;
    assert m * c as real == sum as real;
    assert (lo * c) as real == lo as real * c as real;
    assert (hi * c) as real == hi as real * c as real;
  }

  /** When every rating lies in `[lo, hi]` (the marketplace's 1 to 5 stars), so does the average. */
  lemma AverageWithinRatings(reviews: seq<Review>, drop: set<nat>, lo: int, hi: int)
    requires forall i | 0 <= i < |reviews| && reviews[i].rating.Some? :: lo <= reviews[i].rating.value <= hi
    ensures var s := CleanRating(reviews, drop);
      s.avg.Some? ==> lo as real <= s.avg.value <= hi as real
  {
    var k := KeptRatings(reviews, drop);
    forall j | 0 <= j < |k| ensures lo <= k[j] <= hi {
      KeptRatingsFromReviews(reviews, drop, k[j]);
    }
    SumBounds(k, lo, hi);
    if k != [] {
      MeanBetween(Sum(k), |k|, lo, hi);
    }
  }
}
