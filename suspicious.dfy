/**
 * `detect_suspicious_reviews` (app/analyzer.py:206-289): the reviews left out
 * of the "clean" rating, and how many each rule removed. Three passes run in
 * order, each seeing what the earlier ones dropped:
 *   1. too short (three tokens or fewer), else a rating/sentiment mismatch;
 *   2. exact duplicates by normalized text: in every text shared by two or
 *      more reviews, the first one not yet dropped stays and the rest go;
 *   3. near duplicates among the first 450 reviews: clusters joined by chains
 *      of similar pairs, and in every cluster of three or more the first
 *      member not yet dropped stays and the rest go.
 */
module Suspicious {
  import opened Tokenizer
  import opened Similarity
  import opened Reviews
  import opened Sampling
  import opened Graph
  import opened UnionFind
  import opened Grouping

  /** The counts by reason of the returned dictionary. */
  datatype Counts = Counts(exactDuplicate: nat, nearDuplicate: nat, tooShort: nat, mismatch: nat)

  // ----- the specification -----

  /** The indices below `k` whose flag is set, gathered one index at a time as the loop does. */
  ghost function Marked(flags: seq<bool>, k: nat): set<nat>
    requires k <= |flags|
  {
    if k == 0 then {} else Marked(flags, k - 1) + (if flags[k - 1] then {k - 1} else {})
  }

  lemma {:induction false} MarkedMembers(flags: seq<bool>, k: nat)
    requires k <= |flags|
    ensures forall i :: i in Marked(flags, k) <==> 0 <= i < k && flags[i]
  {
    if k > 0 {
      MarkedMembers(flags, k - 1);
    }
  }

  /** One more index is marked exactly when its flag is set. */
  lemma MarkedStep(flags: seq<bool>, k: nat)
    requires k < |flags|
    ensures flags[k] ==> Marked(flags, k + 1) == Marked(flags, k) + {k}
    ensures !flags[k] ==> Marked(flags, k + 1) == Marked(flags, k)
    ensures k !in Marked(flags, k)
  {
    MarkedMembers(flags, k);
  }

  /** A mismatch counts only for a review that is not too short (the short test runs first). */
  predicate LongMismatch(r: Review) {
    !IsShort(r) && IsMismatch(r)
  }

  ghost function ShortFlags(reviews: seq<Review>): (f: seq<bool>)
    ensures |f| == |reviews| && forall i | 0 <= i < |reviews| :: f[i] == IsShort(reviews[i])
  {
    seq(|reviews|, i requires 0 <= i < |reviews| => IsShort(reviews[i]))
  }

  ghost function MismatchFlags(reviews: seq<Review>): (f: seq<bool>)
    ensures |f| == |reviews| && forall i | 0 <= i < |reviews| :: f[i] == LongMismatch(reviews[i])
  {
    seq(|reviews|, i requires 0 <= i < |reviews| => LongMismatch(reviews[i]))
  }

  /** The too-short reviews. */
  ghost function ShortSet(reviews: seq<Review>): set<nat> {
    Marked(ShortFlags(reviews), |reviews|)
  }

  /** The mismatched reviews that are not too short. */
  ghost function MismatchSet(reviews: seq<Review>): set<nat> {
    Marked(MismatchFlags(reviews), |reviews|)
  }

  /** Dropped by the first pass. */
  ghost function FirstPass(reviews: seq<Review>): set<nat> {
    ShortSet(reviews) + MismatchSet(reviews)
  }

  /** Dropped once exact duplicates are collapsed (groups of two or more). */
  ghost function SecondPass(reviews: seq<Review>): set<nat> {
    FirstPass(reviews) + Collapsed(Norms(reviews), FirstPass(reviews), 2)
  }

  /** The similar pairs of the sample: the edges of the near-duplicate graph. */
  ghost function NearEdges(reviews: seq<Review>): set<(nat, nat)> {
    SimilarPairs(ShingleList(reviews, SampleSize(|reviews|)))
  }

  /** What the near-duplicate pass drops: every non-survivor of a cluster of three or more. */
  ghost function NearDrops(e: set<(nat, nat)>, m: nat, drop: set<nat>): set<nat> {
    set i | 0 <= i < m && |Component(e, m, i)| >= 3 && !IsSurvivor(Component(e, m, i), drop, i)
  }

  /** The indices `detect_suspicious_reviews` returns. */
  ghost function Suspicious(reviews: seq<Review>): set<nat> {
    SecondPass(reviews) + NearDrops(NearEdges(reviews), SampleSize(|reviews|), SecondPass(reviews))
  }

  /** The counts it returns: each pass counts only what no earlier pass had dropped. */
  ghost function SuspiciousCounts(reviews: seq<Review>): Counts {
    Counts(|SecondPass(reviews) - FirstPass(reviews)|, |Suspicious(reviews) - SecondPass(reviews)|,
           |ShortSet(reviews)|, |MismatchSet(reviews)|)
  }

  // ----- the passes -----

  /** The body of the first loop for one review: is it too short, else is it a mismatch? */
  method Classify(r: Review) returns (short: bool, mismatch: bool)
    ensures short == IsShort(r) && mismatch == LongMismatch(r)
    ensures !(short && mismatch)
  {
    var toks := Tokenize(r.text);
    if |toks| <= 3 {
      return true, false;
    }
    short, mismatch := false, false;
    if r.rating.Some? {
      if r.rating.value >= 4 && HasNeg(r.text) {
        mismatch := true;
      } else if r.rating.value <= 2 && HasPos(r.text) {
        mismatch := true;
      }
    }
  }

  /**
   * The state of the first loop after the reviews before `i`, given the flags
   * of the two rules: the counters count the flagged reviews and `drop` holds both.
   */
  ghost predicate FlaggedUpTo(sf: seq<bool>, mf: seq<bool>, i: nat, drop: set<nat>, tooShort: nat, mismatch: nat) {
    && i <= |sf| && i <= |mf|
    && tooShort == |Marked(sf, i)|
    && mismatch == |Marked(mf, i)|
    && drop == Marked(sf, i) + Marked(mf, i)
    && |drop| == tooShort + mismatch
    && forall j | j in drop :: j < i
  }

  /** Adding a new index `i` to one of two marked sets that hold only smaller indices. */
  lemma {:induction false} MarkOne(shorts: set<nat>, mismatched: set<nat>, i: nat)
    requires forall j | j in shorts + mismatched :: j < i
    ensures |shorts + {i}| == |shorts| + 1 && |mismatched + {i}| == |mismatched| + 1
    ensures (shorts + mismatched) + {i} == (shorts + {i}) + mismatched == shorts + (mismatched + {i})
    ensures |(shorts + mismatched) + {i}| == |shorts + mismatched| + 1
  {
    assert i !in shorts + mismatched;
  }

  /**
   * Lines 220-227 for the review at `i`, once it is known whether it is too
   * short and whether it is a mismatch: the short rule wins, and the state of
   * the first loop moves on by one review.
   */
  method Tally(ghost sf: seq<bool>, ghost mf: seq<bool>, i: nat, isShort: bool, isMismatch: bool,
               drop: set<nat>, tooShort: nat, mismatch: nat)
    returns (drop': set<nat>, tooShort': nat, mismatch': nat)
    requires i < |sf| && i < |mf| && sf[i] == isShort && mf[i] == (!isShort && isMismatch)
    requires FlaggedUpTo(sf, mf, i, drop, tooShort, mismatch)
    ensures FlaggedUpTo(sf, mf, i + 1, drop', tooShort', mismatch')
  {
    MarkedStep(sf, i);
    MarkedStep(mf, i);
    ghost var shorts, mismatched := Marked(sf, i), Marked(mf, i);
    MarkOne(shorts, mismatched, i);
    if isShort {
      drop', tooShort', mismatch' := drop + {i}, tooShort + 1, mismatch;
      assert Marked(sf, i + 1) == shorts + {i} && Marked(mf, i + 1) == mismatched;
    } else if isMismatch {
      drop', tooShort', mismatch' := drop + {i}, tooShort, mismatch + 1;
      assert Marked(sf, i + 1) == shorts && Marked(mf, i + 1) == mismatched + {i};
    } else {
      drop', tooShort', mismatch' := drop, tooShort, mismatch;
      assert Marked(sf, i + 1) == shorts && Marked(mf, i + 1) == mismatched;
    }
  }

  /** Lines 215-227: the first loop, over every review. */
  method FlagShortAndMismatched(reviews: seq<Review>) returns (drop: set<nat>, tooShort: nat, mismatch: nat)
    ensures drop == FirstPass(reviews)
    ensures tooShort == |ShortSet(reviews)| && mismatch == |MismatchSet(reviews)|
  {
    ghost var sf, mf := ShortFlags(reviews), MismatchFlags(reviews);
    drop, tooShort, mismatch := {}, 0, 0;
    for i := 0 to |reviews|
      invariant FlaggedUpTo(sf, mf, i, drop, tooShort, mismatch)
    {
      var isShort, isMismatch := Classify(reviews[i]);
      drop, tooShort, mismatch := Tally(sf, mf, i, isShort, isMismatch, drop, tooShort, mismatch);
    }
  }

  /** Lines 230-233: `norm_map.setdefault(norm, []).append(i)` for every review. */
  method GroupByText(reviews: seq<Review>) returns (g: Groups<string>)
    ensures g == GroupAll(Norms(reviews))
  {
    ghost var keys := Norms(reviews);
    g := Groups([], map[]);
    for i := 0 to |reviews|
      invariant g == GroupAll(keys[..i])
    {
      var norm := NormText(reviews[i].text);
      assert norm == keys[i];
      assert keys[..i + 1][..i] == keys[..i] && keys[..i + 1][i] == keys[i];
      g := Insert(g, norm, i);
      assert g == GroupAll(keys[..i + 1]);
    }
    assert keys[..|reviews|] == keys;
  }

  /**
   * The state of the pair loop at `(i, j)`: parents ranked, and roots label
   * exactly the clusters of the similar pairs visited so far.
   */
  ghost predicate Clustered(sh: seq<set<string>>, r: seq<nat>, rank: seq<nat>, bound: nat, i: nat, j: nat) {
    && |r| == |sh|
    && Ranked(r, rank, bound)
    && LabelsComponents(Roots(r, rank, bound), SimilarAmong(sh, Visited(|sh|, i, j)))
  }

  /** Lines 268-269: one visited pair; a similar pair joins two clusters. */
  method LinkPair(sh: seq<set<string>>, rep: array<nat>, i: nat, j: nat, ghost rank: seq<nat>, ghost bound: nat)
    returns (ghost rank': seq<nat>, ghost bound': nat)
    requires i < j < |sh| && Clustered(sh, rep[..], rank, bound, i, j)
    modifies rep
    ensures Clustered(sh, rep[..], rank', bound', i, j + 1)
  {
    SimilarStep(sh, i, j);
    SimilarIsThreshold(sh[i], sh[j]);
    rank', bound' := rank, bound;
    if Jaccard(sh[i], sh[j]) >= 0.8 {
      MergeEdge(Roots(rep[..], rank, bound), SimilarAmong(sh, Visited(|sh|, i, j)), i, j);
      rank', bound' := Union(rep, i, j, rank, bound);
    }
  }

  /** Lines 266-269: one row of the pair loop. */
  method LinkRow(sh: seq<set<string>>, rep: array<nat>, i: nat, ghost rank: seq<nat>, ghost bound: nat)
    returns (ghost rank': seq<nat>, ghost bound': nat)
    requires i < |sh| && Clustered(sh, rep[..], rank, bound, i, i + 1)
    modifies rep
    ensures Clustered(sh, rep[..], rank', bound', i + 1, i + 2)
  {
    rank', bound' := rank, bound;
    var j := i + 1;
    while j < |sh|
      invariant i + 1 <= j <= |sh|
      invariant Clustered(sh, rep[..], rank', bound', i, j)
    {
      rank', bound' := LinkPair(sh, rep, i, j, rank', bound');
      ClusteredNext(sh, rep[..], rank', bound', i, j);
      j := j + 1;
    }
    NextRow(sh, rep[..], rank', bound', i, j);
  }

  /** The state after visiting column `j`, restated for the loop's next column. */
  lemma ClusteredNext(sh: seq<set<string>>, r: seq<nat>, rank: seq<nat>, bound: nat, i: nat, j: nat)
    requires Clustered(sh, r, rank, bound, i, j + 1)
    ensures forall k | k == j + 1 :: Clustered(sh, r, rank, bound, i, k)
  {
  }

  /** A finished row is the start of the next one. */
  lemma NextRow(sh: seq<set<string>>, r: seq<nat>, rank: seq<nat>, bound: nat, i: nat, j: nat)
    requires j == |sh| && Clustered(sh, r, rank, bound, i, j)
    ensures Clustered(sh, r, rank, bound, i + 1, i + 2)
  {
    VisitedRow(|sh|, i);
  }

  /** Lines 266-269: the pair loop; afterwards roots label the clusters of similar pairs. */
  method LinkSimilar(sh: seq<set<string>>, rep: array<nat>) returns (ghost rank: seq<nat>, ghost bound: nat)
    requires |sh| == rep.Length && forall x | 0 <= x < rep.Length :: rep[x] == x
    modifies rep
    ensures Ranked(rep[..], rank, bound)
    ensures LabelsComponents(Roots(rep[..], rank, bound), SimilarPairs(sh))
  {
    var m := |sh|;
    rank, bound := seq(m, x => 0), 0;
    InitialRoots(rep[..]);
    IdentityLabels(m);
    VisitedStart(m);
    assert SimilarAmong(sh, Visited(m, 0, 1)) == {};
    for i := 0 to m
      invariant Clustered(sh, rep[..], rank, bound, i, i + 1)
    {
      rank, bound := LinkRow(sh, rep, i, rank, bound);
    }
    VisitedAll(m);
  }

  /** Lines 271-273: `groups.setdefault(find(i), []).append(i)` for every sampled index. */
  method GroupByRoot(rep: array<nat>, ghost rank: seq<nat>, ghost bound: nat) returns (g: Groups<nat>)
    requires Ranked(rep[..], rank, bound)
    modifies rep
    ensures Ranked(rep[..], rank, bound)
    ensures g == GroupAll(Roots(old(rep[..]), rank, bound))
  {
    ghost var lab := Roots(rep[..], rank, bound);
    g := Groups([], map[]);
    for i := 0 to rep.Length
      invariant Ranked(rep[..], rank, bound) && Roots(rep[..], rank, bound) == lab
      invariant g == GroupAll(lab[..i])
    {
      var root := Find(rep, i, rank, bound);
      assert lab[..i + 1][..i] == lab[..i];
      g := Insert(g, root, i);
    }
    assert lab[..rep.Length] == lab;
  }

  /**
   * Lines 247-273: the clusters of the sample, bucketed by root. Their labels
   * are exact: two sampled reviews share one when a chain of similar pairs
   * joins them.
   */
  method NearGroups(sh: seq<set<string>>) returns (g: Groups<nat>, ghost lab: seq<nat>)
    ensures |lab| == |sh|
    ensures LabelsComponents(lab, SimilarPairs(sh))
    ensures g == GroupAll(lab)
  {
    var rep := new nat[|sh|](i => i);
    ghost var rank, bound := LinkSimilar(sh, rep);
    lab := Roots(rep[..], rank, bound);
    g := GroupByRoot(rep, rank, bound);
  }

  /** Under exact labels, collapsing buckets of three is dropping non-survivors of clusters of three. */
  lemma ClustersAreComponents(lab: seq<nat>, e: set<(nat, nat)>, drop: set<nat>)
    requires LabelsComponents(lab, e)
    ensures Collapsed(lab, drop, 3) == NearDrops(e, |lab|, drop)
  {
    forall i | 0 <= i < |lab|
      ensures Class(lab, i) == Component(e, |lab|, i)
    {
      ComponentIsLabelClass(lab, e, i);
    }
  }

  /**
   * `detect_suspicious_reviews`: the dropped indices are `Suspicious` and the
   * counts `SuspiciousCounts`; the lemmas below say what those guarantee.
   */
  method DetectSuspiciousReviews(reviews: seq<Review>) returns (drop: set<nat>, counts: Counts)
    ensures drop == Suspicious(reviews)
    ensures counts == SuspiciousCounts(reviews)
  {
    var drop1, tooShort, mismatch := FlagShortAndMismatched(reviews);
    var byText := GroupByText(reviews);
    var drop2, exact := CollapseGroups(byText, Norms(reviews), 2, drop1);
    var m := SampleSize(|reviews|);
    var sh := ShingleList(reviews, m);
    var clusters, lab := NearGroups(sh);
    var drop3, near := CollapseGroups(clusters, lab, 3, drop2);
    ClustersAreComponents(lab, SimilarPairs(sh), drop2);
    drop := drop3;
    counts := Counts(exact, near, tooShort, mismatch);
  }

  // ----- what the filter guarantees -----

  /** The counting argument behind `CountsAddUp`, on bare sets. */
  lemma PassSizes(short: set<nat>, mismatch: set<nat>, s1: set<nat>, s2: set<nat>, s3: set<nat>)
    requires short * mismatch == {} && s1 == short + mismatch && s1 <= s2 <= s3
    ensures |s2 - s1| + |s3 - s2| + |short| + |mismatch| == |s3|
  {
    NestedDifference(s1, s2, s3);
    NestedDifference({}, s1, s3);
    assert s1 - {} == s1;
  }

  /** The first pass's two reasons never overlap, and both only name reviews. */
  lemma FirstPassParts(reviews: seq<Review>)
    ensures ShortSet(reviews) * MismatchSet(reviews) == {}
    ensures forall i | i in FirstPass(reviews) :: i < |reviews|
    ensures forall i | 0 <= i < |reviews| :: i in FirstPass(reviews) <==> IsShort(reviews[i]) || IsMismatch(reviews[i])
  {
    MarkedMembers(ShortFlags(reviews), |reviews|);
    MarkedMembers(MismatchFlags(reviews), |reviews|);
  }

  /** Only indices of reviews are dropped. */
  lemma DropsAreIndices(reviews: seq<Review>)
    ensures forall i | i in Suspicious(reviews) :: i < |reviews|
  {
    FirstPassParts(reviews);
    assert forall i | i in SecondPass(reviews) :: i < |reviews|;
  }

  /** The four counts add up to the number of reviews dropped. */
  lemma CountsAddUp(reviews: seq<Review>)
    ensures var c := SuspiciousCounts(reviews);
      c.exactDuplicate + c.nearDuplicate + c.tooShort + c.mismatch == |Suspicious(reviews)|
  {
    var short, mismatch := ShortSet(reviews), MismatchSet(reviews);
    var s1, s2, s3 := FirstPass(reviews), SecondPass(reviews), Suspicious(reviews);
    FirstPassParts(reviews);
    PassSizes(short, mismatch, s1, s2, s3);
  }

  /** Every too-short review and every mismatched one is dropped. */
  lemma FlaggedAreDropped(reviews: seq<Review>, i: nat)
    requires i < |reviews| && (IsShort(reviews[i]) || IsMismatch(reviews[i]))
    ensures i in Suspicious(reviews)
  {
    FirstPassParts(reviews);
  }

  /**
   * In a group of identical normalized texts, a review survives the exact pass
   * exactly when it is the first member the first pass kept.
   */
  lemma ExactDuplicatesKeepFirst(reviews: seq<Review>, i: nat)
    requires i < |reviews| && |Class(Norms(reviews), i)| >= 2
    ensures i !in SecondPass(reviews) <==> IsSurvivor(Class(Norms(reviews), i), FirstPass(reviews), i)
  {
    CollapsedMember(Norms(reviews), FirstPass(reviews), 2, i);
  }

  /** Of two reviews with the same normalized text, at least one is dropped. */
  lemma OneCopySurvives(reviews: seq<Review>, i: nat, j: nat)
    requires i < j < |reviews| && NormText(reviews[i].text) == NormText(reviews[j].text)
    ensures i in Suspicious(reviews) || j in Suspicious(reviews)
  {
    CollapsedKeepsOne(Norms(reviews), FirstPass(reviews), 2, i, j);
  }

  /** The near pass drops every member of a cluster of three or more but its survivor. */
  lemma NearMember(e: set<(nat, nat)>, m: nat, drop: set<nat>, i: nat)
    requires i < m && |Component(e, m, i)| >= 3
    ensures i !in drop + NearDrops(e, m, drop) <==> IsSurvivor(Component(e, m, i), drop, i)
  {
  }

  /** Of two similar reviews in a cluster of three or more, the near pass leaves at most one. */
  lemma NearKeepsOne(e: set<(nat, nat)>, m: nat, drop: set<nat>, i: nat, j: nat)
    requires i < j < m && (i, j) in e && |Component(e, m, i)| >= 3
    ensures i in drop + NearDrops(e, m, drop) || j in drop + NearDrops(e, m, drop)
  {
    ConnectedEdge(e, i, j);
    SameComponent(e, m, i, j);
    NearMember(e, m, drop, i);
    NearMember(e, m, drop, j);
    var c := Component(e, m, i);
    if IsSurvivor(c, drop, i) && IsSurvivor(c, drop, j) {
      SurvivorUnique(c, drop, i, j);
    }
  }

  /**
   * The near pass only looks at the first 450 reviews and only at clusters of
   * three or more: any other review is dropped exactly when an earlier pass
   * dropped it.
   */
  lemma NearPassScope(reviews: seq<Review>, i: nat)
    requires i >= SampleSize(|reviews|) ||
      |Component(NearEdges(reviews), SampleSize(|reviews|), i)| < 3
    ensures i in Suspicious(reviews) <==> i in SecondPass(reviews)
  {
  }

  /** Of two similar sampled reviews in a cluster of three or more, at least one is dropped. */
  lemma OneNearDuplicateSurvives(reviews: seq<Review>, i: nat, j: nat)
    requires i < j < SampleSize(|reviews|)
    requires var sh := ShingleList(reviews, SampleSize(|reviews|)); Jaccard(sh[i], sh[j]) >= 0.8
    requires |Component(NearEdges(reviews), SampleSize(|reviews|), i)| >= 3
    ensures i in Suspicious(reviews) || j in Suspicious(reviews)
  {
    var m := SampleSize(|reviews|);
    SimilarPairsThreshold(ShingleList(reviews, m), i, j);
    NearKeepsOne(NearEdges(reviews), m, SecondPass(reviews), i, j);
  }

  /** No reviews, nothing dropped and nothing counted. */
  lemma EmptyInput()
    ensures Suspicious([]) == {}
    ensures SuspiciousCounts([]) == Counts(0, 0, 0, 0)
  {
    assert FirstPass([]) == {};
    assert SecondPass([]) == {};
  }
}
