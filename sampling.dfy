/**
 * The bounded similarity sample shared by the scorer (app/analyzer.py:134-143)
 * and the near-duplicate filter (app/analyzer.py:247-269): only the first
 * `min(n, 450)` reviews are fingerprinted, and the pairs `(i, j)` with
 * `i < j` among them are visited in the order of the two nested loops.
 */
module Sampling {
  import opened Tokenizer
  import opened Similarity
  import opened Reviews

  /** The fixed cap on the number of reviews compared pairwise. */
  const SampleCap: nat := 450

  /** `min(n, 450)` */
  function SampleSize(n: nat): (m: nat)
    ensures m <= n && m <= SampleCap
    ensures m == n || m == SampleCap
  {
    if n < SampleCap then n else SampleCap
  }

  /** `[shingles(tokenize(r.text), 3) for the first m reviews]` */
  function ShingleList(reviews: seq<Review>, m: nat): (sh: seq<set<string>>)
    requires m <= |reviews|
    ensures |sh| == m
  {
    seq(m, i requires 0 <= i < m => Shingles(Tokens(reviews[i].text)))
  }

  /** Lexicographic order of the nested loops: pair `(a, b)` is visited before position `(i, j)`. */
  predicate Before(a: nat, b: nat, i: nat, j: nat) {
    a < i || (a == i && b < j)
  }

  /** The pairs `a < b < m` the nested loops have visited when they reach `(i, j)`. */
  function Visited(m: nat, i: nat, j: nat): set<(nat, nat)> {
    set a: nat, b: nat | a < b < m && Before(a, b, i, j) :: (a, b)
  }

  /** Every unordered pair of the sample. */
  function AllPairs(m: nat): set<(nat, nat)> {
    set a: nat, b: nat | a < b < m :: (a, b)
  }

  /** The pairs of `pairs` whose shingle sets are similar (Jaccard index at least 0.8). */
  function SimilarAmong(sh: seq<set<string>>, pairs: set<(nat, nat)>): set<(nat, nat)> {
    set e | e in pairs && e.0 < |sh| && e.1 < |sh| && Similar(sh[e.0], sh[e.1])
  }

  /** The similarity edges of the sample. */
  function SimilarPairs(sh: seq<set<string>>): set<(nat, nat)> {
    SimilarAmong(sh, AllPairs(|sh|))
  }

  lemma VisitedStart(m: nat)
    ensures Visited(m, 0, 1) == {}
  {
  }

  /** One step of the inner loop visits exactly the pair `(i, j)`, which was not visited before. */
  lemma VisitedStep(m: nat, i: nat, j: nat)
    requires i < j < m
    ensures (i, j) !in Visited(m, i, j)
    ensures Visited(m, i, j + 1) == Visited(m, i, j) + {(i, j)}
  {
    var l, r := Visited(m, i, j + 1), Visited(m, i, j) + {(i, j)};
    forall e | e in l ensures e in r {
      var (a, b) := e;
      assert a < b < m && Before(a, b, i, j + 1);
      if !(a == i && b == j) {
        assert Before(a, b, i, j);
      }
    }
  }

  /** Finishing row `i` of the inner loop is starting row `i + 1`. */
  lemma VisitedRow(m: nat, i: nat)
    ensures Visited(m, i, m) == Visited(m, i + 1, i + 2)
  {
    var l, r := Visited(m, i, m), Visited(m, i + 1, i + 2);
    forall e | e in r ensures e in l {
      var (a, b) := e;
      assert a < b < m && Before(a, b, i + 1, i + 2);
      assert Before(a, b, i, m);
    }
  }

  /** Past the last row every pair has been visited. */
  lemma VisitedAll(m: nat)
    ensures Visited(m, m, m + 1) == AllPairs(m)
  {
  }

  /** A step of the loop either adds one similar pair or none. */
  lemma SimilarStep(sh: seq<set<string>>, i: nat, j: nat)
    requires i < j < |sh|
    ensures SimilarAmong(sh, Visited(|sh|, i, j + 1)) ==
      SimilarAmong(sh, Visited(|sh|, i, j)) + (if Similar(sh[i], sh[j]) then {(i, j)} else {})
    ensures (i, j) !in SimilarAmong(sh, Visited(|sh|, i, j))
  {
    VisitedStep(|sh|, i, j);
  }

  /** The similar pairs are a subset of all pairs, so there are no more of them. */
  lemma SimilarAmongSize(sh: seq<set<string>>, pairs: set<(nat, nat)>)
    ensures SimilarAmong(sh, pairs) <= pairs
    ensures |SimilarAmong(sh, pairs)| <= |pairs|
  {
    SubsetSize(SimilarAmong(sh, pairs), pairs);
  }

  /** A pair of the sample is an edge exactly when its Jaccard index reaches the threshold. */
  lemma SimilarPairsThreshold(sh: seq<set<string>>, i: nat, j: nat)
    requires i < j < |sh|
    ensures (i, j) in SimilarPairs(sh) <==> Jaccard(sh[i], sh[j]) >= 0.8
  {
    SimilarIsThreshold(sh[i], sh[j]);
    assert (i, j) in AllPairs(|sh|);
  }
}
