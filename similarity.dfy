/**
 * Similarity fingerprints of app/analyzer.py:94-105: the 3-token shingles of a
 * token sequence and the Jaccard index of two shingle sets. Ratios are exact
 * reals; the analyzer's test `jaccard(a, b) >= 0.8` is `Similar(a, b)`, an
 * integer comparison proved equivalent to it.
 */
module Similarity {

  /** `" ".join(tokens[i:i+3])` */
  function Join3(a: string, b: string, c: string): string {
    a + " " + b + " " + c
  }

  /** The window of three tokens that starts at `i`. */
  function Window(ts: seq<string>, i: nat): string
    requires i + 3 <= |ts|
  {
    Join3(ts[i], ts[i + 1], ts[i + 2])
  }

  /** The windows that start before position `k`. */
  function WindowsBefore(ts: seq<string>, k: nat): set<string>
    requires k + 2 <= |ts|
  {
    set i | 0 <= i < k :: Window(ts, i)
  }

  /** `shingles(tokens, 3)`: the token set below three tokens, else the set of 3-token windows. */
  function Shingles(ts: seq<string>): set<string> {
    if |ts| < 3 then set t | t in ts
    else WindowsBefore(ts, |ts| - 2)
  }

  lemma {:induction false} WindowsBeforeSize(ts: seq<string>, k: nat)
    requires k + 2 <= |ts|
    ensures |WindowsBefore(ts, k)| <= k
  {
    if k > 0 {
      WindowsBeforeSize(ts, k - 1);
      assert WindowsBefore(ts, k) == WindowsBefore(ts, k - 1) + {Window(ts, k - 1)};
    }
  }

  /**
   * Fewer than three tokens give exactly the token set; otherwise there are at
   * most `|ts| - 2` shingles, each the join of three consecutive tokens.
   */
  lemma ShinglesShape(ts: seq<string>)
    ensures |ts| < 3 ==> Shingles(ts) == set t | t in ts
    ensures |ts| >= 3 ==> |Shingles(ts)| <= |ts| - 2
    ensures |ts| >= 3 ==> forall x | x in Shingles(ts) ::
      exists i | 0 <= i <= |ts| - 3 :: x == Window(ts, i)
  {
    if |ts| >= 3 {
      WindowsBeforeSize(ts, |ts| - 2);
    }
  }

  /** `jaccard(a, b)`: 0 for two empty sets, otherwise |a ∩ b| / |a ∪ b|. */
  function Jaccard(a: set<string>, b: set<string>): (r: real)
    ensures 0.0 <= r <= 1.0
  {
    // Once one set is non-empty the union is non-empty, so the source's
    // `if union else 0.0` fallback is never taken.
    if a == {} && b == {} then 0.0
    else
      var inter, union := |a * b|, |a + b|;
      SubsetSize(a * b, a + b);
      assert union > 0 by { assert a != {} || b != {}; if a != {} { SubsetSize(a, a + b); } else { SubsetSize(b, a + b); } }
      RatioAtMostOne(inter, union);
      inter as real / union as real
  }

  lemma {:induction false} SubsetSize<T>(s: set<T>, t: set<T>)
    requires s <= t
    ensures |s| <= |t|
    decreases |s|
  {
    if s != {} {
      var x :| x in s;
      SubsetSize(s - {x}, t - {x});
    }
  }

  lemma RatioAtMostOne(p: nat, q: nat)
    requires 0 < q && p <= q
    ensures 0.0 <= p as real / q as real <= 1.0
  {
    var r := p as real / q as real;
    assert r * q as real == p as real;
  }

  /** A quotient reaches `c` exactly when the numerator reaches `c` times the denominator. */
  lemma RatioAtLeast(p: real, q: real, c: real)
    requires q > 0.0
    ensures p / q >= c <==> p >= c * q
  {
    var r := p / q;
    assert r * q == p;
    if r >= c {
      assert (r - c) * q >= 0.0;
    } else {
      assert (c - r) * q > 0.0;
    }
  }

  /** A quotient of counts is 0 exactly when the numerator is, and 1 exactly when the counts are equal. */
  lemma RatioEnds(p: nat, q: nat)
    requires 0 < q
    ensures p as real / q as real == 0.0 <==> p == 0
    ensures p as real / q as real == 1.0 <==> p == q
  {
    var r := p as real / q as real;
    assert r * q as real == p as real;
  }

  lemma JaccardSymmetric(a: set<string>, b: set<string>)
    ensures Jaccard(a, b) == Jaccard(b, a)
  {
    assert a * b == b * a && a + b == b + a;
  }

  /** Two empty sets score 0, not 1; a non-empty set scores 1 against itself. */
  lemma JaccardEdgeCases(a: set<string>)
    ensures Jaccard({}, {}) == 0.0
    ensures a != {} ==> Jaccard(a, a) == 1.0
  {
    if a != {} {
      assert a * a == a && a + a == a;
      var q := |a| as real;
      assert q > 0.0;
      assert q / q == 1.0;
    }
  }

  /** The integer form of `jaccard(a, b) >= 0.8`. */
  predicate Similar(a: set<string>, b: set<string>) {
    |a + b| > 0 && 5 * |a * b| >= 4 * |a + b|
  }

  /** `Similar` is exactly the analyzer's threshold test on the Jaccard index. */
  lemma SimilarIsThreshold(a: set<string>, b: set<string>)
    ensures Similar(a, b) <==> Jaccard(a, b) >= 0.8
  {
    if a == {} && b == {} {
      assert a + b == {};
    } else {
      var p, q := |a * b| as real, |a + b| as real;
      assert q > 0.0 by {
        if a != {} { SubsetSize(a, a + b); } else { SubsetSize(b, a + b); }
      }
      RatioAtLeast(p, q, 0.8);
    }
  }

  lemma SimilarSymmetric(a: set<string>, b: set<string>)
    ensures Similar(a, b) <==> Similar(b, a)
  {
    assert a * b == b * a && a + b == b + a;
  }
}
