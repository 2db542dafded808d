/**
 * `summarize_stub` (app/analyzer.py:300-311): quotes from up to three
 * low-rated reviews that say something failed "after N days/weeks/months".
 * The search for `AGE_PATTERN` (app/analyzer.py:23) is a hand-written scanner:
 * "через", whitespace, decimal digits, optional whitespace, then a word that
 * starts with "дн", "недел" or "мес", all matched ignoring case.
 */
module Excerpts {
  import opened Wrappers
  import opened Text
  import opened Reviews

  // ----- the pattern -----

  /** `s` holds the lower-case word `p` at `at`, ignoring case (`re.I`). */
  predicate CiAt(s: string, at: nat, p: string)
    decreases |p|
  {
    p == [] || (at < |s| && Lower(s[at]) == p[0] && CiAt(s, at + 1, p[1..]))
  }

  /** The length of the greedy run of whitespace (`\s`) that starts at `at`. */
  function SpaceRun(s: string, at: nat): (n: nat)
    requires at <= |s|
    ensures at + n <= |s|
    decreases |s| - at
  {
    if at == |s| || !IsSpace(s[at]) then 0 else 1 + SpaceRun(s, at + 1)
  }

  /** The length of the greedy run of word characters (`\w`) that starts at `at`. */
  function WordRun(s: string, at: nat): (n: nat)
    requires at <= |s|
    ensures at + n <= |s|
    decreases |s| - at
  {
    if at == |s| || !IsWordChar(s[at]) then 0 else 1 + WordRun(s, at + 1)
  }

  /**
   * The length of the unit word's fixed beginning at `at`, trying the
   * alternatives of the pattern in order. `месяц\w*` never gets a turn: every
   * word it would match already matches `мес\w*`.
   */
  function UnitAt(s: string, at: nat): Option<nat> {
    if CiAt(s, at, "дн") then Some(2)
    else if CiAt(s, at, "недел") then Some(5)
    else if CiAt(s, at, "мес") then Some(3)
    else None
  }

  /**
   * The end of the match of `AGE_PATTERN` that starts at `at`, if one does.
   * Every quantifier is greedy, and no backtracking can help: what follows each
   * run can never belong to it.
   */
  function MatchAt(s: string, at: nat): (end: Option<nat>)
    requires at <= |s|
    ensures end.Some? ==> at + 5 < end.value <= |s|
  {
    if !CiAt(s, at, "через") then None else AfterKeyword(s, at + 5)
  }

  /** The rest of a match after "через" ends at `a`: `\s+\d+\s*` and the unit word. */
  function AfterKeyword(s: string, a: nat): (end: Option<nat>)
    requires a <= |s|
    ensures end.Some? ==> a < end.value <= |s|
  {
    var sp := SpaceRun(s, a);
    var b := a + sp;
    var d := DigitRun(s, b);
    var c := b + d;
    var e := c + SpaceRun(s, c);
    if sp == 0 || d == 0 then None
    else match UnitAt(s, e)
      case None => None
      case Some(u) => Some(e + u + WordRun(s, e + u))
  }

  /** `AGE_PATTERN.search(s)` from position `from`: try every start in turn. */
  function SearchFrom(s: string, from: nat): (m: Option<(nat, nat)>)
    requires from <= |s|
    ensures m.Some? ==> from <= m.value.0 <= m.value.1 <= |s|
    decreases |s| - from
  {
    match MatchAt(s, from)
    case Some(end) => Some((from, end))
    case None => if from == |s| then None else SearchFrom(s, from + 1)
  }

  /** What the search reports is a match. */
  lemma {:induction false} SearchFindsMatch(s: string, from: nat)
    requires from <= |s|
    ensures SearchFrom(s, from).Some? ==>
      MatchAt(s, SearchFrom(s, from).value.0) == Some(SearchFrom(s, from).value.1)
    decreases |s| - from
  {
    if MatchAt(s, from).None? && from < |s| {
      SearchFindsMatch(s, from + 1);
    }
  }

  /** No match starts before the one the search reports: it is the leftmost. */
  lemma {:induction false} SearchIsLeftmost(s: string, from: nat, k: nat)
    requires from <= k <= |s|
    requires SearchFrom(s, from).Some? && k < SearchFrom(s, from).value.0
    ensures MatchAt(s, k).None?
    decreases k - from
  {
    if k > from {
      SearchIsLeftmost(s, from + 1, k);
    }
  }

  /** The search finds nothing only when no position starts a match. */
  lemma {:induction false} SearchMissesOnlyWithoutMatch(s: string, from: nat, k: nat)
    requires from <= k <= |s|
    requires SearchFrom(s, from).None?
    ensures MatchAt(s, k).None?
    decreases k - from
  {
    if k > from {
      SearchMissesOnlyWithoutMatch(s, from + 1, k);
    }
  }

  // ----- one excerpt -----

  /** `r.text.strip().replace("\n", " ")`: the text on one line. */
  function Fragment(text: string): (f: string)
    ensures |f| <= |text|
    ensures forall k | 0 <= k < |f| :: f[k] != '\n'
  {
    Replace(Strip(text), '\n', ' ')
  }

  /** The quoted part: the first 120 characters, with an ellipsis only when something was cut. */
  function Quote(frag: string): (q: string)
    ensures |frag| <= 120 ==> q == frag
    ensures |frag| > 120 ==> |q| == 121 && q[..120] == frag[..120] && q[120] == '…'
  {
    if |frag| > 120 then frag[..120] + "…" else frag
  }

  /** The excerpt of line 308: the matched words, a dash and the quoted text in guillemets. */
  function Excerpt(text: string, start: nat, end: nat): string
    requires start <= end <= |text|
  {
    text[start..end] + " — «" + Quote(Fragment(text)) + "»"
  }

  /** The excerpt a review yields, when the pattern occurs in its text. */
  function AgeHit(r: Review): Option<string> {
    match SearchFrom(r.text, 0)
    case None => None
    case Some((a, b)) => Some(Excerpt(r.text, a, b))
  }

  // ----- the summary -----

  /** `(r.rating or 0) <= 2`: a low rating, or none at all. */
  predicate Eligible(r: Review) {
    r.rating.GetOr(0) <= 2
  }

  /** `[x for x in xs if keep(x)]`, as the list `neg` of line 303 is built. */
  function Filter<T>(xs: seq<T>, keep: T -> bool): seq<T> {
    if xs == [] then []
    else
      var last := xs[|xs| - 1];
      Filter(xs[..|xs| - 1], keep) + (if keep(last) then [last] else [])
  }

  /** The values `f` yields over `xs`, in order, skipping the absent ones. */
  function Present<T, U>(xs: seq<T>, f: T -> Option<U>): seq<U> {
    if xs == [] then []
    else
      var y := f(xs[|xs| - 1]);
      Present(xs[..|xs| - 1], f) + (if y.Some? then [y.value] else [])
  }

  function FirstThree<U>(h: seq<U>): seq<U> {
    if |h| <= 3 then h else h[..3]
  }

  /** What `summarize_stub` returns under `age_failures`. */
  function AgeFailures(reviews: seq<Review>): seq<string> {
    FirstThree(Present(Filter(reviews, Eligible), AgeHit))
  }

  /** What `f` yields over a prefix is a prefix of what it yields over the whole. */
  lemma {:induction false} PresentPrefix<T, U>(xs: seq<T>, f: T -> Option<U>, i: nat)
    requires i <= |xs|
    ensures |Present(xs[..i], f)| <= |Present(xs, f)|
    ensures Present(xs, f)[..|Present(xs[..i], f)|] == Present(xs[..i], f)
    decreases |xs| - i
  {
    if i < |xs| {
      PresentPrefix(xs, f, i + 1);
      assert xs[..i + 1][..i] == xs[..i];
    } else {
      assert xs[..i] == xs;
    }
  }

  /** Once a prefix yields three values, the first three values are those. */
  lemma ThreeFromPrefix<T, U>(xs: seq<T>, f: T -> Option<U>, i: nat)
    requires i <= |xs| && |Present(xs[..i], f)| == 3
    ensures FirstThree(Present(xs, f)) == Present(xs[..i], f)
  {
    PresentPrefix(xs, f, i);
  }

  /** One more element adds its value, if it has one. */
  lemma PresentStep<T, U>(xs: seq<T>, f: T -> Option<U>, i: nat)
    requires i < |xs|
    ensures Present(xs[..i + 1], f) == Present(xs[..i], f) + (if f(xs[i]).Some? then [f(xs[i]).value] else [])
  {
    assert xs[..i + 1][..i] == xs[..i];
  }

  /** Lines 304-308 for one review: search the pattern and, on a match, build the excerpt. */
  method AgeExcerpt(r: Review) returns (hit: Option<string>)
    ensures hit == AgeHit(r)
  {
    var m := SearchFrom(r.text, 0);
    if m.Some? {
      var frag := Fragment(r.text);
      hit := Some(r.text[m.value.0..m.value.1] + " — «" + Quote(frag) + "»");
    } else {
      hit := None;
    }
  }

  /** Lines 302-311: the loop over `neg` that stops once three excerpts are collected. */
  method SummarizeStub(reviews: seq<Review>) returns (ageHits: seq<string>)
    ensures ageHits == AgeFailures(reviews)
  {
    ageHits := [];
    var neg := Filter(reviews, Eligible);
    var i := 0;
    while i < |neg|
      invariant i <= |neg| && ageHits == Present(neg[..i], AgeHit) && |ageHits| < 3
    {
      var hit := AgeExcerpt(neg[i]);
      if hit.Some? {
        ageHits := ageHits + [hit.value];
      }
      PresentStep(neg, AgeHit, i);
      i := i + 1;
      if |ageHits| >= 3 {
        ThreeFromPrefix(neg, AgeHit, i);
        return;
      }
    }
    assert neg[..i] == neg;
  }

  // ----- what the summary guarantees -----

  /** The indices of `xs` that `keep` accepts and where `f` yields a value, in order. */
  function Picked<T, U>(xs: seq<T>, keep: T -> bool, f: T -> Option<U>): (idx: seq<nat>)
    ensures forall k | 0 <= k < |idx| :: idx[k] < |xs|
  {
    if xs == [] then []
    else
      var n := |xs| - 1;
      Picked(xs[..n], keep, f) + (if keep(xs[n]) && f(xs[n]).Some? then [n] else [])
  }

  /** The picked indices are accepted elements with a value, in increasing order. */
  lemma {:induction false} PickedSound<T, U>(xs: seq<T>, keep: T -> bool, f: T -> Option<U>)
    ensures forall k | 0 <= k < |Picked(xs, keep, f)| ::
      var j := Picked(xs, keep, f)[k]; j < |xs| && keep(xs[j]) && f(xs[j]).Some?
    ensures forall k, l | 0 <= k < l < |Picked(xs, keep, f)| :: Picked(xs, keep, f)[k] < Picked(xs, keep, f)[l]
  {
    if xs != [] {
      var n := |xs| - 1;
      PickedSound(xs[..n], keep, f);
      var idx0 := Picked(xs[..n], keep, f);
      var idx := Picked(xs, keep, f);
      assert idx == idx0 + (if keep(xs[n]) && f(xs[n]).Some? then [n] else []);
      forall k | 0 <= k < |idx| ensures idx[k] < |xs| && keep(xs[idx[k]]) && f(xs[idx[k]]).Some? {
        if k < |idx0| {
          assert xs[..n][idx0[k]] == xs[idx0[k]];
        }
      }
      forall k, l | 0 <= k < l < |idx| ensures idx[k] < idx[l] {
        if l >= |idx0| {
          assert idx0[k] < n;
        }
      }
    }
  }

  /** Every accepted element with a value is picked. */
  lemma {:induction false} PickedComplete<T, U>(xs: seq<T>, keep: T -> bool, f: T -> Option<U>, i: nat)
    requires i < |xs| && keep(xs[i]) && f(xs[i]).Some?
    ensures i in Picked(xs, keep, f)
  {
    var n := |xs| - 1;
    if i < n {
      assert xs[..n][i] == xs[i];
      PickedComplete(xs[..n], keep, f, i);
    }
  }

  /** Filtering and then collecting yields the values at the picked indices. */
  lemma {:induction false} PresentOfFilter<T, U>(xs: seq<T>, keep: T -> bool, f: T -> Option<U>)
    ensures var h, idx := Present(Filter(xs, keep), f), Picked(xs, keep, f);
      |h| == |idx| && forall k | 0 <= k < |h| :: f(xs[idx[k]]) == Some(h[k])
  {
    if xs != [] {
      var n := |xs| - 1;
      var front, x := xs[..n], xs[n];
      PresentOfFilter(front, keep, f);
      var kept := Filter(front, keep);
      var h0, idx0 := Present(kept, f), Picked(front, keep, f);
      var h, idx := Present(Filter(xs, keep), f), Picked(xs, keep, f);
      var extra := if keep(x) && f(x).Some? then [f(x).value] else [];
      if keep(x) {
        assert Filter(xs, keep) == kept + [x];
        assert (kept + [x])[..|kept|] == kept;
        assert Present(kept + [x], f) == h0 + extra;
      } else {
        assert Filter(xs, keep) == kept;
      }
      assert h == h0 + extra;
      assert idx == idx0 + (if keep(x) && f(x).Some? then [n] else []);
      forall k | 0 <= k < |h| ensures f(xs[idx[k]]) == Some(h[k]) {
        if k < |h0| {
          assert front[idx0[k]] == xs[idx0[k]];
        }
      }
    }
  }

  /**
   * `out[k]` is the value of the element at `idx[k]`, the indices increase,
   * and every accepted element with a value before the last index (or at all,
   * when fewer than three are used) is among them.
   */
  ghost predicate FirstPicks<T, U>(xs: seq<T>, keep: T -> bool, f: T -> Option<U>, idx: seq<nat>, out: seq<U>) {
    && |idx| == |out|
    && (forall k | 0 <= k < |idx| :: idx[k] < |xs| && keep(xs[idx[k]]) && f(xs[idx[k]]) == Some(out[k]))
    && (forall k, l | 0 <= k < l < |idx| :: idx[k] < idx[l])
    && (forall i | 0 <= i < |xs| && keep(xs[i]) && f(xs[i]).Some? && (|idx| < 3 || i < idx[|idx| - 1]) :: i in idx)
  }

  /**
   * The first three values over the accepted elements come from the first
   * three picked indices: in increasing order, and no picked index before the
   * last one used (or at all, when fewer than three are used) is skipped.
   */
  lemma FirstThreePicked<T, U>(xs: seq<T>, keep: T -> bool, f: T -> Option<U>)
    ensures |FirstThree(Present(Filter(xs, keep), f))| <= 3
    ensures exists idx: seq<nat> :: FirstPicks(xs, keep, f, idx, FirstThree(Present(Filter(xs, keep), f)))
  {
    var out := FirstThree(Present(Filter(xs, keep), f));
    var all := Picked(xs, keep, f);
    PresentOfFilter(xs, keep, f);
    PickedSound(xs, keep, f);
    var idx := if |all| <= 3 then all else all[..3];
    forall i | 0 <= i < |xs| && keep(xs[i]) && f(xs[i]).Some? && (|idx| < 3 || i < idx[|idx| - 1])
      ensures i in idx
    {
      PickedComplete(xs, keep, f, i);
    }
    assert FirstPicks(xs, keep, f, idx, out);
  }

  /**
   * The summary quotes the first three hits in input order: at most three
   * excerpts, each from an eligible review whose text matches, in increasing
   * order of review, and no hit before the last quoted one (or any hit at
   * all, when fewer than three are quoted) is left out.
   */
  lemma AgeFailuresAreFirstHits(reviews: seq<Review>)
    ensures |AgeFailures(reviews)| <= 3
    ensures exists idx: seq<nat> :: FirstPicks(reviews, Eligible, AgeHit, idx, AgeFailures(reviews))
  {
    FirstThreePicked(reviews, Eligible, AgeHit);
  }
}
