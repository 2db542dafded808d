/**
 * The tokenizer of app/analyzer.py:79-91. A text is lower-cased, every
 * character outside `[a-zа-я0-9\s-]` becomes a space, whitespace runs collapse
 * to one space, the ends are stripped, and the text is split on whitespace.
 * Each word loses its leading and trailing hyphens and is kept when it is
 * longer than two characters and not a stop word.
 */
module Tokenizer {
  import opened Text
  import opened Lexicon

  /** The character class `[a-zа-я0-9\s-]`. `ё` lies outside `а-я` and is blanked. */
  predicate Allowed(c: char) {
    'a' <= c <= 'z' || 'а' <= c <= 'я' || IsAsciiDigit(c) || IsSpace(c) || c == '-'
  }

  /** `re.sub(r"[^a-zа-я0-9\s-]", " ", s)` */
  function Blank(s: string): (r: string)
    ensures |r| == |s|
    ensures forall k | 0 <= k < |s| :: r[k] == (if Allowed(s[k]) then s[k] else ' ')
  {
    seq(|s|, i requires 0 <= i < |s| => if Allowed(s[i]) then s[i] else ' ')
  }

  /** The text `split()` is applied to (analyzer.py:80-82). */
  function Prepared(text: string): string {
    Strip(Collapse(Blank(LowerText(text))))
  }

  function DropLeadingHyphens(w: string): (r: string)
    ensures |r| <= |w|
    ensures r == [] || r[0] != '-'
    ensures r == w[|w| - |r|..]
  {
    if w != [] && w[0] == '-' then DropLeadingHyphens(w[1..]) else w
  }

  function DropTrailingHyphens(w: string): (r: string)
    ensures |r| <= |w|
    ensures r == [] || r[|r| - 1] != '-'
    ensures r == w[..|r|]
  {
    if w != [] && w[|w| - 1] == '-' then DropTrailingHyphens(w[..|w| - 1]) else w
  }

  /** `w.strip("-")`: the result neither starts nor ends with a hyphen and is a slice of `w`. */
  function TrimHyphens(w: string): (r: string)
    ensures r == [] || (r[0] != '-' && r[|r| - 1] != '-')
    ensures forall k | 0 <= k < |r| :: r[k] in w
  {
    var u := DropLeadingHyphens(w);
    var r := DropTrailingHyphens(u);
    SliceMembers(w, u, r);
    r
  }

  lemma SliceMembers(w: string, u: string, r: string)
    requires |u| <= |w| && u == w[|w| - |u|..] && |r| <= |u| && r == u[..|r|]
    ensures forall k | 0 <= k < |r| :: r[k] in w
  {
    forall k | 0 <= k < |r| ensures r[k] in w {
      assert r[k] == w[|w| - |u| + k];
    }
  }

  /** The two filters of the loop: longer than two characters and not a stop word. */
  predicate Keep(w: string) {
    |w| > 2 && w !in StopWords
  }

  /** The tokens the loop appends for `words`, in order. */
  function Select(words: seq<string>): seq<string> {
    if words == [] then []
    else
      var w := TrimHyphens(words[|words| - 1]);
      Select(words[..|words| - 1]) + (if Keep(w) then [w] else [])
  }

  /** The specification of `tokenize`. */
  function Tokens(text: string): seq<string> {
    Select(Split(Prepared(text)))
  }

  /** What every token is: at least three characters from `[a-zа-я0-9-]`, not a stop word, no hyphen at either end. */
  predicate IsToken(t: string) {
    && |t| >= 3
    && t !in StopWords
    && t[0] != '-' && t[|t| - 1] != '-'
    && Clean(t)
  }

  /** Only characters of `[a-zа-я0-9-]`. */
  predicate Clean(w: string) {
    forall k | 0 <= k < |w| :: Allowed(w[k]) && !IsSpace(w[k])
  }

  lemma PreparedIsAllowed(text: string)
    ensures Within(Prepared(text), Allowed)
  {
    var b := Blank(LowerText(text));
    CollapseWithin(b, Allowed);
    StripWithin(Collapse(b), Allowed);
  }

  lemma TrimKeepsClean(w: string)
    requires Clean(w)
    ensures Clean(TrimHyphens(w))
  {
    var r := TrimHyphens(w);
    forall k | 0 <= k < |r| ensures Allowed(r[k]) && !IsSpace(r[k]) {
      var j :| 0 <= j < |w| && w[j] == r[k];
    }
  }

  lemma {:induction false} SelectIsTokens(words: seq<string>)
    requires forall w | w in words :: Clean(w)
    ensures forall t | t in Select(words) :: IsToken(t)
  {
    if words != [] {
      var front := words[..|words| - 1];
      assert forall w | w in front :: w in words;
      SelectIsTokens(front);
      var w := words[|words| - 1];
      var t := TrimHyphens(w);
      assert w in words;
      TrimKeepsClean(w);
      assert Select(words) == Select(front) + (if Keep(t) then [t] else []);
    }
  }

  /** Every token has length at least 3, is no stop word and carries no hyphen at its ends. */
  lemma TokensAreWellFormed(text: string)
    ensures forall t | t in Tokens(text) :: IsToken(t)
  {
    var p := Prepared(text);
    PreparedIsAllowed(text);
    SplitWords(p, Allowed);
    var words := Split(p);
    forall w | w in words ensures Clean(w) {
      assert Within(w, Allowed);
      forall k | 0 <= k < |w| ensures Allowed(w[k]) {
        assert Allowed(w[k]) == (Allowed)(w[k]);
      }
    }
    SelectIsTokens(words);
  }

  lemma SelectStep(words: seq<string>, i: nat)
    requires i < |words|
    ensures var w := TrimHyphens(words[i]);
      Select(words[..i + 1]) == Select(words[..i]) + (if Keep(w) then [w] else [])
  {
    assert words[..i + 1][..i] == words[..i];
  }

  /** The loop of `tokenize`: one pass over the split words, appending the kept ones. */
  method Tokenize(text: string) returns (out: seq<string>)
    ensures out == Tokens(text)
    ensures forall t | t in out :: IsToken(t)
  {
    var words := Split(Prepared(text));
    out := [];
    var i := 0;
    while i < |words|
      invariant 0 <= i <= |words|
      invariant out == Select(words[..i])
    {
      var w := TrimHyphens(words[i]);
      SelectStep(words, i);
      if |w| <= 2 {
      } else if w in StopWords {
      } else {
        out := out + [w];
      }
      i := i + 1;
    }
    assert words[..|words|] == words;
    TokensAreWellFormed(text);
  }
}
