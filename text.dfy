/**
 * Character classes and the few Python `str` operations the analyzer and the
 * client rely on: `lower()`, `strip()`, `split()`, whitespace collapsing
 * (`re.sub(r"\s+", " ", ...)`) and `replace`, written as scanners over `char`.
 */
module Text {

  /** Python's whitespace for `str`: what `\s`, `str.split()` and `str.strip()` treat as blank. */
  predicate IsSpace(c: char) {
    var n := c as int;
    n == 0x20 || 0x09 <= n <= 0x0D || 0x1C <= n <= 0x1F || n == 0x85 || n == 0xA0
    || n == 0x1680 || 0x2000 <= n <= 0x200A || n == 0x2028 || n == 0x2029
    || n == 0x202F || n == 0x205F || n == 0x3000
  }

  predicate IsAsciiDigit(c: char) {
    '0' <= c <= '9'
  }

  /** The length of the greedy run of decimal digits (`\d`) that starts at `at`. */
  function DigitRun(s: string, at: nat): (n: nat)
    requires at <= |s|
    ensures at + n <= |s|
    decreases |s| - at
  {
    if at == |s| || !IsAsciiDigit(s[at]) then 0 else 1 + DigitRun(s, at + 1)
  }

  /**
   * `\w` restricted to ASCII letters and digits, `_` and the Russian alphabet
   * (`А`-`я`, `Ё`, `ё`); other Cyrillic letters such as `і`, `ї`, `є` or `ґ` are not word characters here.
   */
  predicate IsWordChar(c: char) {
    'a' <= c <= 'z' || 'A' <= c <= 'Z' || IsAsciiDigit(c) || c == '_'
    || 'А' <= c <= 'я' || c == 'Ё' || c == 'ё'
  }

  /** `str.lower()` on ASCII and Russian letters; every other character is left as it is. */
  function Lower(c: char): (l: char)
    ensures 'a' <= l <= 'z' ==> 'a' <= c <= 'z' || 'A' <= c <= 'Z'
    ensures 'а' <= l <= 'я' ==> 'а' <= c <= 'я' || 'А' <= c <= 'Я'
    ensures IsSpace(l) <==> IsSpace(c)
    ensures !('A' <= l <= 'Z') && !('А' <= l <= 'Я') && l != 'Ё'
    ensures 'A' <= c <= 'Z' || 'А' <= c <= 'Я' ==> l as int == c as int + 32
    ensures c == 'Ё' ==> l == 'ё'
    ensures !('A' <= c <= 'Z' || 'А' <= c <= 'Я' || c == 'Ё') ==> l == c
  {
    if 'A' <= c <= 'Z' || 'А' <= c <= 'Я' then (c as int + 32) as char
    else if c == 'Ё' then 'ё'
    else c
  }

  function LowerText(s: string): (r: string)
    ensures |r| == |s|
    ensures forall k | 0 <= k < |s| :: r[k] == Lower(s[k])
  {
    seq(|s|, i requires 0 <= i < |s| => Lower(s[i]))
  }

  /** Length of the run of whitespace that starts `s`. */
  function LeadingSpaces(s: string): (n: nat)
    ensures n <= |s|
    ensures forall k | 0 <= k < n :: IsSpace(s[k])
    ensures n < |s| ==> !IsSpace(s[n])
  {
    if s == [] || !IsSpace(s[0]) then 0 else 1 + LeadingSpaces(s[1..])
  }

  /** Length of the run of whitespace that ends `s`. */
  function TrailingSpaces(s: string): (n: nat)
    ensures n <= |s|
    ensures forall k | |s| - n <= k < |s| :: IsSpace(s[k])
    ensures n < |s| ==> !IsSpace(s[|s| - 1 - n])
  {
    if s == [] || !IsSpace(s[|s| - 1]) then 0 else 1 + TrailingSpaces(s[..|s| - 1])
  }

  /** Length of the run of non-whitespace that starts `s`. */
  function WordLength(s: string): (n: nat)
    ensures n <= |s|
    ensures forall k | 0 <= k < n :: !IsSpace(s[k])
    ensures n < |s| ==> IsSpace(s[n])
    ensures s != [] && !IsSpace(s[0]) ==> n >= 1
  {
    if s == [] || IsSpace(s[0]) then 0 else 1 + WordLength(s[1..])
  }

  /** `str.strip()`: drop leading and trailing whitespace. */
  function Strip(s: string): (r: string)
    ensures r == [] || (!IsSpace(r[0]) && !IsSpace(r[|r| - 1]))
    ensures (forall k | 0 <= k < |s| :: IsSpace(s[k])) ==> r == []
    ensures |r| <= |s|
    ensures |s| > 0 && !IsSpace(s[0]) && !IsSpace(s[|s| - 1]) ==> r == s
    ensures exists i, j | 0 <= i <= j <= |s| :: r == s[i..j] && (forall k | 0 <= k < i :: IsSpace(s[k]))
                                                && (forall k | j <= k < |s| :: IsSpace(s[k]))
  {
    var t := s[LeadingSpaces(s)..];
    StripSlice(s);
    t[..|t| - TrailingSpaces(t)]
  }

  /** The bounds of `strip()`'s slice: leading spaces before it, trailing spaces after it. */
  lemma StripSlice(s: string)
    ensures var i := LeadingSpaces(s);
      var t := s[i..];
      var j := i + |t| - TrailingSpaces(t);
      && i <= j <= |s| && t[..|t| - TrailingSpaces(t)] == s[i..j]
      && (forall k | 0 <= k < i :: IsSpace(s[k]))
      && (forall k | j <= k < |s| :: IsSpace(s[k]))
  {
    var i := LeadingSpaces(s);
    var t := s[i..];
    var j := i + |t| - TrailingSpaces(t);
    forall k | j <= k < |s| ensures IsSpace(s[k]) {
      assert s[k] == t[k - i];
    }
  }

  /** `re.sub(r"\s+", " ", s)`: every maximal run of whitespace becomes one space. */
  function Collapse(s: string): string
    decreases |s|
  {
    if s == [] then []
    else if IsSpace(s[0]) then [' '] + Collapse(s[LeadingSpaces(s)..])
    else [s[0]] + Collapse(s[1..])
  }

  /** `str.split()` with no separator: the maximal runs of non-whitespace, in order. */
  function Split(s: string): (ws: seq<string>)
    decreases |s|
  {
    var i := LeadingSpaces(s);
    if i == |s| then []
    else
      var n := WordLength(s[i..]);
      [s[i..i + n]] + Split(s[i + n..])
  }

  /** `s.replace(a, b)` for single characters. */
  function Replace(s: string, a: char, b: char): (r: string)
    ensures |r| == |s|
    ensures forall k | 0 <= k < |s| :: r[k] == (if s[k] == a then b else s[k])
  {
    seq(|s|, i requires 0 <= i < |s| => if s[i] == a then b else s[i])
  }

  /** A set of characters, given by a predicate, that a string stays inside. */
  ghost predicate Within(s: string, p: char -> bool) {
    forall k | 0 <= k < |s| :: p(s[k])
  }

  /** `strip()` returns a slice of its argument: it adds no character. */
  lemma StripWithin(s: string, p: char -> bool)
    requires Within(s, p)
    ensures Within(Strip(s), p)
  {
    var i := LeadingSpaces(s);
    var t := s[i..];
    assert forall k | 0 <= k < |Strip(s)| :: Strip(s)[k] == s[i + k];
  }

  /** Collapsing whitespace adds no character except the single space. */
  lemma {:induction false} CollapseWithin(s: string, p: char -> bool)
    requires Within(s, p) && p(' ')
    ensures Within(Collapse(s), p)
    decreases |s|
  {
    if s != [] {
      if IsSpace(s[0]) {
        CollapseWithin(s[LeadingSpaces(s)..], p);
      } else {
        CollapseWithin(s[1..], p);
      }
    }
  }

  /** The words of `split()` are non-empty, hold no whitespace and take their characters from the text. */
  lemma {:induction false} SplitWords(s: string, p: char -> bool)
    requires Within(s, p)
    ensures forall w | w in Split(s) :: w != [] && Within(w, p) && forall k | 0 <= k < |w| :: !IsSpace(w[k])
    decreases |s|
  {
    var i := LeadingSpaces(s);
    if i < |s| {
      var n := WordLength(s[i..]);
      SplitWords(s[i + n..], p);
      assert Split(s) == [s[i..i + n]] + Split(s[i + n..]);
    }
  }
}
