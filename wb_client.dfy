/**
 * The pure helpers of the marketplace client (app/wb_client.py): reading an
 * article number out of user text or a link, and picking the price and the
 * stock out of a product card. The HTTP calls are not part of this model.
 */
module WbClient {
  import opened Wrappers
  import opened Text
  import CleanRating

  // ----- extract_nmid -----

  function Pow10(n: nat): (p: nat)
    ensures p >= 1
  {
    if n == 0 then 1 else 10 * Pow10(n - 1)
  }

  lemma {:induction false} Pow10Grows(m: nat, n: nat)
    requires m <= n
    ensures Pow10(m) <= Pow10(n)
  {
    if m < n {
      Pow10Grows(m, n - 1);
    }
  }

  lemma Pow10Twelve()
    ensures Pow10(12) == 1_000_000_000_000
  {
  }

  /** The value of one decimal digit. */
  function DigitValue(c: char): (v: nat)
    ensures v < 10
  {
    if IsAsciiDigit(c) then c as int - '0' as int else 0
  }

  /** `int()` of a string of decimal digits. */
  function DecimalValue(d: string): (v: nat)
    ensures v < Pow10(|d|)
  {
    if d == [] then 0 else DecimalValue(d[..|d| - 1]) * 10 + DigitValue(d[|d| - 1])
  }

  /** The decimal text of `n`, as `str(n)` writes it. */
  function Decimal(n: nat): (d: string)
    ensures |d| >= 1
    decreases n
  {
    (if n < 10 then [] else Decimal(n / 10)) + [('0' as int + n % 10) as char]
  }

  /** `p` stands at `at` in `s`, letter for letter. */
  predicate LiteralAt(s: string, at: nat, p: string) {
    at + |p| <= |s| && s[at..at + |p|] == p
  }

  /**
   * An attempt of `NMID_RE` (line 8) at `at`: "/catalog/" or "nm=", then at
   * least 6 digits, of which the group takes at most 12. The result is the
   * span of the group.
   */
  function GroupAt(s: string, at: nat): (g: Option<(nat, nat)>)
    requires at <= |s|
    ensures g.Some? ==> at < g.value.0 && g.value.0 + 6 <= g.value.1 <= g.value.0 + 12 && g.value.1 <= |s|
  {
    var k := if LiteralAt(s, at, "/catalog/") then 9 else if LiteralAt(s, at, "nm=") then 3 else 0;
    if k == 0 then None
    else
      var d := DigitRun(s, at + k);
      if d < 6 then None else Some((at + k, at + k + if d < 12 then d else 12))
  }

  /** `re.search`: the leftmost position from `from` on where an attempt succeeds. */
  function SearchNmid(s: string, from: nat): (p: Option<nat>)
    requires from <= |s|
    ensures p.Some? ==> from <= p.value < |s| && GroupAt(s, p.value).Some?
    decreases |s| - from
  {
    if from == |s| then None
    else if GroupAt(s, from).Some? then Some(from)
    else SearchNmid(s, from + 1)
  }

  /** The text is nothing but decimal digits (`str.isdigit()` on ASCII). */
  predicate AllDigits(t: string) {
    |t| > 0 && DigitRun(t, 0) == |t|
  }

  /** Lines 10-17: the article number a user sent, if any. */
  function ExtractNmid(text: string): (n: Option<int>)
    ensures n.Some? ==> n.value >= 0
  {
    var t := Strip(text);
    if AllDigits(t) then Some(DecimalValue(t))
    else
      match SearchNmid(t, 0)
      case None => None
      case Some(p) =>
        var g := GroupAt(t, p).value;
        Some(DecimalValue(t[g.0..g.1]))
  }

  /** A digit run is made of digits and ends at a non-digit or at the end. */
  lemma {:induction false} DigitRunIsRun(s: string, at: nat)
    requires at <= |s|
    ensures forall k | at <= k < at + DigitRun(s, at) :: IsAsciiDigit(s[k])
    ensures at + DigitRun(s, at) < |s| ==> !IsAsciiDigit(s[at + DigitRun(s, at)])
    decreases |s| - at
  {
    if at < |s| && IsAsciiDigit(s[at]) {
      DigitRunIsRun(s, at + 1);
    }
  }

  /** A run of digits followed by a non-digit has exactly its own length. */
  lemma {:induction false} DigitRunOfDigits(s: string, at: nat, n: nat)
    requires at + n <= |s|
    requires forall k | at <= k < at + n :: IsAsciiDigit(s[k])
    requires at + n == |s| || !IsAsciiDigit(s[at + n])
    ensures DigitRun(s, at) == n
    decreases n
  {
    if n > 0 {
      DigitRunOfDigits(s, at + 1, n - 1);
    }
  }

  /** The group is greedy: all digits, and it stops at 12 digits or where the digits stop. */
  lemma GroupIsGreedy(s: string, at: nat)
    requires at <= |s| && GroupAt(s, at).Some?
    ensures var g := GroupAt(s, at).value;
      && (forall k | g.0 <= k < g.1 :: IsAsciiDigit(s[k]))
      && (g.1 == g.0 + 12 || g.1 == |s| || !IsAsciiDigit(s[g.1]))
  {
    var g := GroupAt(s, at).value;
    DigitRunIsRun(s, g.0);
  }

  /** The search finds the leftmost successful attempt. */
  lemma {:induction false} SearchIsLeftmost(s: string, from: nat)
    requires from <= |s|
    ensures SearchNmid(s, from).Some? ==> forall k | from <= k < SearchNmid(s, from).value :: GroupAt(s, k).None?
    decreases |s| - from
  {
    if from < |s| && GroupAt(s, from).None? {
      SearchIsLeftmost(s, from + 1);
    }
  }

  /** The search fails only when every attempt fails. */
  lemma {:induction false} SearchFailsOnlyWithoutMatch(s: string, from: nat)
    requires from <= |s|
    ensures SearchNmid(s, from).None? ==> forall k | from <= k <= |s| :: GroupAt(s, k).None?
    decreases |s| - from
  {
    if from < |s| && GroupAt(s, from).None? {
      SearchFailsOnlyWithoutMatch(s, from + 1);
    }
  }

  /** A number found in a link has 6 to 12 digits, so it stays below 10^12. */
  lemma LinkNumberBelowTrillion(text: string)
    requires !AllDigits(Strip(text))
    ensures ExtractNmid(text).Some? ==> ExtractNmid(text).value < 1_000_000_000_000
  {
    var t := Strip(text);
    var p := SearchNmid(t, 0);
    if p.Some? {
      var g := GroupAt(t, p.value).value;
      Pow10Grows(|t[g.0..g.1]|, 12);
      Pow10Twelve();
    }
  }

  /**
   * Nothing is found exactly when the stripped text is not all digits and
   * no position starts a key followed by six digits; blank text finds nothing.
   */
  lemma NothingFound(text: string)
    ensures ExtractNmid(text).None? <==>
      !AllDigits(Strip(text)) && forall k | 0 <= k <= |Strip(text)| :: GroupAt(Strip(text), k).None?
    ensures (forall k | 0 <= k < |text| :: IsSpace(text[k])) ==> ExtractNmid(text).None?
  {
    SearchFailsOnlyWithoutMatch(Strip(text), 0);
  }

  /** The last character of `str(n)` is the digit `n % 10`, after the text of `n / 10`. */
  lemma DecimalLast(n: nat)
    ensures var d := Decimal(n);
      && d[..|d| - 1] == (if n < 10 then [] else Decimal(n / 10))
      && IsAsciiDigit(d[|d| - 1]) && DigitValue(d[|d| - 1]) == n % 10
  {
  }

  lemma {:induction false} DecimalIsDigits(n: nat)
    ensures forall k | 0 <= k < |Decimal(n)| :: IsAsciiDigit(Decimal(n)[k])
    decreases n
  {
    var d := Decimal(n);
    DecimalLast(n);
    if n >= 10 {
      DecimalIsDigits(n / 10);
      forall k | 0 <= k < |d| - 1 ensures IsAsciiDigit(d[k]) {
        assert d[k] == d[..|d| - 1][k];
      }
    }
  }

  /** `int(str(n)) == n`. */
  lemma {:induction false} DecimalRoundTrip(n: nat)
    ensures DecimalValue(Decimal(n)) == n
    decreases n
  {
    var d := Decimal(n);
    DecimalLast(n);
    if n >= 10 {
      DecimalRoundTrip(n / 10);
    }
    assert DecimalValue(d) == DecimalValue(d[..|d| - 1]) * 10 + n % 10;
  }

  /** An article number sent on its own is read back as itself. */
  lemma NumberRoundTrip(n: nat)
    ensures ExtractNmid(Decimal(n)) == Some(n)
  {
    DecimalRoundTrip(n);
    DecimalIsBare(n);
  }

  /** `str(n)` is all digits, so `strip()` leaves it alone. */
  lemma DecimalIsBare(n: nat)
    ensures Strip(Decimal(n)) == Decimal(n) && AllDigits(Decimal(n))
  {
    var d := Decimal(n);
    DecimalIsDigits(n);
    assert !IsSpace(d[0]) && !IsSpace(d[|d| - 1]);
    DigitRunOfDigits(d, 0, |d|);
  }

  /**
   * A link that starts with "/catalog/" or "nm=" and carries a 6 to 12 digit
   * number, followed by anything that does not start with a digit or end in
   * whitespace, yields that number.
   */
  lemma LinkRoundTrip(key: string, n: nat, rest: string)
    requires key == "/catalog/" || key == "nm="
    requires 6 <= |Decimal(n)| <= 12
    requires rest == [] || (!IsAsciiDigit(rest[0]) && !IsSpace(rest[|rest| - 1]))
    ensures ExtractNmid(key + Decimal(n) + rest) == Some(n)
  {
    var d := Decimal(n);
    DecimalIsDigits(n);
    DecimalRoundTrip(n);
    LinkIsStripped(key, d, rest);
    LinkGroup(key, d, rest);
  }

  /** A link that starts with its key and ends in a digit or a non-blank is left alone by `strip()`, and is not a bare number. */
  lemma LinkIsStripped(key: string, d: string, rest: string)
    requires key == "/catalog/" || key == "nm="
    requires |d| >= 1 && forall k | 0 <= k < |d| :: IsAsciiDigit(d[k])
    requires rest == [] || !IsSpace(rest[|rest| - 1])
    ensures Strip(key + d + rest) == key + d + rest
    ensures !AllDigits(key + d + rest)
  {
    var t := key + d + rest;
    assert t[0] == key[0];
    if rest == [] {
      assert t[|t| - 1] == d[|d| - 1];
    } else {
      assert t[|t| - 1] == rest[|rest| - 1];
    }
    assert DigitRun(t, 0) == 0;
  }

  /** The regular expression's first attempt on such a link succeeds, with the number as its group. */
  lemma LinkGroup(key: string, d: string, rest: string)
    requires key == "/catalog/" || key == "nm="
    requires 6 <= |d| <= 12 && forall k | 0 <= k < |d| :: IsAsciiDigit(d[k])
    requires rest == [] || !IsAsciiDigit(rest[0])
    ensures GroupAt(key + d + rest, 0) == Some((|key|, |key| + |d|))
    ensures (key + d + rest)[|key|..|key| + |d|] == d
  {
    var t := key + d + rest;
    assert t[..|key|] == key;
    if key == "nm=" {
      assert t[0] == 'n';
      assert !LiteralAt(t, 0, "/catalog/");
    }
    assert LiteralAt(t, 0, key);
    forall k | |key| <= k < |key| + |d| ensures IsAsciiDigit(t[k]) {
      assert t[k] == d[k - |key|];
    }
    if rest != [] {
      assert t[|key| + |d|] == rest[0];
    }
    DigitRunOfDigits(t, |key|, |d|);
    assert t[|key|..|key| + |d|] == d;
  }

  // ----- product card -----

  /** A JSON value as `isinstance(v, int)` sees it: `bool` is an `int` subtype. */
  datatype Value = Absent | Int(i: int) | Bool(b: bool) | Other

  /** One entry of `sizes`: its `price.basic`, `price.product` (absent or null is `None`) and its stocks' `qty`. */
  datatype Size = Size(basic: Option<int>, product: Option<int>, stocks: seq<Value>)

  datatype Product = Product(totalQuantity: Value, sizes: seq<Size>)

  predicate Priced(s: Size) {
    s.basic.Some? && s.product.Some?
  }

  /** Lines 75-84: the prices of the first size that has both. */
  function ParsePrice(sizes: seq<Size>): (r: (Option<int>, Option<int>))
    ensures r.0.Some? <==> r.1.Some?
  {
    if sizes == [] then (None, None)
    else if Priced(sizes[0]) then (sizes[0].basic, sizes[0].product)
    else ParsePrice(sizes[1..])
  }

  /** The first size with both prices is the one whose prices are returned. */
  lemma {:induction false} ParsePriceTakesFirst(sizes: seq<Size>, i: nat)
    requires i < |sizes| && Priced(sizes[i])
    requires forall j | 0 <= j < i :: !Priced(sizes[j])
    ensures ParsePrice(sizes) == (sizes[i].basic, sizes[i].product)
  {
    if i > 0 {
      ParsePriceTakesFirst(sizes[1..], i - 1);
    }
  }

  /** No price is returned exactly when no size has both prices. */
  lemma {:induction false} ParsePriceNone(sizes: seq<Size>)
    ensures ParsePrice(sizes).0.None? <==> forall j | 0 <= j < |sizes| :: !Priced(sizes[j])
  {
    if sizes != [] && !Priced(sizes[0]) {
      ParsePriceNone(sizes[1..]);
      assert forall j | 1 <= j < |sizes| :: sizes[j] == sizes[1..][j - 1];
    }
  }

  /** `isinstance(v, int)` and the value Python then uses. */
  function AsInt(v: Value): Option<int> {
    match v
    case Int(i) => Some(i)
    case Bool(b) => Some(if b then 1 else 0)
    case _ => None
  }

  /** The integer `qty` values of a list of stocks, in order. */
  function StockQuantities(stocks: seq<Value>): (q: seq<int>)
    ensures |q| <= |stocks|
  {
    if stocks == [] then []
    else
      var n := |stocks| - 1;
      StockQuantities(stocks[..n]) + (if AsInt(stocks[n]).Some? then [AsInt(stocks[n]).value] else [])
  }

  /** The integer `qty` values over all sizes, size by size. */
  function Quantities(sizes: seq<Size>): seq<int> {
    if sizes == [] then []
    else Quantities(sizes[..|sizes| - 1]) + StockQuantities(sizes[|sizes| - 1].stocks)
  }

  /** What `total_stock` returns. */
  function StockTotal(p: Product): Option<int> {
    if AsInt(p.totalQuantity).Some? then AsInt(p.totalQuantity)
    else if Quantities(p.sizes) == [] then None
    else Some(CleanRating.Sum(Quantities(p.sizes)))
  }

  lemma SumStep(q: seq<int>, x: int)
    ensures CleanRating.Sum(q + [x]) == CleanRating.Sum(q) + x
  {
    assert (q + [x])[..|q|] == q;
  }

  /** Adds the integer quantities of one size's stocks to a running `total` and `found`. */
  method AddStocks(stocks: seq<Value>, ghost before: seq<int>, total: int, found: bool)
    returns (total': int, found': bool)
    requires total == CleanRating.Sum(before) && found == (before != [])
    ensures total' == CleanRating.Sum(before + StockQuantities(stocks))
    ensures found' == (before + StockQuantities(stocks) != [])
  {
    total', found' := total, found;
    var j := 0;
    assert before + StockQuantities(stocks[..0]) == before;
    while j < |stocks|
      invariant j <= |stocks|
      invariant total' == CleanRating.Sum(before + StockQuantities(stocks[..j]))
      invariant found' == (before + StockQuantities(stocks[..j]) != [])
    {
      ghost var seen := before + StockQuantities(stocks[..j]);
      var qty := AsInt(stocks[j]);
      assert stocks[..j + 1][..j] == stocks[..j];
      if qty.Some? {
        assert before + StockQuantities(stocks[..j + 1]) == seen + [qty.value];
        SumStep(seen, qty.value);
        total' := total' + qty.value;
        found' := true;
      } else {
        assert before + StockQuantities(stocks[..j + 1]) == seen;
      }
      j := j + 1;
    }
    assert stocks[..j] == stocks;
  }

  /** Lines 86-99: `totalQuantity` when it is an integer, else the sum of the integer quantities. */
  method TotalStock(p: Product) returns (stock: Option<int>)
    ensures stock == StockTotal(p)
  {
    var tq := AsInt(p.totalQuantity);
    if tq.Some? {
      return tq;
    }
    var total := 0;
    var found := false;
    var i := 0;
    while i < |p.sizes|
      invariant i <= |p.sizes|
      invariant total == CleanRating.Sum(Quantities(p.sizes[..i]))
      invariant found == (Quantities(p.sizes[..i]) != [])
    {
      total, found := AddStocks(p.sizes[i].stocks, Quantities(p.sizes[..i]), total, found);
      assert p.sizes[..i + 1][..i] == p.sizes[..i];
      i := i + 1;
    }
    assert p.sizes[..i] == p.sizes;
    return if found then Some(total) else None;
  }

  /** A stock list yields no quantity exactly when none of its `qty` is an integer. */
  lemma {:induction false} StockQuantitiesEmpty(stocks: seq<Value>)
    ensures StockQuantities(stocks) == [] <==> forall j | 0 <= j < |stocks| :: AsInt(stocks[j]).None?
  {
    if stocks != [] {
      var n := |stocks| - 1;
      StockQuantitiesEmpty(stocks[..n]);
      assert forall j | 0 <= j < n :: stocks[..n][j] == stocks[j];
    }
  }

  lemma {:induction false} QuantitiesEmpty(sizes: seq<Size>)
    ensures Quantities(sizes) == [] <==> forall i | 0 <= i < |sizes| :: StockQuantities(sizes[i].stocks) == []
  {
    if sizes != [] {
      var n := |sizes| - 1;
      QuantitiesEmpty(sizes[..n]);
      assert forall i | 0 <= i < n :: sizes[..n][i] == sizes[i];
    }
  }

  /** The quantities of non-negative stocks are non-negative. */
  lemma {:induction false} StockQuantitiesNonNegative(stocks: seq<Value>)
    requires forall j | 0 <= j < |stocks| :: AsInt(stocks[j]).GetOr(0) >= 0
    ensures forall k | 0 <= k < |StockQuantities(stocks)| :: StockQuantities(stocks)[k] >= 0
  {
    if stocks != [] {
      var n := |stocks| - 1;
      assert forall j | 0 <= j < n :: stocks[..n][j] == stocks[j];
      StockQuantitiesNonNegative(stocks[..n]);
    }
  }

  lemma {:induction false} QuantitiesNonNegative(sizes: seq<Size>)
    requires forall i | 0 <= i < |sizes| :: forall j | 0 <= j < |sizes[i].stocks| :: AsInt(sizes[i].stocks[j]).GetOr(0) >= 0
    ensures forall k | 0 <= k < |Quantities(sizes)| :: Quantities(sizes)[k] >= 0
  {
    if sizes != [] {
      var n := |sizes| - 1;
      assert forall i | 0 <= i < n :: sizes[..n][i] == sizes[i];
      QuantitiesNonNegative(sizes[..n]);
      StockQuantitiesNonNegative(sizes[n].stocks);
    }
  }

  /**
   * An integer `totalQuantity` wins; otherwise nothing is returned exactly
   * when no stock carries an integer `qty`.
   */
  lemma StockTotalNone(p: Product)
    ensures AsInt(p.totalQuantity).Some? ==> StockTotal(p) == AsInt(p.totalQuantity)
    ensures AsInt(p.totalQuantity).None? ==>
      (StockTotal(p).None? <==>
        forall i | 0 <= i < |p.sizes| :: forall j | 0 <= j < |p.sizes[i].stocks| :: AsInt(p.sizes[i].stocks[j]).None?)
  {
    QuantitiesEmpty(p.sizes);
    forall i | 0 <= i < |p.sizes| ensures StockQuantities(p.sizes[i].stocks) == [] <==>
      forall j | 0 <= j < |p.sizes[i].stocks| :: AsInt(p.sizes[i].stocks[j]).None?
    {
      StockQuantitiesEmpty(p.sizes[i].stocks);
    }
  }

  /** With no negative quantities in the stocks, the summed stock is not negative either. */
  lemma StockTotalNonNegative(p: Product)
    requires AsInt(p.totalQuantity).None?
    requires forall i | 0 <= i < |p.sizes| :: forall j | 0 <= j < |p.sizes[i].stocks| :: AsInt(p.sizes[i].stocks[j]).GetOr(0) >= 0
    ensures StockTotal(p).Some? ==> StockTotal(p).value >= 0
  {
    QuantitiesNonNegative(p.sizes);
    SumNonNegative(Quantities(p.sizes));
  }

  lemma {:induction false} SumNonNegative(q: seq<int>)
    requires forall k | 0 <= k < |q| :: 0 <= q[k]
    ensures CleanRating.Sum(q) >= 0
  {
    if q != [] {
      SumNonNegative(q[..|q| - 1]);
    }
  }
}
