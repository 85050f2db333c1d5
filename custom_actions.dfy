/**
 * The custom browser actions of webautomate_ai/utils/custom_actions.py:
 * the price-deal checker (pure string cleaning, a decimal parse and a
 * comparison) and the result classification of click_and_upload,
 * download_file and save_displayed_file, whose browser and filesystem steps
 * are inputs (one Step outcome per awaited call).
 */
module CustomActions {
  import opened Wrappers
  import opened Text
  import opened ActionResults

  // ---------------------------------------------------------------------
  // check_price_deal
  // ---------------------------------------------------------------------

  /** The characters Python's `str.strip()` (no argument) removes: `str.isspace`. */
  predicate IsPySpace(c: char) {
    || '\U{0009}' <= c <= '\U{000D}'
    || '\U{001C}' <= c <= '\U{0020}'
    || c == '\U{0085}' || c == '\U{00A0}' || c == '\U{1680}'
    || '\U{2000}' <= c <= '\U{200A}'
    || c == '\U{2028}' || c == '\U{2029}' || c == '\U{202F}' || c == '\U{205F}' || c == '\U{3000}'
  }

  /** `price_text.replace('$', '').replace(',', '').strip()`. */
  function CleanPrice(priceText: string): (cleaned: string)
    ensures '$' !in cleaned && ',' !in cleaned
    ensures cleaned == [] || (!IsPySpace(cleaned[0]) && !IsPySpace(cleaned[|cleaned| - 1]))
    ensures exists i, j ::
              && TrimmedAt(RemoveAll(RemoveAll(priceText, '$'), ','), IsPySpace, i, j)
              && cleaned == RemoveAll(RemoveAll(priceText, '$'), ',')[i..j]
  {
    var unsigned := RemoveAll(priceText, '$');
    var unseparated := RemoveAll(unsigned, ',');
    assert '$' !in unseparated && ',' !in unseparated;
    var r := Trim(unseparated, IsPySpace);
    assert exists i, j :: TrimmedAt(unseparated, IsPySpace, i, j) && r == unseparated[i..j];
    r
  }

  /** Cleaning a cleaned price string changes nothing more. */
  lemma CleanPriceIdempotent(priceText: string)
    ensures CleanPrice(CleanPrice(priceText)) == CleanPrice(priceText)
  {
    var c := CleanPrice(priceText);
    RemoveAllAbsent(c, '$');
    RemoveAllAbsent(c, ',');
    TrimIdempotent(RemoveAll(RemoveAll(priceText, '$'), ','), IsPySpace);
  }

  /** The exact value of the fraction digits ".d1d2d3...": (d1 + (d2 + ...) / 10) / 10. */
  function FractionValue(fraction: string): (v: real)
    requires AllDigits(fraction)
    ensures 0.0 <= v < 1.0
  {
    if fraction == [] then 0.0
    else (DigitValue(fraction[0]) as real + FractionValue(fraction[1..])) / 10.0
  }

  /** The exact value of the digits `whole` "." `fraction`. */
  function Magnitude(whole: string, fraction: string): real
    requires AllDigits(whole) && AllDigits(fraction)
  {
    DigitsValue(whole) as real + FractionValue(fraction)
  }

  /**
   * The unsigned literals: one or more digits, or digits around a single '.'
   * with at least one digit in all ("12", "3.5", ".5", "7.", "007.50").
   */
  predicate UnsignedLiteral(body: string) {
    || (body != [] && AllDigits(body))
    || exists k :: 0 <= k < |body| && body[k] == '.' && |body| >= 2
                   && AllDigits(body[..k]) && AllDigits(body[k + 1..])
  }

  /** Without a '.', only the all-digit form applies. */
  lemma UnsignedLiteralNoDot(body: string)
    requires '.' !in body
    ensures UnsignedLiteral(body) <==> body != [] && AllDigits(body)
  {
    forall k | 0 <= k < |body| ensures body[k] != '.' {
      assert body[k] in body;
    }
  }

  /** With a first '.' at k, the literal is the digits on either side of it. */
  lemma UnsignedLiteralAt(body: string, k: nat)
    requires k < |body| && body[k] == '.' && '.' !in body[..k]
    ensures UnsignedLiteral(body) <==>
      |body| >= 2 && AllDigits(body[..k]) && AllDigits(body[k + 1..])
  {
    assert !IsDigit(body[k]);
    forall j | 0 <= j < k ensures body[j] != '.' {
      assert body[..k][j] == body[j];
      assert body[..k][j] in body[..k];
    }
    forall k' | 0 <= k' < |body| && body[k'] == '.' && AllDigits(body[..k'])
      ensures k' == k
    {
      forall j | 0 <= j < k' ensures IsDigit(body[j]) {
        assert body[..k'][j] == body[j];
      }
    }
  }

  /** An unsigned literal and its exact value; `None` for anything else. */
  function ParseUnsigned(body: string): (r: Option<real>)
    ensures r.Some? ==> body != [] && forall i :: 0 <= i < |body| ==> IsDigit(body[i]) || body[i] == '.'
    ensures r.Some? <==> UnsignedLiteral(body)
  {
    match IndexOf(body, '.')
    case None =>
      UnsignedLiteralNoDot(body);
      if body != [] && AllDigits(body) then Some(Magnitude(body, "")) else None
    case Some(k) =>
      UnsignedLiteralAt(body, k);
      var whole, fraction := body[..k], body[k + 1..];
      if AllDigits(whole) && AllDigits(fraction) && |whole| + |fraction| > 0 then
        assert forall i :: 0 <= i < |body| ==> IsDigit(body[i]) || body[i] == '.' by {
          forall i | 0 <= i < |body| ensures IsDigit(body[i]) || body[i] == '.' {
            if i > k { assert body[i] == fraction[i - k - 1]; }
            else if i < k { assert body[i] == whole[i]; }
          }
        }
        Some(Magnitude(whole, fraction))
      else None
  }

  predicate HasSign(s: string) { |s| > 0 && (s[0] == '+' || s[0] == '-') }

  /** An optional '+' or '-', then an unsigned literal. */
  predicate DecimalLiteral(s: string) {
    UnsignedLiteral(if HasSign(s) then s[1..] else s)
  }

  /**
   * The decimal literals the model accepts where Python calls `float`: an
   * optional sign, then an unsigned literal as above. The value is exact.
   */
  function ParseDecimal(s: string): (r: Option<real>)
    ensures r.Some? ==> |s| >= 1 && forall i :: 0 <= i < |s| ==>
      IsDigit(s[i]) || s[i] == '.' || (i == 0 && (s[i] == '+' || s[i] == '-'))
    ensures r.Some? <==> DecimalLiteral(s)
  {
    var body := if HasSign(s) then s[1..] else s;
    match ParseUnsigned(body)
    case None => None
    case Some(m) =>
      assert forall i :: 0 < i < |s| ==> s[i] == (if HasSign(s) then body[i - 1] else body[i]);
      Some(if HasSign(s) && s[0] == '-' then -m else m)
  }

  /** A decimal literal in canonical form: sign, whole part, fraction digits. */
  datatype Decimal = Decimal(negative: bool, whole: nat, fraction: string)

  predicate ValidDecimal(d: Decimal) { AllDigits(d.fraction) }

  function DecimalValue(d: Decimal): real
    requires ValidDecimal(d)
  {
    var magnitude := d.whole as real + FractionValue(d.fraction);
    if d.negative then -magnitude else magnitude
  }

  function ShowDecimal(d: Decimal): string
    requires ValidDecimal(d)
  {
    (if d.negative then "-" else "") + NatToString(d.whole) +
    (if d.fraction == "" then "" else "." + d.fraction)
  }

  lemma NoDotInDigits(w: string)
    requires AllDigits(w)
    ensures '.' !in w
  {
    forall c | c in w ensures c != '.' {
      var i :| 0 <= i < |w| && w[i] == c;
      assert IsDigit(w[i]);
    }
  }

  lemma ParseWhole(w: string)
    requires AllDigits(w) && w != []
    ensures ParseUnsigned(w) == Some(DigitsValue(w) as real)
  {
    NoDotInDigits(w);
  }

  lemma ParseWholeFraction(w: string, fraction: string)
    requires AllDigits(w) && AllDigits(fraction) && |w| + |fraction| >= 1
    ensures ParseUnsigned(w + "." + fraction) == Some(Magnitude(w, fraction))
  {
    var body := w + "." + fraction;
    NoDotInDigits(w);
    var dot := IndexOf(body, '.');
    assert body[|w|] == '.';
    assert dot.value == |w|;
    assert body[..|w|] == w;
    assert body[|w| + 1..] == fraction;
  }

  lemma ParseBody(w: string, fraction: string)
    requires AllDigits(w) && AllDigits(fraction) && w != []
    ensures ParseUnsigned(if fraction == "" then w else w + "." + fraction) == Some(Magnitude(w, fraction))
  {
    if fraction == "" { ParseWhole(w); } else { ParseWholeFraction(w, fraction); }
  }

  lemma ParseSigned(negative: bool, body: string, m: real)
    requires body != [] && IsDigit(body[0]) && ParseUnsigned(body) == Some(m)
    ensures ParseDecimal((if negative then "-" else "") + body) == Some(if negative then -m else m)
  {
    var s := (if negative then "-" else "") + body;
    assert HasSign(s) == negative == (s[0] == '-');
    assert (if HasSign(s) then s[1..] else s) == body;
  }

  /** A signed body whose first character is no sign parses to the body's value, negated after '-'. */
  lemma ParseSignedBody(sign: string, body: string, m: real)
    requires sign == "" || sign == "+" || sign == "-"
    requires body != [] && body[0] != '+' && body[0] != '-' && ParseUnsigned(body) == Some(m)
    ensures ParseDecimal(sign + body) == Some(if sign == "-" then -m else m)
  {
    var s := sign + body;
    assert HasSign(s) <==> sign != "";
    assert (if HasSign(s) then s[1..] else s) == body;
  }

  lemma BodyStart(w: string, dot: bool, f: string)
    requires AllDigits(w) && |w| + |f| >= 1 && (dot || f == [])
    ensures var body := if dot then w + "." + f else w;
      body != [] && body[0] != '+' && body[0] != '-'
  {
    if w != [] { assert IsDigit(w[0]); }
  }

  /**
   * The value of every accepted literal: an optional sign, the whole digits
   * `w` (possibly empty, possibly with leading zeros) and, after a '.', the
   * fraction digits `f`.
   */
  lemma ParseDecimalValue(sign: string, w: string, dot: bool, f: string)
    requires sign == "" || sign == "+" || sign == "-"
    requires AllDigits(w) && AllDigits(f) && |w| + |f| >= 1 && (dot || f == [])
    ensures ParseDecimal(sign + (if dot then w + "." + f else w))
            == Some(if sign == "-" then -Magnitude(w, f) else Magnitude(w, f))
  {
    var body := if dot then w + "." + f else w;
    if dot { ParseWholeFraction(w, f); } else { ParseWhole(w); }
    BodyStart(w, dot, f);
    ParseSignedBody(sign, body, Magnitude(w, f));
  }

  /** Every rendered decimal parses back to its value. */
  lemma ParseShowDecimal(d: Decimal)
    requires ValidDecimal(d)
    ensures ParseDecimal(ShowDecimal(d)) == Some(DecimalValue(d))
  {
    var w := NatToString(d.whole);
    var body := if d.fraction == "" then w else w + "." + d.fraction;
    var sign := if d.negative then "-" else "";
    var shown := ShowDecimal(d);
    assert shown == sign + body;
    NatToStringRoundTrip(d.whole);
    ParseBody(w, d.fraction);
    var m := Magnitude(w, d.fraction);
    assert m == d.whole as real + FractionValue(d.fraction);
    ParseSigned(d.negative, body, m);
    var v := if d.negative then -m else m;
    assert ParseDecimal(sign + body) == Some(v);
    DecimalValueUnfold(d);
    assert DecimalValue(d) == v;
  }

  lemma DecimalValueUnfold(d: Decimal)
    requires ValidDecimal(d)
    ensures DecimalValue(d) == var m := d.whole as real + FractionValue(d.fraction);
                               if d.negative then -m else m
  {
  }

  /** A string already free of '$', ',' and surrounding whitespace is its own cleaning. */
  lemma CleanPriceNoop(s: string)
    requires '$' !in s && ',' !in s
    requires s == [] || (!IsPySpace(s[0]) && !IsPySpace(s[|s| - 1]))
    ensures CleanPrice(s) == s
  {
    RemoveAllAbsent(s, '$');
    RemoveAllAbsent(s, ',');
    TrimNoop(s, IsPySpace);
  }

  /** The valuation of `:,.2f`, `money`, is a parameter of the model. */
  function GoodDealMessage(price: real, budget: real, money: real -> string): string {
    "GOOD DEAL: The price $" + money(price) + " is within the $" + money(budget) + " budget."
  }

  function NoDealMessage(price: real, budget: real, money: real -> string): string {
    "NO DEAL: The price $" + money(price) + " is above the $" + money(budget) + " budget."
  }

  /** Python's ValueError text for `float(cleaned)`; repr's escaping is not modelled. */
  function ParseErrorMessage(priceText: string, cleaned: string): string {
    "Could not parse the price string '" + priceText + "'. Error: " +
    "could not convert string to float: '" + cleaned + "'"
  }

  predicate StartsWith(s: string, prefix: string) {
    |prefix| <= |s| && s[..|prefix|] == prefix
  }

  lemma DealMessagePrefixes(price: real, budget: real, money: real -> string)
    ensures StartsWith(GoodDealMessage(price, budget, money), "GOOD DEAL")
    ensures !StartsWith(GoodDealMessage(price, budget, money), "NO DEAL")
    ensures StartsWith(NoDealMessage(price, budget, money), "NO DEAL")
    ensures !StartsWith(NoDealMessage(price, budget, money), "GOOD DEAL")
  {
    var good := GoodDealMessage(price, budget, money);
    var no := NoDealMessage(price, budget, money);
    assert good[..9] == "GOOD DEAL" && good[0] == 'G';
    assert no[..7] == "NO DEAL" && no[0] == 'N';
  }

  predicate IsGoodDeal(r: ActionResult) {
    r.IsContent() && StartsWith(r.extractedContent.value, "GOOD DEAL")
  }

  predicate IsNoDeal(r: ActionResult) {
    r.IsContent() && StartsWith(r.extractedContent.value, "NO DEAL")
  }

  /**
   * check_price_deal: a parseable price gives a GOOD DEAL result exactly when
   * it is at most the budget and a NO DEAL result otherwise, with the same
   * text as summary and memory; an unparseable one gives an error that quotes
   * the original text.
   */
  function CheckPriceDeal(priceText: string, budget: real, money: real -> string): (r: ActionResult)
    ensures r.ExactlyOneKind()
    ensures r.IsError() <==> ParseDecimal(CleanPrice(priceText)).None?
    ensures IsGoodDeal(r) <==> (ParseDecimal(CleanPrice(priceText)).Some? &&
                                ParseDecimal(CleanPrice(priceText)).value <= budget)
    ensures IsNoDeal(r) <==> (ParseDecimal(CleanPrice(priceText)).Some? &&
                              ParseDecimal(CleanPrice(priceText)).value > budget)
    ensures r.IsContent() ==> r.longTermMemory == r.extractedContent
    ensures r.IsContent() ==> var v := ParseDecimal(CleanPrice(priceText)).value;
      r.extractedContent == Some(if v <= budget then GoodDealMessage(v, budget, money)
                                 else NoDealMessage(v, budget, money))
    ensures r.IsError() ==> r.error.value == ParseErrorMessage(priceText, CleanPrice(priceText))
  {
    var cleaned := CleanPrice(priceText);
    match ParseDecimal(cleaned)
    case None => Failure(ParseErrorMessage(priceText, cleaned))
    case Some(price) =>
      var status := if price <= budget then GoodDealMessage(price, budget, money)
                    else NoDealMessage(price, budget, money);
      DealMessagePrefixes(price, budget, money);
      Content(status, status)
  }

  /** A leading '$' on an otherwise clean string is all that cleaning removes. */
  lemma CleanDollarPrefix(s: string)
    requires '$' !in s && ',' !in s
    requires s == [] || (!IsPySpace(s[0]) && !IsPySpace(s[|s| - 1]))
    ensures CleanPrice("$" + s) == s
  {
    RemoveAllConcat("$", s, '$');
    RemoveAllAbsent(s, '$');
    RemoveAllAbsent(s, ',');
    TrimNoop(s, IsPySpace);
  }

  /** A rendered decimal holds only digits, '.' and a leading '-'. */
  lemma ShowDecimalIsClean(d: Decimal)
    requires ValidDecimal(d)
    ensures var s := ShowDecimal(d);
      '$' !in s && ',' !in s && s != [] && !IsPySpace(s[0]) && !IsPySpace(s[|s| - 1])
  {
    var s := ShowDecimal(d);
    assert NumeralChars(s) by { ParseShowDecimal(d); }
    NumeralIsClean(s);
  }

  /** Only digits, '.' and signs, and at least one character. */
  predicate NumeralChars(s: string) {
    s != [] && forall i :: 0 <= i < |s| ==> IsDigit(s[i]) || s[i] == '.' || s[i] == '+' || s[i] == '-'
  }

  lemma NumeralIsClean(s: string)
    requires NumeralChars(s)
    ensures '$' !in s && ',' !in s && !IsPySpace(s[0]) && !IsPySpace(s[|s| - 1])
  {
    forall c | c in s ensures c != '$' && c != ',' {
      var i :| 0 <= i < |s| && s[i] == c;
    }
  }

  /** A price written with a '$' is judged by the value of the literal after it. */
  lemma DollarPriceJudgedByValue(d: Decimal, budget: real, money: real -> string)
    requires ValidDecimal(d)
    ensures var r := CheckPriceDeal("$" + ShowDecimal(d), budget, money);
      (IsGoodDeal(r) <==> DecimalValue(d) <= budget) && (IsNoDeal(r) <==> DecimalValue(d) > budget)
  {
    ShowDecimalIsClean(d);
    CleanDollarPrefix(ShowDecimal(d));
    ParseShowDecimal(d);
  }

  /** Removing '$' from "$a,b" leaves "a,b" when a and b hold none. */
  lemma {:induction false} DropDollar(a: string, b: string)
    requires '$' !in a && '$' !in b
    ensures RemoveAll("$" + a + "," + b, '$') == a + ("," + b)
  {
    assert "$" + a + "," + b == "$" + (a + ("," + b));
    RemoveAllConcat("$", a + ("," + b), '$');
    RemoveAllConcat(a, "," + b, '$');
    RemoveAllConcat(",", b, '$');
    RemoveAllAbsent(a, '$');
    RemoveAllAbsent(b, '$');
  }

  /** Removing ',' from "a,b" leaves "ab" when a and b hold none. */
  lemma {:induction false} DropComma(a: string, b: string)
    requires ',' !in a && ',' !in b
    ensures RemoveAll(a + ("," + b), ',') == a + b
  {
    RemoveAllConcat(a, "," + b, ',');
    RemoveAllConcat(",", b, ',');
    RemoveAllAbsent(a, ',');
    RemoveAllAbsent(b, ',');
  }

  /** Cleaning "$a,b" for clean pieces `a` and `b` leaves "ab". */
  lemma {:induction false} CleanDollarThousands(a: string, b: string)
    requires '$' !in a && ',' !in a && '$' !in b && ',' !in b
    requires a != [] && b != [] && !IsPySpace(a[0]) && !IsPySpace(b[|b| - 1])
    ensures CleanPrice("$" + a + "," + b) == a + b
  {
    DropDollar(a, b);
    DropComma(a, b);
    var ab := a + b;
    assert ab[0] == a[0] && ab[|ab| - 1] == b[|b| - 1];
    assert '$' !in ab && ',' !in ab;
    TrimNoop(ab, IsPySpace);
  }

  lemma ExamplePieces()
    ensures "$1,299.99" == "$" + "1" + "," + "299.99"
    ensures "1" + "299.99" == "1299.99"
  {
  }

  lemma ExampleClean()
    ensures CleanPrice("$1,299.99") == "1299.99"
  {
    ExamplePieces();
    CleanDollarThousands("1", "299.99");
  }

  lemma ExampleWhole()
    ensures DigitsValue("1299") == 1299
  {
    assert "1299"[..3] == "129" && "129"[..2] == "12" && "12"[..1] == "1" && "1"[..0] == "";
  }

  lemma ExampleFraction()
    ensures FractionValue("99") == 0.99
  {
    assert "99"[1..] == "9" && "9"[1..] == "";
  }

  lemma {:induction false} ExampleBody()
    ensures ParseUnsigned("1299.99") == Some(1299.99)
  {
    ExampleWhole();
    ExampleFraction();
    ParseBody("1299", "99");
    assert "1299" + "." + "99" == "1299.99";
  }

  lemma {:induction false} ExampleParse()
    ensures ParseDecimal("1299.99") == Some(1299.99)
  {
    ExampleBody();
    ParseSigned(false, "1299.99", 1299.99);
    assert (if false then "-" else "") + "1299.99" == "1299.99";
  }

  /** The short form ".5" is accepted, as `float` accepts it. */
  lemma {:induction false} ExampleLeadingDot()
    ensures ParseDecimal(".5") == Some(0.5)
  {
    var m := Magnitude("", "5");
    assert m == 0.5 by { assert "5"[1..] == ""; }
    assert ParseDecimal("" + ("" + "." + "5")) == Some(m) by { ParseDecimalValue("", "", true, "5"); }
    assert "" + ("" + "." + "5") == ".5";
  }

  /** The short form "-5." is accepted, as `float` accepts it. */
  lemma {:induction false} ExampleTrailingDot()
    ensures ParseDecimal("-5.") == Some(-5.0)
  {
    var m := Magnitude("5", "");
    assert m == 5.0 by { assert "5"[..0] == ""; }
    assert ParseDecimal("-" + ("5" + "." + "")) == Some(-m) by { ParseDecimalValue("-", "5", true, ""); }
    assert "-" + ("5" + "." + "") == "-5.";
  }

  /** "$1,299.99" against a budget of 1300 is a GOOD DEAL, against 1000 it is a NO DEAL. */
  lemma ExamplePrice(money: real -> string)
    ensures IsGoodDeal(CheckPriceDeal("$1,299.99", 1300.0, money))
    ensures CheckPriceDeal("$1,299.99", 1300.0, money).extractedContent
            == Some(GoodDealMessage(1299.99, 1300.0, money))
    ensures IsNoDeal(CheckPriceDeal("$1,299.99", 1000.0, money))
    ensures CheckPriceDeal("$1,299.99", 1000.0, money).extractedContent
            == Some(NoDealMessage(1299.99, 1000.0, money))
  {
    ExampleClean();
    ExampleParse();
  }

  /** Text that is not a number gives an error result. */
  lemma ExampleUnparseable(money: real -> string)
    ensures CheckPriceDeal("TBD", 500.0, money).IsError()
  {
    CleanPriceNoop("TBD");
    assert !IsDigit('T');
  }

  // ---------------------------------------------------------------------
  // click_and_upload, download_file, save_displayed_file
  // ---------------------------------------------------------------------

  /** The host's view of paths: `os.path.isabs` (platform dependent) and the paths that exist. */
  datatype Host = Host(isAbs: string -> bool, existing: set<string>)

  /** The external calls an action makes, in the order it makes them. */
  datatype Call =
    | ActivePage                         // browser_session.browser.contexts[0].pages[-1]
    | ExpectFileChooser(timeoutMs: nat)  // entering `async with expect_file_chooser(...)`
    | GetDomElementByIndex(index: int)
    | GetLocateElement
    | ClickElement
    | LeaveFileChooserBlock              // leaving that `async with` block
    | AwaitFileChooser                   // `await fc_info.value`
    | SetFiles(path: string)
    | ExpectDownload(timeoutMs: nat)     // entering `async with expect_download(...)`
    | AwaitDownload                      // `await download_info.value`
    | LeaveDownloadBlock
    | DownloadPath                       // `await download.path()` and `resolve()`
    | EvaluateFetch(url: string)         // the in-page fetch of the page's own URL
    | DecodeBase64
    | WriteFile(dir: string, filename: string)   // opening `dir / filename` for writing
    | ResolvePath

  /** How the `try` body of an action ended. */
  datatype Exit = Returned(result: ActionResult) | Threw(exc: Exception)

  /** The body's exit and the calls it made. */
  datatype Run = Run(exit: Exit, calls: seq<Call>)

  /** What an action returns, with the calls it made. */
  datatype Outcome = Outcome(result: ActionResult, calls: seq<Call>)

  const FileChooserTimeoutMs: nat := 10000
  const DownloadTimeoutMs: nat := 15000

  function NotAbsoluteMessage(path: string): string {
    "File path must be an absolute path. " + "You provided: '" + path + "'"
  }

  function NotFoundMessage(path: string): string {
    "File not found at path: " + path + ". Cannot upload."
  }

  function ElementMissingMessage(index: int): string {
    "Could not find element with index " + IntToString(index) + " to click."
  }

  function UploadedMessage(index: int, path: string): string {
    "Successfully clicked element " + IntToString(index) + " and set file for upload: " + path
  }

  const UploadedMemory := "The file has been selected for upload."

  const ChooserTimeoutMessage :=
    "Upload failed: " + "The file chooser dialog did not open after clicking the element. " +
    "Please ensure the element index corresponds to a button that opens a file dialog."

  function UploadErrorMessage(text: string): string {
    "An error occurred during " + "the click-and-upload operation: " + text
  }

  /** The steps click_and_upload awaits, each with the outcome the browser gives it. */
  datatype UploadSteps = UploadSteps(
    page: Step<()>,          // the active page, line 54
    openChooser: Step<()>,   // entering expect_file_chooser(timeout=10000), line 56
    lookup: Step<bool>,      // get_dom_element_by_index, line 58: whether an element came back
    locate: Step<()>,        // get_locate_element, line 63
    click: Step<()>,         // click, line 64
    closeChooser: Step<()>,  // leaving the `async with` block, also on the early return
    chooser: Step<()>,       // awaiting fc_info.value, line 67
    setFiles: Step<()>)      // set_files, line 68

  /** Every step completes and the element is found. */
  predicate UploadStepsSucceed(s: UploadSteps) {
    s.page.Done? && s.openChooser.Done? && s.lookup == Done(true) && s.locate.Done? &&
    s.click.Done? && s.closeChooser.Done? && s.chooser.Done? && s.setFiles.Done?
  }

  /**
   * The body of the `async with` block, lines 58-64: the way it ends (None
   * when it runs to its end) and the calls it makes.
   */
  function ChooserBlock(index: int, s: UploadSteps): (b: (Option<Exit>, seq<Call>))
    ensures b.0.None? <==> s.lookup == Done(true) && s.locate.Done? && s.click.Done?
    ensures b.0.Some? && b.0.value.Returned? ==>
      s.lookup == Done(false) && b.0.value.result == Failure(ElementMissingMessage(index))
  {
    match s.lookup
    case Raised(e) => (Some(Threw(e)), [GetDomElementByIndex(index)])
    case Done(false) => (Some(Returned(Failure(ElementMissingMessage(index)))), [GetDomElementByIndex(index)])
    case Done(true) =>
      if s.locate.Raised? then (Some(Threw(s.locate.exc)), [GetDomElementByIndex(index), GetLocateElement])
      else if s.click.Raised? then
        (Some(Threw(s.click.exc)), [GetDomElementByIndex(index), GetLocateElement, ClickElement])
      else (None, [GetDomElementByIndex(index), GetLocateElement, ClickElement])
  }

  /** Inside the chooser block the lookup comes first, the click only follows
      a found and located element, and files are never set. */
  lemma ChooserBlockCalls(index: int, s: UploadSteps)
    ensures ChooserBlock(index, s).1 != [] && ChooserBlock(index, s).1[0] == GetDomElementByIndex(index)
    ensures ClickElement in ChooserBlock(index, s).1 ==> s.lookup == Done(true) && s.locate.Done?
    ensures forall q :: SetFiles(q) !in ChooserBlock(index, s).1
  {
  }

  /**
   * The `try` body of click_and_upload, lines 54-72. An exception inside the
   * `async with` block propagates; a `return` inside it, or running off its end,
   * first leaves the block, which can raise in turn.
   */
  function UploadTry(index: int, path: string, s: UploadSteps): (run: Run)
    ensures run.exit.Returned? ==>
      run.exit.result == Failure(ElementMissingMessage(index)) ||
      run.exit.result == Content(UploadedMessage(index, path), UploadedMemory)
    ensures run.exit == Returned(Content(UploadedMessage(index, path), UploadedMemory)) <==> UploadStepsSucceed(s)
  {
    var entered := [ActivePage, ExpectFileChooser(FileChooserTimeoutMs)];
    if s.page.Raised? then Run(Threw(s.page.exc), [ActivePage])
    else if s.openChooser.Raised? then Run(Threw(s.openChooser.exc), entered)
    else
      var (blockExit, blockCalls) := ChooserBlock(index, s);
      var left := entered + blockCalls + [LeaveFileChooserBlock];
      if blockExit.Some? && blockExit.value.Threw? then Run(blockExit.value, left)
      else if s.closeChooser.Raised? then Run(Threw(s.closeChooser.exc), left)
      else if blockExit.Some? then Run(blockExit.value, left)
      else if s.chooser.Raised? then Run(Threw(s.chooser.exc), left + [AwaitFileChooser])
      else
        var done := left + [AwaitFileChooser, SetFiles(path)];
        if s.setFiles.Raised? then Run(Threw(s.setFiles.exc), done)
        else Run(Returned(Content(UploadedMessage(index, path), UploadedMemory)), done)
  }

  /** The body starts with the active page; files are only set, with the given
      path, after the element was found, located and clicked. */
  lemma UploadTryCalls(index: int, path: string, s: UploadSteps)
    ensures UploadTry(index, path, s).calls != [] && UploadTry(index, path, s).calls[0] == ActivePage
    ensures forall q :: SetFiles(q) in UploadTry(index, path, s).calls ==>
      q == path && s.lookup == Done(true) && s.locate.Done? && s.click.Done?
    ensures ClickElement in UploadTry(index, path, s).calls ==> s.lookup == Done(true)
    ensures UploadStepsSucceed(s) ==> SetFiles(path) in UploadTry(index, path, s).calls
  {
    ChooserBlockCalls(index, s);
  }

  /** The `except` clauses of click_and_upload, lines 74-82. */
  function UploadHandlers(exit: Exit): ActionResult {
    match exit
    case Returned(r) => r
    case Threw(Exception(AsyncTimeout, _)) => Failure(ChooserTimeoutMessage)
    case Threw(Exception(OtherException, text)) => Failure(UploadErrorMessage(text))
  }

  /**
   * click_and_upload: the path checks come first and make no browser call;
   * set_files is only reached with the checked path after the element was
   * found and clicked; a content result comes back exactly when every step
   * succeeds.
   */
  function ClickAndUpload(index: int, path: string, host: Host, s: UploadSteps): (o: Outcome)
    ensures o.result.ExactlyOneKind()
    ensures !host.isAbs(path) ==> o == Outcome(Failure(NotAbsoluteMessage(path)), [])
    ensures host.isAbs(path) && path !in host.existing ==>
      o == Outcome(Failure(NotFoundMessage(path)), [])
    ensures o.calls != [] ==> host.isAbs(path) && path in host.existing
    ensures forall q :: SetFiles(q) in o.calls ==>
      q == path && s.lookup == Done(true) && s.locate.Done? && s.click.Done?
    ensures ClickElement in o.calls ==> s.lookup == Done(true)
    ensures o.result.IsContent() <==> host.isAbs(path) && path in host.existing && UploadStepsSucceed(s)
    ensures o.result.IsContent() ==>
      o.result == Content(UploadedMessage(index, path), UploadedMemory) && SetFiles(path) in o.calls
  {
    if !host.isAbs(path) then Outcome(Failure(NotAbsoluteMessage(path)), [])
    else if path !in host.existing then Outcome(Failure(NotFoundMessage(path)), [])
    else
      UploadTryCalls(index, path, s);
      var run := UploadTry(index, path, s);
      Outcome(UploadHandlers(run.exit), run.calls)
  }

  /** The steps click_and_upload reaches, in order, with their failures. */
  function UploadSchedule(s: UploadSteps): seq<Option<Exception>> {
    var found := s.lookup == Done(true);
    [Failed(s.page), Failed(s.openChooser), Failed(s.lookup)] +
    (if found then [Failed(s.locate), Failed(s.click)] else []) +
    [Failed(s.closeChooser)] +
    (if found then [Failed(s.chooser), Failed(s.setFiles)] else [])
  }

  /**
   * Reference form of the check order: once the path checks pass, the first
   * step that raises decides the result through the `except` clauses; when
   * none raises, a missing element gives the index error and a found one success.
   */
  function UploadReference(index: int, path: string, s: UploadSteps): ActionResult
  {
    match FirstFailure(UploadSchedule(s))
    case Some(e) => UploadHandlers(Threw(e))
    case None =>
      if s.lookup == Done(true) then Content(UploadedMessage(index, path), UploadedMemory)
      else Failure(ElementMissingMessage(index))
  }

  /** A failure before the element lookup returns decides the result. */
  lemma UploadEarlyFailure(index: int, path: string, s: UploadSteps)
    requires s.page.Raised? || s.openChooser.Raised? || s.lookup.Raised?
    ensures UploadHandlers(UploadTry(index, path, s).exit) == UploadReference(index, path, s)
  {
    var sched := UploadSchedule(s);
    if s.page.Raised? { FirstFailureAt(sched, 0); }
    else if s.openChooser.Raised? { FirstFailureAt(sched, 1); }
    else { FirstFailureAt(sched, 2); }
  }

  /** With the element found, locating or clicking it can raise first. */
  lemma UploadFoundInBlock(index: int, path: string, s: UploadSteps)
    requires s.page.Done? && s.openChooser.Done? && s.lookup == Done(true)
    requires s.locate.Raised? || s.click.Raised?
    ensures UploadHandlers(UploadTry(index, path, s).exit) == UploadReference(index, path, s)
  {
    var sched := UploadSchedule(s);
    assert sched[..5] == [None, None, None, Failed(s.locate), Failed(s.click)];
    if s.locate.Raised? { FirstFailureAt(sched, 3); }
    else { FirstFailureAt(sched, 4); }
  }

  /** With the element found and clicked, leaving the block can raise first. */
  lemma UploadLeaveFails(index: int, path: string, s: UploadSteps)
    requires s.page.Done? && s.openChooser.Done? && s.lookup == Done(true)
    requires s.locate.Done? && s.click.Done? && s.closeChooser.Raised?
    ensures UploadHandlers(UploadTry(index, path, s).exit) == UploadReference(index, path, s)
  {
    var sched := UploadSchedule(s);
    assert sched[..6] == [None, None, None, None, None, Failed(s.closeChooser)];
    FirstFailureAt(sched, 5);
  }

  /** Once the block is left, the chooser and then set_files can raise. */
  lemma UploadAfterLeave(index: int, path: string, s: UploadSteps)
    requires s.page.Done? && s.openChooser.Done? && s.lookup == Done(true)
    requires s.locate.Done? && s.click.Done? && s.closeChooser.Done?
    ensures UploadHandlers(UploadTry(index, path, s).exit) == UploadReference(index, path, s)
  {
    var sched := UploadSchedule(s);
    assert sched == [None, None, None, None, None, None, Failed(s.chooser), Failed(s.setFiles)];
    assert ChooserBlock(index, s).0 == None;
    if s.chooser.Raised? {
      assert UploadTry(index, path, s).exit == Threw(s.chooser.exc);
      FirstFailureAt(sched, 6);
    } else if s.setFiles.Raised? {
      assert UploadTry(index, path, s).exit == Threw(s.setFiles.exc);
      FirstFailureAt(sched, 7);
    } else {
      assert UploadTry(index, path, s).exit == Returned(Content(UploadedMessage(index, path), UploadedMemory));
    }
  }

  /** With no element at the index, only leaving the block can still raise. */
  lemma UploadMissing(index: int, path: string, s: UploadSteps)
    requires s.page.Done? && s.openChooser.Done? && s.lookup == Done(false)
    ensures UploadHandlers(UploadTry(index, path, s).exit) == UploadReference(index, path, s)
  {
    var sched := UploadSchedule(s);
    assert sched == [None, None, None, Failed(s.closeChooser)];
    if s.closeChooser.Raised? { FirstFailureAt(sched, 3); }
  }

  /** Once the path checks pass, click_and_upload gives the reference result. */
  lemma ClickAndUploadFirstFailure(index: int, path: string, host: Host, s: UploadSteps)
    requires host.isAbs(path) && path in host.existing
    ensures ClickAndUpload(index, path, host, s).result == UploadReference(index, path, s)
  {
    if s.page.Raised? || s.openChooser.Raised? || s.lookup.Raised? {
      UploadEarlyFailure(index, path, s);
    } else if s.lookup.value && (s.locate.Raised? || s.click.Raised?) {
      UploadFoundInBlock(index, path, s);
    } else if s.lookup.value && s.closeChooser.Raised? {
      UploadLeaveFails(index, path, s);
    } else if s.lookup.value {
      UploadAfterLeave(index, path, s);
    } else {
      UploadMissing(index, path, s);
    }
  }

  /** The messages of click_and_upload differ from each other for every input. */
  lemma UploadMessagesDistinct(index: int, path: string, text: string)
    ensures ChooserTimeoutMessage != UploadErrorMessage(text)
    ensures ChooserTimeoutMessage != ElementMissingMessage(index)
    ensures ChooserTimeoutMessage != NotAbsoluteMessage(path)
    ensures ChooserTimeoutMessage != NotFoundMessage(path)
    ensures ElementMissingMessage(index) != UploadErrorMessage(text)
  {
    assert ChooserTimeoutMessage[0] == 'U';
    assert UploadErrorMessage(text)[0] == 'A';
    assert ElementMissingMessage(index)[0] == 'C';
    assert NotAbsoluteMessage(path)[0] == 'F';
    assert NotFoundMessage(path)[0] == 'F';
  }

  /**
   * The chooser-timeout error comes back exactly when the path checks pass
   * and the first step to raise raised an asyncio timeout.
   */
  lemma ChooserTimeoutClassified(index: int, path: string, host: Host, s: UploadSteps)
    ensures ClickAndUpload(index, path, host, s).result == Failure(ChooserTimeoutMessage) <==>
      host.isAbs(path) && path in host.existing &&
      FirstFailure(UploadSchedule(s)).Some? && FirstFailure(UploadSchedule(s)).value.kind == AsyncTimeout
  {
    UploadMessagesDistinct(index, path, if FirstFailure(UploadSchedule(s)).Some? then FirstFailure(UploadSchedule(s)).value.text else "");
    if host.isAbs(path) && path in host.existing {
      ClickAndUploadFirstFailure(index, path, host, s);
    }
  }

  function DownloadedMessage(filename: string, absolutePath: string): string {
    "Successfully downloaded '" + filename + "' to: " + absolutePath
  }

  function SavedToMemory(absolutePath: string): string {
    "The file was saved to the absolute path: " + absolutePath
  }

  const DownloadTimeoutMessage := "Download failed. " + "No download was initiated within 15 seconds."

  function DownloadErrorMessage(text: string): string {
    "An unexpected error occurred during download: " + text
  }

  /** The steps download_file awaits, each with the outcome the browser gives it. */
  datatype DownloadSteps = DownloadSteps(
    page: Step<()>,             // the active page, line 90
    openDownload: Step<()>,     // entering expect_download(timeout=15000), line 91
    download: Step<string>,     // awaiting download_info.value, line 92: its suggested filename
    closeDownload: Step<()>,    // leaving the `async with` block
    savedPath: Step<string>)    // download.path() and resolve(), lines 93-94: the absolute path

  predicate DownloadStepsSucceed(s: DownloadSteps) {
    s.page.Done? && s.openDownload.Done? && s.download.Done? && s.closeDownload.Done? && s.savedPath.Done?
  }

  /** The `try` body of download_file, lines 90-100. */
  function DownloadTry(s: DownloadSteps): (run: Run)
    ensures run.exit.Returned? <==> DownloadStepsSucceed(s)
    ensures run.exit.Returned? ==> run.exit.result.IsContent()
    ensures |run.calls| >= 1 && run.calls[0] == ActivePage
  {
    var entered := [ActivePage, ExpectDownload(DownloadTimeoutMs)];
    if s.page.Raised? then Run(Threw(s.page.exc), [ActivePage])
    else if s.openDownload.Raised? then Run(Threw(s.openDownload.exc), entered)
    else if s.download.Raised? then
      Run(Threw(s.download.exc), entered + [AwaitDownload, LeaveDownloadBlock])
    else
      var left := entered + [AwaitDownload, LeaveDownloadBlock];
      if s.closeDownload.Raised? then Run(Threw(s.closeDownload.exc), left)
      else if s.savedPath.Raised? then Run(Threw(s.savedPath.exc), left + [DownloadPath])
      else
        var absolutePath := s.savedPath.value;
        Run(Returned(Content(DownloadedMessage(s.download.value, absolutePath), SavedToMemory(absolutePath))),
            left + [DownloadPath])
  }

  /** The `except` clauses of download_file, lines 101-104. */
  function DownloadHandlers(exit: Exit): ActionResult {
    match exit
    case Returned(r) => r
    case Threw(Exception(AsyncTimeout, _)) => Failure(DownloadTimeoutMessage)
    case Threw(Exception(OtherException, text)) => Failure(DownloadErrorMessage(text))
  }

  /**
   * download_file: success exactly when every step completes, reporting the
   * suggested filename and the absolute path; an asyncio timeout from any step
   * gives the fixed 15-second message and any other exception the generic one.
   */
  function DownloadFile(s: DownloadSteps): (o: Outcome)
    ensures o.result.ExactlyOneKind()
    ensures o.result.IsContent() <==> DownloadStepsSucceed(s)
    ensures o.result.IsContent() ==>
      o.result == Content(DownloadedMessage(s.download.value, s.savedPath.value), SavedToMemory(s.savedPath.value))
    ensures |o.calls| >= 1 && o.calls[0] == ActivePage
    ensures s.page.Done? ==> |o.calls| >= 2 && o.calls[1] == ExpectDownload(15000)
  {
    var run := DownloadTry(s);
    Outcome(DownloadHandlers(run.exit), run.calls)
  }

  function DownloadSchedule(s: DownloadSteps): seq<Option<Exception>> {
    [Failed(s.page), Failed(s.openDownload), Failed(s.download), Failed(s.closeDownload), Failed(s.savedPath)]
  }

  /**
   * Reference form of download_file's order: the first step that raises
   * decides the error, by the kind of exception alone, so an asyncio timeout
   * in any step reads as "no download was initiated".
   */
  predicate DownloadByFirstFailure(s: DownloadSteps, r: ActionResult)
  {
    match FirstFailure(DownloadSchedule(s))
    case Some(Exception(AsyncTimeout, _)) => r == Failure(DownloadTimeoutMessage)
    case Some(Exception(OtherException, text)) => r == Failure(DownloadErrorMessage(text))
    case None => r.IsContent()
  }

  /** A failure up to the download itself decides the result. */
  lemma DownloadEarlyFailure(s: DownloadSteps)
    requires s.page.Raised? || s.openDownload.Raised? || s.download.Raised?
    ensures DownloadByFirstFailure(s, DownloadFile(s).result)
  {
    var sched := DownloadSchedule(s);
    if s.page.Raised? { FirstFailureAt(sched, 0); }
    else if s.openDownload.Raised? { FirstFailureAt(sched, 1); }
    else { FirstFailureAt(sched, 2); }
  }

  /** After the download arrived, leaving the block or resolving its path can raise. */
  lemma DownloadLateFailure(s: DownloadSteps)
    requires s.page.Done? && s.openDownload.Done? && s.download.Done?
    ensures DownloadByFirstFailure(s, DownloadFile(s).result)
  {
    var sched := DownloadSchedule(s);
    if s.closeDownload.Raised? { FirstFailureAt(sched, 3); }
    else if s.savedPath.Raised? { FirstFailureAt(sched, 4); }
  }

  lemma DownloadFirstFailure(s: DownloadSteps)
    ensures DownloadByFirstFailure(s, DownloadFile(s).result)
  {
    if s.page.Raised? || s.openDownload.Raised? || s.download.Raised? {
      DownloadEarlyFailure(s);
    } else {
      DownloadLateFailure(s);
    }
  }

  const FetchFailedMessage := "Failed to fetch file content " + "from the browser."

  function SavedMessage(filename: string, absolutePath: string): string {
    "Successfully saved displayed file '" + filename + "' to: " + absolutePath
  }

  function SaveErrorMessage(text: string): string {
    "An error occurred while saving the displayed file: " + text
  }

  /** The steps save_displayed_file awaits, each with its outcome. */
  datatype SaveSteps = SaveSteps(
    page: Step<string>,      // the active page and its URL, lines 113-114
    fetch: Step<string>,     // the in-page fetch, lines 117-127: base64 text, "" when nothing came back
    decode: Step<()>,        // base64.b64decode, line 133
    write: Step<()>,         // opening and writing the file, lines 138-139
    resolve: Step<string>)   // save_path.resolve(), line 141: the absolute path

  predicate SaveStepsSucceed(s: SaveSteps) {
    s.page.Done? && s.fetch.Done? && s.fetch.value != "" && s.decode.Done? && s.write.Done? && s.resolve.Done?
  }

  /** The `try` body of save_displayed_file, lines 113-148. */
  function SaveTry(filename: string, downloadsDir: string, s: SaveSteps): (run: Run)
    ensures s.page.Done? ==> |run.calls| >= 2 && run.calls[..2] == [ActivePage, EvaluateFetch(s.page.value)]
    ensures forall c :: c in run.calls && c.WriteFile? ==>
      c == WriteFile(downloadsDir, filename) && s.fetch.Done? && s.fetch.value != "" && s.decode.Done?
    ensures s.page.Done? && s.fetch == Done("") ==> run.exit == Returned(Failure(FetchFailedMessage))
    ensures run.exit.Returned? ==>
      run.exit.result == Failure(FetchFailedMessage) ||
      (SaveStepsSucceed(s) &&
       run.exit.result == Content(SavedMessage(filename, s.resolve.value), SavedToMemory(s.resolve.value)))
    ensures SaveStepsSucceed(s) ==> run.exit.Returned? && WriteFile(downloadsDir, filename) in run.calls
  {
    if s.page.Raised? then Run(Threw(s.page.exc), [ActivePage])
    else
      var fetched := [ActivePage, EvaluateFetch(s.page.value)];
      if s.fetch.Raised? then Run(Threw(s.fetch.exc), fetched)
      else if s.fetch.value == "" then Run(Returned(Failure(FetchFailedMessage)), fetched)
      else if s.decode.Raised? then Run(Threw(s.decode.exc), fetched + [DecodeBase64])
      else
        var written := fetched + [DecodeBase64, WriteFile(downloadsDir, filename)];
        if s.write.Raised? then Run(Threw(s.write.exc), written)
        else if s.resolve.Raised? then Run(Threw(s.resolve.exc), written + [ResolvePath])
        else
          var absolutePath := s.resolve.value;
          Run(Returned(Content(SavedMessage(filename, absolutePath), SavedToMemory(absolutePath))),
              written + [ResolvePath])
  }

  /** The single `except Exception` clause of save_displayed_file, lines 149-152. */
  function SaveHandlers(exit: Exit): ActionResult {
    match exit
    case Returned(r) => r
    case Threw(e) => Failure(SaveErrorMessage(e.text))
  }

  /**
   * save_displayed_file: it fetches the page's own URL; empty content is an
   * error and nothing is written; a file is only written after content was
   * fetched and decoded, always by opening `downloadsDir / filename`; success
   * exactly when every step completes.
   */
  function SaveDisplayedFile(filename: string, downloadsDir: string, s: SaveSteps): (o: Outcome)
    ensures o.result.ExactlyOneKind()
    ensures s.page.Done? ==> |o.calls| >= 2 && o.calls[..2] == [ActivePage, EvaluateFetch(s.page.value)]
    ensures s.page.Done? && s.fetch == Done("") ==>
      o.result == Failure(FetchFailedMessage) && forall c :: c in o.calls ==> !c.WriteFile?
    ensures forall c :: c in o.calls && c.WriteFile? ==>
      c == WriteFile(downloadsDir, filename) && s.fetch.Done? && s.fetch.value != "" && s.decode.Done?
    ensures o.result.IsContent() <==> SaveStepsSucceed(s)
    ensures o.result.IsContent() ==>
      o.result == Content(SavedMessage(filename, s.resolve.value), SavedToMemory(s.resolve.value)) &&
      WriteFile(downloadsDir, filename) in o.calls
    ensures o.result.IsError() && o.result != Failure(FetchFailedMessage) ==>
      exists e :: o.result == Failure(SaveErrorMessage(e))
  {
    var run := SaveTry(filename, downloadsDir, s);
    Outcome(SaveHandlers(run.exit), run.calls)
  }

  function SaveSchedule(s: SaveSteps): seq<Option<Exception>> {
    var fetched := s.fetch.Done? && s.fetch.value != "";
    [Failed(s.page), Failed(s.fetch)] +
    (if fetched then [Failed(s.decode), Failed(s.write), Failed(s.resolve)] else [])
  }

  /**
   * Reference form of save_displayed_file's order: the first step that raises
   * gives the generic error with its text; with none raising, empty content
   * gives the fetch error and anything else success.
   */
  predicate SaveByFirstFailure(s: SaveSteps, r: ActionResult)
  {
    match FirstFailure(SaveSchedule(s))
    case Some(e) => r == Failure(SaveErrorMessage(e.text))
    case None => if s.fetch == Done("") then r == Failure(FetchFailedMessage) else r.IsContent()
  }

  /** Up to the fetch, a raise or an empty result decides. */
  lemma SaveBeforeContent(filename: string, downloadsDir: string, s: SaveSteps)
    requires s.page.Raised? || s.fetch.Raised? || s.fetch == Done("")
    ensures SaveByFirstFailure(s, SaveDisplayedFile(filename, downloadsDir, s).result)
  {
    var sched := SaveSchedule(s);
    if s.page.Raised? { FirstFailureAt(sched, 0); }
    else if s.fetch.Raised? { FirstFailureAt(sched, 1); }
    else { assert sched == [None, None]; }
  }

  /** With content fetched, decoding, writing and resolving can raise, in that order. */
  lemma SaveWithContent(filename: string, downloadsDir: string, s: SaveSteps)
    requires s.page.Done? && s.fetch.Done? && s.fetch.value != ""
    ensures SaveByFirstFailure(s, SaveDisplayedFile(filename, downloadsDir, s).result)
  {
    var sched := SaveSchedule(s);
    assert sched == [None, None, Failed(s.decode), Failed(s.write), Failed(s.resolve)];
    if s.decode.Raised? { FirstFailureAt(sched, 2); }
    else if s.write.Raised? { FirstFailureAt(sched, 3); }
    else if s.resolve.Raised? { FirstFailureAt(sched, 4); }
  }

  lemma SaveFirstFailure(filename: string, downloadsDir: string, s: SaveSteps)
    ensures SaveByFirstFailure(s, SaveDisplayedFile(filename, downloadsDir, s).result)
  {
    if s.page.Raised? || s.fetch.Raised? || s.fetch == Done("") {
      SaveBeforeContent(filename, downloadsDir, s);
    } else {
      SaveWithContent(filename, downloadsDir, s);
    }
  }
}
