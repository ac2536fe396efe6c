/**
 * The decision core of the serv00 availability monitor: the defensive
 * number parser `clean_number` and the choice, made once per check, between
 * notifying, reporting "Full" and reporting a parse failure.
 *
 * The browser session that reads the counter elements is not modelled; what
 * it yields (an element's text content and attribute, each possibly absent)
 * enters as `Option<string>` values.
 */
module Monitor {

  import opened Wrappers

  /** Fallback limit used when the limit cannot be scraped (or scrapes as 0). */
  const DEFAULT_LIMIT: nat := 170000

  // ---------------------------------------------------------------------------
  // Digits and decimal values
  // ---------------------------------------------------------------------------

  /** An ASCII decimal digit. */
  predicate IsDigit(c: char) {
    '0' <= c <= '9'
  }

  predicate AllDigits(s: string) {
    forall i | 0 <= i < |s| :: IsDigit(s[i])
  }

  predicate HasDigit(s: string) {
    exists i | 0 <= i < |s| :: IsDigit(s[i])
  }

  function DigitValue(c: char): (v: nat)
    requires IsDigit(c)
    ensures v < 10
  {
    (c as int) - ('0' as int)
  }

  function DigitChar(v: nat): (c: char)
    requires v < 10
    ensures IsDigit(c) && DigitValue(c) == v
  {
    (('0' as int) + v) as char
  }

  function Pow10(k: nat): (p: nat)
    ensures p >= 1
  {
    if k == 0 then 1 else 10 * Pow10(k - 1)
  }

  /**
   * The digit characters of `s` in their original order: the effect of
   * deleting every non-digit character.
   */
  function Digits(s: string): (d: string)
    ensures AllDigits(d)
    ensures |d| <= |s|
  {
    if s == [] then []
    else if IsDigit(s[0]) then [s[0]] + Digits(s[1..])
    else Digits(s[1..])
  }

  /** Deleting the non-digits leaves nothing exactly when there was no digit. */
  lemma {:induction false} DigitsEmptyIff(s: string)
    ensures Digits(s) == [] <==> !HasDigit(s)
  {
    if s != [] {
      DigitsEmptyIff(s[1..]);
      if HasDigit(s) && !IsDigit(s[0]) {
        var i :| 0 <= i < |s| && IsDigit(s[i]);
        assert s[1..][i - 1] == s[i];
      }
      if HasDigit(s[1..]) {
        var i :| 0 <= i < |s[1..]| && IsDigit(s[1..][i]);
        assert s[i + 1] == s[1..][i];
      }
    }
  }

  /**
   * The integer a string of decimal digits denotes, read left to right
   * (Horner's rule): each further digit multiplies the value so far by ten.
   */
  function DecimalValue(d: string): (v: nat)
    requires AllDigits(d)
  {
    if d == [] then 0
    else DecimalValue(d[..|d| - 1]) * 10 + DigitValue(d[|d| - 1])
  }

  /**
   * Reference reading of a digit string: the sum over positions of digit
   * times ten to the power of the number of digits to its right.
   */
  function PositionalValue(d: string): (v: nat)
    requires AllDigits(d)
  {
    if d == [] then 0
    else DigitValue(d[0]) * Pow10(|d| - 1) + PositionalValue(d[1..])
  }

  /** The decimal rendering of a natural number, as Python's `str(int)`. */
  function Render(n: nat): (s: string)
    ensures AllDigits(s) && s != []
  {
    if n < 10 then [DigitChar(n)]
    else Render(n / 10) + [DigitChar(n % 10)]
  }

  // ---------------------------------------------------------------------------
  // clean_number
  // ---------------------------------------------------------------------------

  /** Python truthiness of an optional string: neither `None` nor empty. */
  predicate Truthy(text: Option<string>) {
    text.Some? && text.value != []
  }

  /**
   * `clean_number`: `None` for a falsy input; otherwise the integer formed by
   * the input's digit characters, or `None` when it has none.
   */
  function CleanNumber(text: Option<string>): (r: Option<nat>)
    ensures !Truthy(text) ==> r == None
    ensures r.None? <==> text.None? || !HasDigit(text.value)
    ensures r.Some? ==> r.value == PositionalValue(Digits(text.value))
  {
    if !Truthy(text) then None
    else
      var digits := Digits(text.value);
      DigitsEmptyIff(text.value);
      if digits == [] then None
      else
        DecimalValueIsPositional(digits);
        Some(DecimalValue(digits))
  }

  // ---------------------------------------------------------------------------
  // Lemmas about the parser
  // ---------------------------------------------------------------------------

  /** Appending one digit to the right scales the positional value by ten. */
  lemma {:induction false} PositionalAppend(d: string, c: char)
    requires AllDigits(d) && IsDigit(c)
    ensures AllDigits(d + [c])
    ensures PositionalValue(d + [c]) == PositionalValue(d) * 10 + DigitValue(c)
  {
    if d != [] {
      var e := d + [c];
      assert e[0] == d[0] && e[1..] == d[1..] + [c];
      PositionalAppend(d[1..], c);
      var x, p, r := DigitValue(d[0]), Pow10(|d| - 1), PositionalValue(d[1..]);
      assert PositionalValue(d) == x * p + r;
      assert Pow10(|d|) == 10 * p;
      assert PositionalValue(e) == x * Pow10(|d|) + (r * 10 + DigitValue(c));
      ShiftByTen(x, p, r, DigitValue(c));
    }
  }

  lemma ShiftByTen(x: nat, p: nat, r: nat, y: nat)
    ensures x * (10 * p) + (r * 10 + y) == (x * p + r) * 10 + y
  {
  }

  /** The left-to-right reading agrees with the positional reference reading. */
  lemma {:induction false} DecimalValueIsPositional(d: string)
    requires AllDigits(d)
    ensures DecimalValue(d) == PositionalValue(d)
  {
    if d != [] {
      var init := d[..|d| - 1];
      DecimalValueIsPositional(init);
      PositionalAppend(init, d[|d| - 1]);
      assert init + [d[|d| - 1]] == d;
    }
  }

  /** Deleting non-digits distributes over concatenation. */
  lemma {:induction false} DigitsAppend(s: string, t: string)
    ensures Digits(s + t) == Digits(s) + Digits(t)
  {
    if s == [] {
      assert s + t == t;
    } else {
      var st := s + t;
      assert st[0] == s[0];
      assert st[1..] == s[1..] + t;
      DigitsAppend(s[1..], t);
      if IsDigit(s[0]) {
        assert Digits(st) == [s[0]] + Digits(s[1..] + t);
      } else {
        assert Digits(st) == Digits(s[1..] + t);
      }
    }
  }

  /** A string made only of digits is left untouched: no digit is dropped or moved. */
  lemma {:induction false} DigitsOfDigitString(s: string)
    requires AllDigits(s)
    ensures Digits(s) == s
  {
    if s != [] {
      DigitsOfDigitString(s[1..]);
    }
  }

  /** A leading zero does not change the value: `'007'` reads as 7. */
  lemma {:induction false} LeadingZeroVanishes(d: string)
    requires AllDigits(d)
    ensures AllDigits(['0'] + d)
    ensures DecimalValue(['0'] + d) == DecimalValue(d)
  {
    if d != [] {
      var e := ['0'] + d;
      assert e[..|e| - 1] == ['0'] + d[..|d| - 1];
      assert e[|e| - 1] == d[|d| - 1];
      LeadingZeroVanishes(d[..|d| - 1]);
    }
  }

  /** A run of `k` zero characters. */
  function Zeros(k: nat): (z: string)
    ensures |z| == k && AllDigits(z)
  {
    if k == 0 then [] else ['0'] + Zeros(k - 1)
  }

  /** Reading back a rendered number gives the number. */
  lemma {:induction false} DecimalValueOfRender(n: nat)
    ensures DecimalValue(Render(n)) == n
  {
    if n >= 10 {
      var s := Render(n);
      assert s[..|s| - 1] == Render(n / 10);
      assert s[|s| - 1] == DigitChar(n % 10);
      DecimalValueOfRender(n / 10);
    }
  }

  /** A digit string not starting with `'0'` denotes a positive number. */
  lemma {:induction false} LeadingNonZeroIsPositive(d: string)
    requires AllDigits(d) && d != [] && d[0] != '0'
    ensures DecimalValue(d) >= 1
  {
    if |d| > 1 {
      LeadingNonZeroIsPositive(d[..|d| - 1]);
    }
  }

  /**
   * Rendering the value of a digit string without a leading zero gives the
   * string back: apart from leading zeros, the digit string is the number's
   * decimal form.
   */
  lemma {:induction false} RenderOfDecimalValue(d: string)
    requires AllDigits(d) && d != []
    requires d[0] != '0' || |d| == 1
    ensures Render(DecimalValue(d)) == d
  {
    var last := d[|d| - 1];
    if |d| == 1 {
      assert DigitChar(DigitValue(last)) == last;
    } else {
      var init := d[..|d| - 1];
      LeadingNonZeroIsPositive(init);
      RenderOfDecimalValue(init);
      var n := DecimalValue(d);
      assert n / 10 == DecimalValue(init) && n % 10 == DigitValue(last);
      assert DigitChar(DigitValue(last)) == last;
      assert init + [last] == d;
    }
  }

  /** Idempotence through rendering: parsing the printed result gives it back. */
  lemma CleanNumberOfRender(n: nat)
    ensures CleanNumber(Some(Render(n))) == Some(n)
  {
    DigitsOfDigitString(Render(n));
    DecimalValueOfRender(n);
  }

  /** Any number of leading zeros leaves the value unchanged. */
  lemma {:induction false} LeadingZerosVanish(k: nat, d: string)
    requires AllDigits(d)
    ensures AllDigits(Zeros(k) + d)
    ensures DecimalValue(Zeros(k) + d) == DecimalValue(d)
  {
    if k == 0 {
      assert Zeros(k) + d == d;
    } else {
      var rest := Zeros(k - 1) + d;
      LeadingZerosVanish(k - 1, d);
      LeadingZeroVanishes(rest);
      assert Zeros(k) + d == ['0'] + rest;
    }
  }

  /** Leading zeros vanish in the parser: `'007'` and `'7'` parse alike. */
  lemma CleanNumberIgnoresLeadingZeros(k: nat, d: string)
    requires AllDigits(d) && d != []
    ensures CleanNumber(Some(Zeros(k) + d)) == CleanNumber(Some(d))
  {
    LeadingZerosVanish(k, d);
    DigitsOfDigitString(d);
    DigitsOfDigitString(Zeros(k) + d);
  }

  /** A separator between two digit groups is dropped and the groups are joined. */
  lemma {:induction false} SeparatorDropped(a: string, x: char, b: string)
    requires AllDigits(a) && !IsDigit(x) && AllDigits(b)
    ensures Digits(a + [x] + b) == a + b
  {
    assert Digits([x]) == [] by {
      assert [x][0] == x && [x][1..] == [];
    }
    DigitsAppend(a, [x]);
    DigitsOfDigitString(a);
    DigitsAppend(a + [x], b);
    DigitsOfDigitString(b);
  }

  /** The default limit prints as `'170000'`. */
  lemma RenderDefaultLimit()
    ensures Render(170000) == "170000"
  {
  }

  /** A string whose digits are the decimal form of `n` parses as `n`. */
  lemma CleanNumberReadsDigits(s: string, n: nat)
    requires Digits(s) == Render(n)
    ensures CleanNumber(Some(s)) == Some(n)
  {
    DigitsOfDigitString(Render(n));
    OnlyDigitsMatter(s, Render(n));
    CleanNumberOfRender(n);
  }

  /** Only the digit characters matter: strings with the same digits parse alike. */
  lemma OnlyDigitsMatter(s: string, t: string)
    requires Digits(s) == Digits(t)
    ensures CleanNumber(Some(s)) == CleanNumber(Some(t))
  {
  }

  /** `'170,000'` reads as 170000: the thousands separator is dropped. */
  lemma CleanNumberSeparatorExample()
    ensures CleanNumber(Some("170,000")) == Some(170000)
  {
    SeparatorDropped("170", ',', "000");
    assert "170" + [','] + "000" == "170,000";
    assert "170" + "000" == Render(170000) by { RenderDefaultLimit(); }
    CleanNumberReadsDigits("170,000", 170000);
  }

  /** `'-5'` reads as 5: the sign is not a digit. */
  lemma CleanNumberSignExample()
    ensures CleanNumber(Some("-5")) == Some(5)
  {
    assert Digits("-5") == "5";
    assert DecimalValue("5") == 5;
  }

  /** `'007'` reads as 7. */
  lemma CleanNumberLeadingZerosExample()
    ensures CleanNumber(Some("007")) == Some(7)
  {
    assert Digits("007") == "007";
    LeadingZeroVanishes("07");
    LeadingZeroVanishes("7");
    assert ['0'] + "07" == "007" && ['0'] + "7" == "07";
  }

  /** No digits at all, or a falsy input, gives nothing. */
  lemma CleanNumberNoneExamples()
    ensures CleanNumber(Some("n/a")) == None
    ensures CleanNumber(Some("")) == None
    ensures CleanNumber(None) == None
  {
    assert Digits("n/a") == "";
  }

  // ---------------------------------------------------------------------------
  // The decision inside check_serv00
  // ---------------------------------------------------------------------------

  /** Result of one check. */
  datatype Outcome =
    | Notify(current: nat, limit: nat)   // slots available: a notification is sent
    | Full(current: nat, limit: nat)     // counter at or above the limit
    | ParseFailure                       // no number in the current-count source

  /** Python's `a or b` on optional strings: `a` unless it is falsy. */
  function OrElse(a: Option<string>, b: Option<string>): (r: Option<string>) {
    if Truthy(a) then a else b
  }

  /** Raw current count: the element text, or the `data-count` attribute when the text is falsy. */
  function SelectCurrent(text: Option<string>, attr: Option<string>): (raw: Option<string>)
    ensures Truthy(text) ==> raw == text
    ensures !Truthy(text) ==> raw == attr
  {
    OrElse(text, attr)
  }

  /**
   * Raw limit: nothing when no limit element exists; otherwise its text, or
   * its `data-limit` attribute when the text is falsy.
   */
  function SelectLimit(present: bool, text: Option<string>, attr: Option<string>): (raw: Option<string>)
    ensures !present ==> raw == None
    ensures present && Truthy(text) ==> raw == text
    ensures present && !Truthy(text) ==> raw == attr
  {
    if present then OrElse(text, attr) else None
  }

  /** The limit used for the comparison: the parsed limit, or the default when it is missing or 0. */
  function EffectiveLimit(parsed: Option<nat>): (limit: nat)
    ensures limit > 0
    ensures parsed == None || parsed == Some(0) ==> limit == DEFAULT_LIMIT
    ensures parsed.Some? && parsed.value != 0 ==> limit == parsed.value
  {
    if parsed.None? || parsed.value == 0 then DEFAULT_LIMIT else parsed.value
  }

  /** The decision of one check, from the raw strings the page yields. */
  function Decide(currentText: Option<string>, currentAttr: Option<string>,
                  limitPresent: bool, limitText: Option<string>, limitAttr: Option<string>): (r: Outcome)
    ensures r.ParseFailure? <==> CleanNumber(SelectCurrent(currentText, currentAttr)).None?
    ensures r.Notify? ==> r.current < r.limit
    ensures r.Full? ==> r.current >= r.limit
    ensures !r.ParseFailure? ==> r.limit > 0
    ensures !r.ParseFailure? ==> Some(r.current) == CleanNumber(SelectCurrent(currentText, currentAttr))
    ensures !r.ParseFailure? ==> r.limit == EffectiveLimit(CleanNumber(SelectLimit(limitPresent, limitText, limitAttr)))
  {
    var current := CleanNumber(SelectCurrent(currentText, currentAttr));
    var limit := EffectiveLimit(CleanNumber(SelectLimit(limitPresent, limitText, limitAttr)));
    if current.None? then ParseFailure
    else if current.value < limit then Notify(current.value, limit)
    else Full(current.value, limit)
  }

  // ---------------------------------------------------------------------------
  // Lemmas about the decision
  // ---------------------------------------------------------------------------

  /** A notification is sent exactly when the current count parses and is strictly below the limit. */
  lemma NotifyIff(currentText: Option<string>, currentAttr: Option<string>,
                  limitPresent: bool, limitText: Option<string>, limitAttr: Option<string>)
    ensures Decide(currentText, currentAttr, limitPresent, limitText, limitAttr).Notify?
        <==> (var c := CleanNumber(SelectCurrent(currentText, currentAttr));
              c.Some? && c.value < EffectiveLimit(CleanNumber(SelectLimit(limitPresent, limitText, limitAttr))))
  {
  }

  /** Equal counts are "Full": the comparison is strict. */
  lemma EqualCountsAreFull(currentText: Option<string>, limitText: Option<string>, n: nat)
    requires n > 0
    requires CleanNumber(currentText) == Some(n) && CleanNumber(limitText) == Some(n)
    ensures Decide(currentText, None, true, limitText, None) == Full(n, n)
  {
  }

  /** One below the limit notifies. */
  lemma OneBelowLimitNotifies(currentText: Option<string>, limitText: Option<string>, n: nat)
    requires n > 0
    requires CleanNumber(currentText) == Some(n - 1) && CleanNumber(limitText) == Some(n)
    ensures Decide(currentText, None, true, limitText, None) == Notify(n - 1, n)
  {
  }

  /** An unparsed current count is a parse failure whatever the limit inputs. */
  lemma ParseFailureIgnoresLimit(currentText: Option<string>, currentAttr: Option<string>,
                                 p1: bool, t1: Option<string>, a1: Option<string>,
                                 p2: bool, t2: Option<string>, a2: Option<string>)
    requires Decide(currentText, currentAttr, p1, t1, a1) == ParseFailure
    ensures Decide(currentText, currentAttr, p2, t2, a2) == ParseFailure
  {
  }

  /**
   * Current-count source: a truthy element text decides alone (the attribute
   * is never read); a falsy text makes the check behave exactly as if the
   * attribute were the text.
   */
  lemma CurrentSourceRule(currentText: Option<string>, a1: Option<string>, a2: Option<string>,
                          limitPresent: bool, limitText: Option<string>, limitAttr: Option<string>)
    ensures Truthy(currentText) ==>
      Decide(currentText, a1, limitPresent, limitText, limitAttr)
        == Decide(currentText, a2, limitPresent, limitText, limitAttr)
    ensures !Truthy(currentText) ==>
      Decide(currentText, a1, limitPresent, limitText, limitAttr)
        == Decide(a1, None, limitPresent, limitText, limitAttr)
  {
  }

  /**
   * Limit fallback: a missing limit element, or a limit that parses as
   * nothing or as 0, gives the default limit.
   */
  lemma LimitFallback(currentText: Option<string>, currentAttr: Option<string>,
                      limitPresent: bool, limitText: Option<string>, limitAttr: Option<string>)
    requires var l := CleanNumber(SelectLimit(limitPresent, limitText, limitAttr)); l == None || l == Some(0)
    ensures Decide(currentText, currentAttr, limitPresent, limitText, limitAttr)
         == Decide(currentText, currentAttr, false, None, None)
    ensures !Decide(currentText, currentAttr, limitPresent, limitText, limitAttr).ParseFailure? ==>
            Decide(currentText, currentAttr, limitPresent, limitText, limitAttr).limit == DEFAULT_LIMIT
  {
  }

  /** A rendered counter one below the default limit, no limit element: notify. */
  lemma DecideOpenExample()
    ensures Decide(Some("169999"), None, false, None, None) == Notify(169999, 170000)
  {
    assert Render(169999) == "169999";
    CleanNumberOfRender(169999);
  }

  /** A counter equal to the scraped limit: "Full". */
  lemma DecideFullExample()
    ensures Decide(Some("170,000"), None, true, Some("170,000"), None) == Full(170000, 170000)
  {
    CleanNumberSeparatorExample();
  }

  /**
   * Empty text: the `data-count` attribute is read; the empty limit text
   * gives way to a `data-limit` of 0, which falls back to the default.
   */
  lemma DecideAttributeExample()
    ensures Decide(Some(""), Some("12345"), true, Some(""), Some("0")) == Notify(12345, 170000)
  {
    assert Render(12345) == "12345";
    CleanNumberOfRender(12345);
    CleanNumberOfRender(0);
  }

  /** Whitespace text is truthy, so the attribute is never consulted: parse failure. */
  lemma DecideWhitespaceExample()
    ensures Decide(Some(" "), Some("100"), false, None, None) == ParseFailure
  {
    assert Digits(" ") == "";
  }

  // ---------------------------------------------------------------------------
  // Successive checks of the daemon loop
  // ---------------------------------------------------------------------------

  /** What one check reads from the page. */
  datatype Observation = Observation(
    currentText: Option<string>, currentAttr: Option<string>,
    limitPresent: bool, limitText: Option<string>, limitAttr: Option<string>)

  /** One call of `check_serv00` on what the page shows at that moment. */
  function Check(o: Observation): (r: Outcome) {
    Decide(o.currentText, o.currentAttr, o.limitPresent, o.limitText, o.limitAttr)
  }

  /**
   * The outcomes of successive checks. Nothing is carried from one check to
   * the next: the i-th outcome depends on the i-th observation alone.
   */
  function Run(obs: seq<Observation>): (outcomes: seq<Outcome>)
    ensures |outcomes| == |obs|
    ensures forall i | 0 <= i < |obs| :: outcomes[i] == Check(obs[i])
  {
    if obs == [] then [] else [Check(obs[0])] + Run(obs[1..])
  }

  /** A check's outcome does not depend on the checks before it. */
  lemma HistoryIrrelevant(history: seq<Observation>, o: Observation)
    ensures Run(history + [o])[|history|] == Check(o)
  {
    assert (history + [o])[|history|] == o;
  }

  /**
   * No suppression of repeated notifications: two consecutive checks that
   * both see slots available both notify, whatever came before.
   */
  lemma RepeatedOpenNotifies(history: seq<Observation>, o: Observation)
    requires Check(o).Notify?
    ensures Run(history + [o, o])[|history|].Notify?
    ensures Run(history + [o, o])[|history| + 1].Notify?
  {
    var obs := history + [o, o];
    assert obs[|history|] == o && obs[|history| + 1] == o;
  }
}
