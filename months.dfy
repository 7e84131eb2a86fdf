/** Month tokens of the form "MM/YYYY": how the ledger writes the month it is
    showing, how it reads the installment bounds a user typed, and the
    inclusive range test between them (`mes_en_rango`). */
module Months {
  import opened Wrappers
  import opened Text

  /** A calendar month; `datetime.strptime(s, "%m/%Y")` yields day 1 of it at
      midnight, so comparing two parsed tokens compares these pairs. */
  datatype YearMonth = YearMonth(year: int, month: int)

  /** The months `datetime` can represent (MINYEAR 1 to MAXYEAR 9999). */
  predicate ValidMonth(ym: YearMonth) {
    1 <= ym.year <= 9999 && 1 <= ym.month <= 12
  }

  /** Months numbered consecutively, so that the month after `ym` is
      `MonthIndex(ym) + 1`. */
  function MonthIndex(ym: YearMonth): int {
    ym.year * 12 + (ym.month - 1)
  }

  /** Chronological order on months: year first, then month within the year.
      This is how two parsed `datetime` values on day 1 compare. */
  predicate MonthLe(a: YearMonth, b: YearMonth) {
    a.year < b.year || (a.year == b.year && a.month <= b.month)
  }

  /** The year-then-month order is the order of the consecutive numbering. */
  lemma MonthLeByIndex(a: YearMonth, b: YearMonth)
    requires 1 <= a.month <= 12 && 1 <= b.month <= 12
    ensures MonthLe(a, b) <==> MonthIndex(a) <= MonthIndex(b)
  {
  }

  // ---------------------------------------------------------------------------
  // Parsing: datetime.strptime(s, "%m/%Y")
  // ---------------------------------------------------------------------------

  /** The `%m` directive, whose pattern is `1[0-2]|0[1-9]|[1-9]`: one digit
      1-9, or two digits 01-12. */
  function ParseMonthField(s: string): (r: Option<int>)
    ensures r.Some? ==> 1 <= r.value <= 12
    ensures r.Some? ==> (|s| == 1 && r.value <= 9) || |s| == 2
  {
    if |s| == 1 && '1' <= s[0] <= '9' then Some(DigitValue(s[0]))
    else if |s| == 2 && s[0] == '1' && '0' <= s[1] <= '2' then Some(10 + DigitValue(s[1]))
    else if |s| == 2 && s[0] == '0' && '1' <= s[1] <= '9' then Some(DigitValue(s[1]))
    else None
  }

  function FourDigitValue(s: string): (n: nat)
    requires |s| == 4 && forall i :: 0 <= i < 4 ==> IsDigit(s[i])
    ensures n <= 9999
  {
    1000 * DigitValue(s[0]) + 100 * DigitValue(s[1]) + 10 * DigitValue(s[2]) + DigitValue(s[3])
  }

  /** The `%Y` directive, whose pattern is exactly four digits; year 0 then
      makes the `datetime` constructor raise, so it is refused too. */
  function ParseYearField(s: string): (r: Option<int>)
    ensures r.Some? ==> 1 <= r.value <= 9999 && |s| == 4
  {
    if |s| == 4 && (forall i :: 0 <= i < 4 ==> IsDigit(s[i])) && FourDigitValue(s) != 0
    then Some(FourDigitValue(s))
    else None
  }

  /** `datetime.strptime(s, "%m/%Y")` as a total function: None where it
      raises. The whole string must match: a month field, a slash, a year
      field and nothing else. */
  function ParseMonth(s: string): (r: Option<YearMonth>)
    ensures r.Some? ==> ValidMonth(r.value)
  {
    var k := if |s| == 6 && s[1] == '/' then 1
             else if |s| == 7 && s[2] == '/' then 2
             else 0;
    if k == 0 then None
    else
      var m := ParseMonthField(s[..k]);
      var y := ParseYearField(s[k + 1..]);
      if m.Some? && y.Some? then Some(YearMonth(y.value, m.value)) else None
  }

  // ---------------------------------------------------------------------------
  // Formatting: strftime("%m/%Y")
  // ---------------------------------------------------------------------------

  function FourDigits(y: int): (s: string)
    requires 0 <= y <= 9999
    ensures |s| == 4 && forall i :: 0 <= i < 4 ==> IsDigit(s[i])
  {
    [DigitChar(y / 1000), DigitChar(y / 100 % 10), DigitChar(y / 10 % 10), DigitChar(y % 10)]
  }

  /** `strftime("%m/%Y")`: the month zero-padded to two digits, a slash, the
      year zero-padded to four digits. */
  function FormatMonth(ym: YearMonth): (s: string)
    requires ValidMonth(ym)
    ensures |s| == 7 && s[2] == '/'
    ensures forall i :: 0 <= i < 7 && i != 2 ==> IsDigit(s[i])
  {
    [DigitChar(ym.month / 10), DigitChar(ym.month % 10), '/'] + FourDigits(ym.year)
  }

  /** The other spelling `%m` accepts for months 1 to 9: one digit, unpadded. */
  function FormatMonthShort(ym: YearMonth): (s: string)
    requires ValidMonth(ym) && ym.month <= 9
    ensures |s| == 6 && s[1] == '/'
  {
    [DigitChar(ym.month), '/'] + FourDigits(ym.year)
  }

  lemma {:induction false} FourDigitsRoundTrip(y: int)
    requires 0 <= y <= 9999
    ensures FourDigitValue(FourDigits(y)) == y
  {
    var s := FourDigits(y);
    assert DigitValue(s[0]) == y / 1000;
    assert DigitValue(s[1]) == y / 100 % 10;
    assert DigitValue(s[2]) == y / 10 % 10;
    assert DigitValue(s[3]) == y % 10;
    var q := y / 10;
    assert y == 10 * q + y % 10;
    var p := q / 10;
    assert q == 10 * p + q % 10 && q % 10 == y / 10 % 10;
    assert p == y / 100;
    assert p == 10 * (p / 10) + p % 10 && p / 10 == y / 1000;
  }

  lemma {:induction false} FourDigitsOfValue(s: string)
    requires |s| == 4 && forall i :: 0 <= i < 4 ==> IsDigit(s[i])
    ensures FourDigits(FourDigitValue(s)) == s
  {
    var a, b, c, d := DigitValue(s[0]), DigitValue(s[1]), DigitValue(s[2]), DigitValue(s[3]);
    var y := FourDigitValue(s);
    assert y == 1000 * a + 100 * b + 10 * c + d;
    assert y / 1000 == a;
    assert y / 100 == 10 * a + b;
    assert y / 100 % 10 == b;
    assert y / 10 == 100 * a + 10 * b + c;
    assert y / 10 % 10 == c;
    assert y % 10 == d;
    var t := FourDigits(y);
    assert forall i :: 0 <= i < 4 ==> t[i] == s[i];
  }

  /** Reading back what the ledger writes gives the same month, and so does
      the unpadded spelling of months 1 to 9. */
  lemma {:induction false} ParseFormatRoundTrip(ym: YearMonth)
    requires ValidMonth(ym)
    ensures ParseMonth(FormatMonth(ym)) == Some(ym)
    ensures ym.month <= 9 ==> ParseMonth(FormatMonthShort(ym)) == Some(ym)
  {
    var s := FormatMonth(ym);
    FourDigitsRoundTrip(ym.year);
    assert s[3..] == FourDigits(ym.year);
    assert s[..2] == [DigitChar(ym.month / 10), DigitChar(ym.month % 10)];
    if ym.month <= 9 {
      var t := FormatMonthShort(ym);
      assert t[2..] == FourDigits(ym.year);
      assert t[..1] == [DigitChar(ym.month)];
    }
  }

  /** The two spellings are the only strings that parse: a token that parses
      to a month is its padded or (for months 1 to 9) its unpadded form. */
  lemma {:induction false} ParsedIsFormatted(s: string)
    requires ParseMonth(s).Some?
    ensures var ym := ParseMonth(s).value;
      s == FormatMonth(ym) || (ym.month <= 9 && s == FormatMonthShort(ym))
  {
    var ym := ParseMonth(s).value;
    var k := if |s| == 6 && s[1] == '/' then 1 else 2;
    var yf := s[k + 1..];
    assert ParseYearField(yf) == Some(ym.year);
    FourDigitsOfValue(yf);
    assert s == s[..k] + ['/'] + yf;
    if k == 1 {
      assert s[..k] == [DigitChar(ym.month)];
      assert s == FormatMonthShort(ym);
    } else {
      assert s[..k] == [DigitChar(ym.month / 10), DigitChar(ym.month % 10)];
      assert s == FormatMonth(ym);
    }
  }

  // ---------------------------------------------------------------------------
  // mes_en_rango
  // ---------------------------------------------------------------------------

  /** `mes_en_rango(mes_actual, mes_desde, mes_hasta)`: parse the three tokens
      and test `desde <= actual <= hasta`. A missing bound (a NULL column,
      on which strptime raises TypeError) or a token that does not parse
      makes the exception handler answer false. */
  function MonthInRange(actual: string, desde: Option<string>, hasta: Option<string>): (r: bool)
    ensures r ==> desde.Some? && hasta.Some?
    ensures r ==> ParseMonth(actual).Some?
  {
    var a := ParseMonth(actual);
    if a.None? || desde.None? || hasta.None? then false
    else
      var d := ParseMonth(desde.value);
      var h := ParseMonth(hasta.value);
      d.Some? && h.Some? && MonthLe(d.value, a.value) && MonthLe(a.value, h.value)
  }

  /** Inclusive at both ends: for tokens that parse, a month is in range
      exactly when its number lies between the numbers of the two bounds. */
  lemma MonthInRangeIff(actual: string, desde: string, hasta: string, a: YearMonth, d: YearMonth, h: YearMonth)
    requires ParseMonth(actual) == Some(a) && ParseMonth(desde) == Some(d) && ParseMonth(hasta) == Some(h)
    ensures MonthInRange(actual, Some(desde), Some(hasta)) <==>
      MonthIndex(d) <= MonthIndex(a) <= MonthIndex(h)
  {
    MonthLeByIndex(d, a);
    MonthLeByIndex(a, h);
  }

  /** The same rule stated on the months themselves, for the padded tokens the
      ledger writes. */
  lemma FormattedInRangeIff(a: YearMonth, d: YearMonth, h: YearMonth)
    requires ValidMonth(a) && ValidMonth(d) && ValidMonth(h)
    ensures MonthInRange(FormatMonth(a), Some(FormatMonth(d)), Some(FormatMonth(h))) <==>
      MonthLe(d, a) && MonthLe(a, h)
  {
    ParseFormatRoundTrip(a);
    ParseFormatRoundTrip(d);
    ParseFormatRoundTrip(h);
  }

  /** Any token that does not parse, in any of the three positions, gives false. */
  lemma MalformedNeverInRange(actual: string, desde: Option<string>, hasta: Option<string>)
    requires ParseMonth(actual).None?
      || (desde.Some? && ParseMonth(desde.value).None?)
      || (hasta.Some? && ParseMonth(hasta.value).None?)
    ensures !MonthInRange(actual, desde, hasta)
  {
  }

  /** Bounds given in the wrong order describe an empty range. */
  lemma {:induction false} ReversedBoundsNeverInRange(actual: string, desde: string, hasta: string)
    requires ParseMonth(desde).Some? && ParseMonth(hasta).Some?
    requires MonthIndex(ParseMonth(hasta).value) < MonthIndex(ParseMonth(desde).value)
    ensures !MonthInRange(actual, Some(desde), Some(hasta))
  {
    var a := ParseMonth(actual);
    if a.Some? {
      MonthInRangeIff(actual, desde, hasta, a.value, ParseMonth(desde).value, ParseMonth(hasta).value);
    }
  }

  /** An installment from "01/2024" to "03/2024" covers January to March 2024
      and not April 2024. */
  lemma FirstQuarterExample()
    ensures MonthInRange("01/2024", Some("01/2024"), Some("03/2024"))
    ensures MonthInRange("02/2024", Some("01/2024"), Some("03/2024"))
    ensures MonthInRange("03/2024", Some("01/2024"), Some("03/2024"))
    ensures !MonthInRange("04/2024", Some("01/2024"), Some("03/2024"))
  {
    assert ParseMonth("01/2024") == Some(YearMonth(2024, 1));
    assert ParseMonth("02/2024") == Some(YearMonth(2024, 2));
    assert ParseMonth("03/2024") == Some(YearMonth(2024, 3));
    assert ParseMonth("04/2024") == Some(YearMonth(2024, 4));
  }

  /** December of the year before is outside the first quarter, and unpadded
      bounds are read like padded ones. */
  lemma QuarterEdgeExamples()
    ensures !MonthInRange("12/2023", Some("01/2024"), Some("03/2024"))
    ensures MonthInRange("2/2024", Some("1/2024"), Some("03/2024"))
  {
    assert ParseMonth("01/2024") == Some(YearMonth(2024, 1));
    assert ParseMonth("03/2024") == Some(YearMonth(2024, 3));
    assert ParseMonth("12/2023") == Some(YearMonth(2023, 12));
    assert ParseMonth("1/2024") == Some(YearMonth(2024, 1));
    assert ParseMonth("2/2024") == Some(YearMonth(2024, 2));
  }
}
