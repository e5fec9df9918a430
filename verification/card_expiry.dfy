/**
  The card form's expiry-date entry points: the Objective-C setter that builds an
  optional (month, year) pair from two plain integers, and the Swift setter that
  writes the expiry text field as `MM/Y` or `MM/YY`.
 */
module CardExpiry {
  import opened Wrappers

  /** Swift's `Int` on the 64-bit platforms the SDK targets. */
  type Int64 = x: int | -0x8000_0000_0000_0000 <= x < 0x8000_0000_0000_0000

  /** Foundation's `NSNotFound`, which is `Int.max` on 64-bit platforms. */
  const NSNotFound: int := 0x7FFF_FFFF_FFFF_FFFF

  /** A `ClosedRange<Int>` such as `Calendar.validExpirationMonthRange`; `~=` is containment. */
  datatype MonthRange = MonthRange(lower: int, upper: int) {
    predicate Contains(month: int) {
      lower <= month <= upper
    }
  }

  /** The range the calendar extension supplies for the Gregorian calendar. */
  const GregorianMonths := MonthRange(1, 12)

  datatype Expiration = Expiration(month: int, year: int)

  /** The text fields the two setters write. */
  datatype CardTexts = CardTexts(number: Option<string>, name: Option<string>, expiry: Option<string>)

  /** The month and year the Objective-C setter passes on: both must be usable, and a
      year equal to `NSNotFound` (the Objective-C "no value") counts as missing. */
  function ObjcExpiration(month: Int64, year: Int64, validMonths: MonthRange): (r: Option<Expiration>)
    ensures r.Some? <==> validMonths.Contains(month) && 0 < year < NSNotFound
    ensures r.Some? ==> r.value.month == month && r.value.year == year
  {
    var m: Option<int> := if validMonths.Contains(month) then Some(month) else None;
    var y: Option<int> := if year > 0 && year != NSNotFound then Some(year) else None;
    if m.Some? && y.Some? then Some(Expiration(m.value, y.value)) else None
  }

  predicate IsDigit(c: char) {
    '0' <= c <= '9'
  }

  predicate IsDigits(s: string) {
    forall i :: 0 <= i < |s| ==> IsDigit(s[i])
  }

  function DigitChar(d: int): (c: char)
    requires 0 <= d < 10
    ensures IsDigit(c) && c as int - '0' as int == d
  {
    ('0' as int + d) as char
  }

  /** `%d` for a non-negative integer: decimal digits without padding. */
  function Decimal(n: nat): (s: string)
    ensures 1 <= |s| && IsDigits(s)
    ensures |s| == 1 <==> n < 10
    ensures n > 0 ==> s[0] != '0'
  {
    if n < 10 then [DigitChar(n)] else Decimal(n / 10) + [DigitChar(n % 10)]
  }

  /** `%02d` for a non-negative integer: at least two digits, padded with a leading zero. */
  function ZeroPadded2(n: nat): (s: string)
    ensures 2 <= |s| && IsDigits(s)
    ensures n < 100 ==> |s| == 2
    ensures n < 10 ==> s[0] == '0'
    ensures n >= 10 ==> s == Decimal(n)
  {
    if n < 10 then ['0', DigitChar(n)] else Decimal(n)
  }

  /** The value a string of decimal digits denotes. */
  function DigitsValue(s: string): nat
    requires IsDigits(s)
  {
    if |s| == 0 then 0 else DigitsValue(s[..|s| - 1]) * 10 + (s[|s| - 1] as int - '0' as int)
  }

  /** Reads back text of the shape `MM/Y...`: two month digits, a slash, and at least
      one year digit. This is the inverse the expiry text is checked against. */
  function ParseExpiryText(text: string): Option<(int, int)>
  {
    if |text| >= 4 && text[2] == '/' && IsDigits(text[..2]) && IsDigits(text[3..])
    then Some((DigitsValue(text[..2]), DigitsValue(text[3..])))
    else None
  }

  /** `String(format: "%02d/%d", month, year % 100)`. */
  function FormatExpiry(month: int, year: int): string
    requires 1 <= month <= 12 && year > 0
  {
    ZeroPadded2(month) + "/" + Decimal(year % 100)
  }

  /** Whether the Swift setter writes the expiry field: an expiration is given, its
      month is in 1...12 and its year is positive. */
  predicate WritesExpiry(expiration: Option<Expiration>) {
    expiration.Some? && 1 <= expiration.value.month <= 12 && expiration.value.year > 0
  }

  /** `setCreditCardInformationWith(number:name:expiration:)`: number and name are
      always replaced; the expiry text only when the expiration is usable. */
  function SetCreditCardInformation(form: CardTexts, number: Option<string>, name: Option<string>,
                                    expiration: Option<Expiration>): (r: CardTexts)
    ensures r.number == number && r.name == name
    ensures WritesExpiry(expiration) ==>
              r.expiry.Some? && ParseExpiryText(r.expiry.value) == Some((expiration.value.month, expiration.value.year % 100))
    ensures WritesExpiry(expiration) ==>
              |r.expiry.value| == (if expiration.value.year % 100 < 10 then 4 else 5)
    ensures !WritesExpiry(expiration) ==> r.expiry == form.expiry
  {
    if WritesExpiry(expiration) then
      var e := expiration.value;
      FormatExpiryRoundTrip(e.month, e.year);
      form.(number := number, name := name, expiry := Some(FormatExpiry(e.month, e.year)))
    else
      form.(number := number, name := name)
  }

  /** `__setCreditCardInformation(number:name:expirationMonth:expirationYear:)`: the
      expiry text is written only when the calendar's month range, the Swift setter's
      own 1...12 check and the year checks all pass. */
  function SetCreditCardInformationObjc(form: CardTexts, number: string, name: string,
                                        month: Int64, year: Int64, validMonths: MonthRange): (r: CardTexts)
    ensures r.number == Some(number) && r.name == Some(name)
    ensures validMonths.Contains(month) && 1 <= month <= 12 && 0 < year < NSNotFound ==>
              r.expiry.Some? && ParseExpiryText(r.expiry.value) == Some((month, year % 100)) &&
              |r.expiry.value| == (if year % 100 < 10 then 4 else 5)
    ensures !(validMonths.Contains(month) && 1 <= month <= 12 && 0 < year < NSNotFound) ==> r.expiry == form.expiry
  {
    SetCreditCardInformation(form, Some(number), Some(name), ObjcExpiration(month, year, validMonths))
  }

  /** `%d` denotes its argument. */
  lemma {:induction false} DecimalRoundTrip(n: nat)
    ensures DigitsValue(Decimal(n)) == n
  {
    if n >= 10 {
      var s := Decimal(n);
      assert s[..|s| - 1] == Decimal(n / 10);
      DecimalRoundTrip(n / 10);
    }
  }

  /** `%02d` denotes its argument. */
  lemma ZeroPadded2RoundTrip(n: nat)
    ensures DigitsValue(ZeroPadded2(n)) == n
  {
    if n < 10 {
      var s := ZeroPadded2(n);
      assert s[..1] == "0";
      assert DigitsValue(s[..1]) == 0;
    } else {
      DecimalRoundTrip(n);
    }
  }

  /** The written expiry text reads back as the month and the last two digits of the
      year; the year part has one digit exactly when `year % 100 < 10`. */
  lemma FormatExpiryRoundTrip(month: int, year: int)
    requires 1 <= month <= 12 && year > 0
    ensures ParseExpiryText(FormatExpiry(month, year)) == Some((month, year % 100))
    ensures |FormatExpiry(month, year)| == 4 <==> year % 100 < 10
    ensures |FormatExpiry(month, year)| == 4 || |FormatExpiry(month, year)| == 5
  {
    var mm := ZeroPadded2(month);
    var yy := Decimal(year % 100);
    var text := FormatExpiry(month, year);
    assert text[..2] == mm;
    assert text[3..] == yy;
    ZeroPadded2RoundTrip(month);
    DecimalRoundTrip(year % 100);
  }

  /** With the Gregorian month range, the Objective-C setter writes the expiry text
      exactly when the month is in 1...12 and the year is positive and not `NSNotFound`;
      otherwise the existing text is kept. */
  lemma ObjcSetterWritesIffUsable(form: CardTexts, number: string, name: string, month: Int64, year: Int64)
    ensures var r := SetCreditCardInformationObjc(form, number, name, month, year, GregorianMonths);
            && r.number == Some(number) && r.name == Some(name)
            && (1 <= month <= 12 && 0 < year && year != NSNotFound ==>
                  r.expiry.Some? && ParseExpiryText(r.expiry.value) == Some((month, year % 100)))
            && (!(1 <= month <= 12 && 0 < year && year != NSNotFound) ==> r.expiry == form.expiry)
  {
  }

  /** Whatever range the calendar supplies, the Swift setter's own 1...12 check still
      keeps an out-of-range month from reaching the text field. */
  lemma ObjcSetterNeverWritesInvalidMonth(form: CardTexts, number: string, name: string,
                                          month: Int64, year: Int64, validMonths: MonthRange)
    requires SetCreditCardInformationObjc(form, number, name, month, year, validMonths).expiry != form.expiry
    ensures 1 <= month <= 12 && 0 < year < NSNotFound && validMonths.Contains(month)
  {
  }

  /** A year whose last two digits are below 10 is written with a single digit:
      2005 becomes `01/5`, not `01/05`. */
  lemma SingleDigitYearExample()
    ensures FormatExpiry(1, 2005) == "01/5"
  {
  }
}
