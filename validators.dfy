/** The string validators of the input forms (utils.py). Each either refuses the raw text with a
    reason or returns the typed value it denotes. */
module Validators {
  import opened Results
  import opened Text
  import opened Calendar

  // ---------------------------------------------------------------------------------------
  // validate_amount

  /** The regular expression `^\d+(\.\d+)?$`, written around the first '.' of `u`. */
  predicate IsAmountPattern(u: string)
  {
    var k := IndexOf(u, '.');
    if k == |u| then u != [] && AllDigits(u)
    else 0 < k < |u| - 1 && AllDigits(u[..k]) && AllDigits(u[k + 1..])
  }

  /** `float(u)` on a string of that pattern, computed exactly. */
  function ParseAmount(u: string): (x: real)
    requires IsAmountPattern(u)
    ensures x >= 0.0
  {
    var k := IndexOf(u, '.');
    if k == |u| then DigitsValue(u) as real
    else DigitsValue(u[..k]) as real + DigitsValue(u[k + 1..]) as real / Pow10(|u| - k - 1) as real
  }

  /** `validate_amount`: strip, refuse the empty string, read ',' as '.', require the pattern,
      convert, refuse a value that is not above zero. */
  function ValidateAmount(s: string): (r: Result<real>)
    ensures r.Ok? ==> r.value > 0.0
  {
    var t := Strip(s);
    if t == [] then Err(EmptyAmount)
    else
      var u := Replace(t, ',', '.');
      if !IsAmountPattern(u) then Err(BadAmountFormat)
      else
        var amount := ParseAmount(u);
        if amount <= 0.0 then Err(NonPositiveAmount) else Ok(amount)
  }

  predicate IsSeparator(c: char)
  {
    c == '.' || c == ','
  }

  /** The amounts the form is meant to take, stated without reference to the implementation:
      digits, optionally followed by one decimal separator (point or comma) and more digits. */
  ghost predicate IsDecimalLiteral(t: string)
  {
    (t != [] && AllDigits(t))
    || exists k :: 0 < k < |t| - 1 && IsSeparator(t[k]) && AllDigits(t[..k]) && AllDigits(t[k + 1..])
  }

  /** Where `Replace(t, ',', '.')` shows only digits, `t` shows the same digits. */
  lemma DigitsUnchangedByReplace(t: string, i: nat, j: nat)
    requires i <= j <= |t| && AllDigits(Replace(t, ',', '.')[i..j])
    ensures t[i..j] == Replace(t, ',', '.')[i..j]
  {
    var u := Replace(t, ',', '.');
    assert forall n :: 0 <= n < j - i ==> u[i..j][n] == u[i + n] && t[i..j][n] == t[i + n];
  }

  /** After ',' is read as '.', the pattern accepts exactly the decimal literals. */
  lemma AmountPatternIff(t: string)
    ensures IsAmountPattern(Replace(t, ',', '.')) <==> IsDecimalLiteral(t)
  {
    if IsAmountPattern(Replace(t, ',', '.')) {
      PatternIsLiteral(t);
    }
    if IsDecimalLiteral(t) {
      if t != [] && AllDigits(t) {
        DigitsLiteralPattern(t);
      } else {
        var j :| 0 < j < |t| - 1 && IsSeparator(t[j]) && AllDigits(t[..j]) && AllDigits(t[j + 1..]);
        SeparatorLiteralPattern(t, j);
      }
    }
  }

  lemma PatternIsLiteral(t: string)
    requires IsAmountPattern(Replace(t, ',', '.'))
    ensures IsDecimalLiteral(t)
  {
    var u := Replace(t, ',', '.');
    var k := IndexOf(u, '.');
    if k == |u| {
      DigitsUnchangedByReplace(t, 0, |t|);
      assert t[0..|t|] == t && u[0..|u|] == u;
    } else {
      DigitsUnchangedByReplace(t, 0, k);
      DigitsUnchangedByReplace(t, k + 1, |t|);
      assert t[0..k] == t[..k] && u[0..k] == u[..k];
      assert t[k + 1..|t|] == t[k + 1..] && u[k + 1..|u|] == u[k + 1..];
      assert IsSeparator(t[k]);
    }
  }

  lemma DigitsLiteralPattern(t: string)
    requires t != [] && AllDigits(t)
    ensures IsAmountPattern(Replace(t, ',', '.'))
  {
    var u := Replace(t, ',', '.');
    assert forall i :: 0 <= i < |t| ==> u[i] == t[i];
    assert u == t;
  }

  lemma SeparatorLiteralPattern(t: string, j: nat)
    requires 0 < j < |t| - 1 && IsSeparator(t[j]) && AllDigits(t[..j]) && AllDigits(t[j + 1..])
    ensures IsAmountPattern(Replace(t, ',', '.'))
  {
    var u := Replace(t, ',', '.');
    assert u[j] == '.';
    assert forall i :: 0 <= i < j ==> u[i] == t[..j][i];
    assert u[..j] == t[..j];
    assert IndexOf(u, '.') == j;
    assert forall i :: j < i < |t| ==> u[i] == t[j + 1..][i - j - 1];
    assert u[j + 1..] == t[j + 1..];
  }

  lemma HasNonZeroDigitReplace(t: string)
    ensures HasNonZeroDigit(Replace(t, ',', '.')) <==> HasNonZeroDigit(t)
  {
    var u := Replace(t, ',', '.');
    if HasNonZeroDigit(t) {
      var k :| 0 <= k < |t| && '1' <= t[k] <= '9';
      assert u[k] == t[k];
    }
    if HasNonZeroDigit(u) {
      var k :| 0 <= k < |u| && '1' <= u[k] <= '9';
      assert u[k] == t[k];
    }
  }

  lemma HasNonZeroDigitSplit(u: string, k: nat)
    requires k < |u| && u[k] == '.'
    ensures HasNonZeroDigit(u) <==> HasNonZeroDigit(u[..k]) || HasNonZeroDigit(u[k + 1..])
  {
    if HasNonZeroDigit(u) {
      var j :| 0 <= j < |u| && '1' <= u[j] <= '9';
      if j < k {
        assert u[..k][j] == u[j];
      } else {
        assert u[k + 1..][j - k - 1] == u[j];
      }
    }
    if HasNonZeroDigit(u[..k]) {
      var j :| 0 <= j < k && '1' <= u[..k][j] <= '9';
      assert u[j] == u[..k][j];
    }
    if HasNonZeroDigit(u[k + 1..]) {
      var j :| 0 <= j < |u| - k - 1 && '1' <= u[k + 1..][j] <= '9';
      assert u[k + 1 + j] == u[k + 1..][j];
    }
  }

  /** An integer part plus a fraction is positive exactly when one of the two is. */
  lemma FractionPositive(x: nat, y: nat, p: nat)
    requires p >= 1
    ensures x as real + y as real / p as real > 0.0 <==> x > 0 || y > 0
  {
    assert y as real / p as real >= 0.0;
    assert y > 0 ==> y as real / p as real > 0.0;
  }

  /** A literal converts to a positive number exactly when one of its digits is not '0'. */
  lemma ParseAmountPositiveIff(u: string)
    requires IsAmountPattern(u)
    ensures ParseAmount(u) > 0.0 <==> HasNonZeroDigit(u)
  {
    var k := IndexOf(u, '.');
    if k == |u| {
      DigitsValueZero(u);
    } else {
      var a, b := u[..k], u[k + 1..];
      DigitsValueZero(a);
      DigitsValueZero(b);
      FractionPositive(DigitsValue(a), DigitsValue(b), Pow10(|b|));
      HasNonZeroDigitSplit(u, k);
    }
  }

  /** `validate_amount` accepts exactly the decimal literals (after stripping) that have a
      non-zero digit. */
  lemma AmountAcceptedIff(s: string)
    ensures ValidateAmount(s).Ok? <==> IsDecimalLiteral(Strip(s)) && HasNonZeroDigit(Strip(s))
  {
    var t := Strip(s);
    var u := Replace(t, ',', '.');
    AmountPatternIff(t);
    HasNonZeroDigitReplace(t);
    if IsAmountPattern(u) {
      ParseAmountPositiveIff(u);
    }
  }

  /** Blank input is refused as empty. */
  lemma AmountRejectsBlank(s: string)
    requires AllSpace(s)
    ensures ValidateAmount(s) == Err(EmptyAmount)
  {
    StripEmptyIff(s);
  }

  /** Surrounding whitespace makes no difference. */
  lemma AmountIgnoresPadding(w1: string, s: string, w2: string)
    requires AllSpace(w1) && AllSpace(w2)
    ensures ValidateAmount(w1 + s + w2) == ValidateAmount(s)
  {
    StripIgnoresPadding(w1, s, w2);
  }

  /** Comma and point are the same separator: writing every ',' as '.' changes nothing. */
  lemma AmountSeparatorsEquivalent(s: string)
    ensures ValidateAmount(Replace(s, ',', '.')) == ValidateAmount(s)
  {
    var t := Strip(s);
    StripReplace(s, ',', '.');
    var t' := Replace(t, ',', '.');
    assert Replace(t', ',', '.') == t';
  }

  lemma StripTrimmed(t: string)
    requires IsTrimmed(t)
    ensures Strip(t) == t
  {
    assert [] + t + [] == t;
    StripOfPadded([], t, []);
  }

  /** The text of an amount with a fraction, once ',' is read as '.'. */
  lemma ReplaceInLiteral(a: string, sep: char, b: string)
    requires AllDigits(a) && AllDigits(b) && IsSeparator(sep)
    ensures Replace(a + [sep] + b, ',', '.') == a + ['.'] + b
  {
    var t := a + [sep] + b;
    var u := Replace(t, ',', '.');
    assert forall i :: 0 <= i < |a| ==> t[i] == a[i] && u[i] == a[i];
    assert forall i :: 0 <= i < |b| ==> t[|a| + 1 + i] == b[i] && u[|a| + 1 + i] == b[i];
    assert u == a + ['.'] + b;
  }

  /** In integer digits, '.', fraction digits, the first '.' is the one between the parts. */
  lemma LiteralParts(a: string, b: string)
    requires AllDigits(a)
    ensures IndexOf(a + ['.'] + b, '.') == |a|
    ensures (a + ['.'] + b)[..|a|] == a && (a + ['.'] + b)[|a| + 1..] == b
  {
    var u := a + ['.'] + b;
    assert u[..|a|] == a && u[|a| + 1..] == b && u[|a|] == '.';
  }

  /** `float` of integer digits, '.', fraction digits. */
  lemma ParseLiteral(a: string, b: string)
    requires a != [] && AllDigits(a) && b != [] && AllDigits(b)
    ensures IsAmountPattern(a + ['.'] + b)
    ensures ParseAmount(a + ['.'] + b) == DigitsValue(a) as real + DigitsValue(b) as real / Pow10(|b|) as real
    ensures ParseAmount(a + ['.'] + b) > 0.0 <==> HasNonZeroDigit(a) || HasNonZeroDigit(b)
  {
    LiteralParts(a, b);
    DigitsValueZero(a);
    DigitsValueZero(b);
    FractionPositive(DigitsValue(a), DigitsValue(b), Pow10(|b|));
  }

  /** What `validate_amount` does with a stripped, non-empty text that fits the pattern once
      ',' is read as '.'. */
  lemma AmountOfPattern(t: string, u: string)
    requires t != [] && Strip(t) == t && Replace(t, ',', '.') == u && IsAmountPattern(u)
    ensures ValidateAmount(t) == if ParseAmount(u) > 0.0 then Ok(ParseAmount(u)) else Err(NonPositiveAmount)
  {
  }

  /** The value of an amount written as integer digits `a`, a separator and fraction digits `b`. */
  lemma AmountOfLiteral(a: string, sep: char, b: string)
    requires IsSeparator(sep)
    requires a != [] && AllDigits(a) && b != [] && AllDigits(b)
    ensures ValidateAmount(a + [sep] + b)
         == if HasNonZeroDigit(a) || HasNonZeroDigit(b)
            then Ok(DigitsValue(a) as real + DigitsValue(b) as real / Pow10(|b|) as real)
            else Err(NonPositiveAmount)
  {
    StripOfLiteral(a, sep, b);
    ReplaceInLiteral(a, sep, b);
    ParseLiteral(a, b);
    AmountOfPattern(a + [sep] + b, a + ['.'] + b);
  }

  lemma StripOfLiteral(a: string, sep: char, b: string)
    requires IsSeparator(sep) && a != [] && AllDigits(a) && b != [] && AllDigits(b)
    ensures Strip(a + [sep] + b) == a + [sep] + b
  {
    var t := a + [sep] + b;
    assert t[0] == a[0] && t[|t| - 1] == b[|b| - 1];
    StripTrimmed(t);
  }

  /** The same with any whitespace around it. */
  lemma AmountWithFraction(w1: string, a: string, sep: char, b: string, w2: string)
    requires AllSpace(w1) && AllSpace(w2) && IsSeparator(sep)
    requires a != [] && AllDigits(a) && b != [] && AllDigits(b)
    ensures ValidateAmount(w1 + (a + [sep] + b) + w2)
         == if HasNonZeroDigit(a) || HasNonZeroDigit(b)
            then Ok(DigitsValue(a) as real + DigitsValue(b) as real / Pow10(|b|) as real)
            else Err(NonPositiveAmount)
  {
    AmountIgnoresPadding(w1, a + [sep] + b, w2);
    AmountOfLiteral(a, sep, b);
  }

  /** The value of an amount written as digits only, with any whitespace around it. */
  lemma AmountWithoutFraction(w1: string, a: string, w2: string)
    requires AllSpace(w1) && AllSpace(w2) && a != [] && AllDigits(a)
    ensures ValidateAmount(w1 + a + w2)
         == if HasNonZeroDigit(a) then Ok(DigitsValue(a) as real) else Err(NonPositiveAmount)
  {
    assert IsTrimmed(a);
    AmountIgnoresPadding(w1, a, w2);
    StripTrimmed(a);
    assert Replace(a, ',', '.') == a;
    assert IsAmountPattern(a) && ParseAmount(a) == DigitsValue(a) as real;
    ParseAmountPositiveIff(a);
    AmountOfPattern(a, a);
  }

  lemma ThreeDigitsValue(t: string)
    requires |t| == 3 && AllDigits(t)
    ensures DigitsValue(t) == 100 * DigitValue(t[0]) + 10 * DigitValue(t[1]) + DigitValue(t[2])
  {
    TwoDigitsValue(t[..2]);
    assert t[..3] == t && t[..2][0] == t[0] && t[..2][1] == t[1];
  }

  /** An accepted literal with the value it is known to denote. */
  lemma LiteralAccepted(a: string, sep: char, b: string, x: real)
    requires IsSeparator(sep) && a != [] && AllDigits(a) && b != [] && AllDigits(b)
    requires HasNonZeroDigit(a) || HasNonZeroDigit(b)
    requires x == DigitsValue(a) as real + DigitsValue(b) as real / Pow10(|b|) as real
    ensures ValidateAmount(a + [sep] + b) == Ok(x)
  {
    AmountOfLiteral(a, sep, b);
  }

  lemma HundredAndAHalfDigits()
    ensures AllDigits("100") && AllDigits("50") && HasNonZeroDigit("100")
    ensures DigitsValue("100") as real + DigitsValue("50") as real / Pow10(|"50"|) as real == 100.5
  {
    assert "100"[0] == '1';
    ThreeDigitsValue("100");
    TwoDigitsValue("50");
  }

  /** One hundred and a half, with either separator. */
  lemma AmountHundredAndAHalf(sep: char)
    requires IsSeparator(sep)
    ensures ValidateAmount("100" + [sep] + "50") == Ok(100.5)
  {
    HundredAndAHalfDigits();
    LiteralAccepted("100", sep, "50", 100.5);
  }

  /** The documented examples: "100,50" and "100.50" are both 100.5. */
  lemma AmountTakesEitherSeparator()
    ensures ValidateAmount("100,50") == Ok(100.5)
    ensures ValidateAmount("100.50") == Ok(100.5)
  {
    assert "100,50" == "100" + [','] + "50";
    AmountHundredAndAHalf(',');
    assert "100.50" == "100" + ['.'] + "50";
    AmountHundredAndAHalf('.');
  }

  lemma TwelveAndAHalfDigits()
    ensures AllDigits("12") && AllDigits("5") && HasNonZeroDigit("12")
    ensures DigitsValue("12") as real + DigitsValue("5") as real / Pow10(|"5"|) as real == 12.5
  {
    assert "12"[0] == '1';
    TwoDigitsValue("12");
  }

  lemma AmountTwelveAndAHalf()
    ensures ValidateAmount("12.5") == Ok(12.5)
  {
    assert "12.5" == "12" + ['.'] + "5";
    TwelveAndAHalfDigits();
    LiteralAccepted("12", '.', "5", 12.5);
  }

  /** An example of an amount typed with a space on each side. */
  lemma AmountTakesPadding()
    ensures ValidateAmount(" 12.5 ") == Ok(12.5)
  {
    assert " 12.5 " == " " + "12.5" + " ";
    AmountIgnoresPadding(" ", "12.5", " ");
    AmountTwelveAndAHalf();
  }

  /** Zero is refused as not positive, written with or without a fraction. */
  lemma AmountRejectsZero()
    ensures ValidateAmount("0") == Err(NonPositiveAmount)
  {
    assert "0" == [] + "0" + [];
    assert !HasNonZeroDigit("0");
    AmountWithoutFraction([], "0", []);
  }

  lemma AmountRejectsZeroFraction()
    ensures ValidateAmount("0.00") == Err(NonPositiveAmount)
  {
    assert "0.00" == "0" + ['.'] + "00";
    assert !HasNonZeroDigit("0") && !HasNonZeroDigit("00");
    AmountOfLiteral("0", '.', "00");
  }

  /** A sign is not part of the pattern. */
  lemma AmountRejectsSigns()
    ensures ValidateAmount("-5") == Err(BadAmountFormat)
  {
    assert Replace("-5", ',', '.') == "-5" && IndexOf("-5", '.') == 2 && !IsDigit("-5"[0]);
    AmountFormatRejected("-5");
  }

  /** Neither is an exponent. */
  lemma AmountRejectsExponent()
    ensures ValidateAmount("1e5") == Err(BadAmountFormat)
  {
    assert Replace("1e5", ',', '.') == "1e5" && IndexOf("1e5", '.') == 3 && !IsDigit("1e5"[1]);
    AmountFormatRejected("1e5");
  }

  /** A separator needs digits on both sides. */
  lemma AmountRejectsBareSeparator()
    ensures ValidateAmount("5.") == Err(BadAmountFormat)
  {
    assert Replace("5.", ',', '.') == "5." && IndexOf("5.", '.') == 1;
    AmountFormatRejected("5.");
  }

  lemma AmountRejectsLeadingSeparator()
    ensures ValidateAmount(".5") == Err(BadAmountFormat)
  {
    assert Replace(".5", ',', '.') == ".5" && IndexOf(".5", '.') == 0;
    AmountFormatRejected(".5");
  }

  /** A thousands separator becomes a second '.', which the pattern refuses. */
  lemma AmountRejectsThousands()
    ensures ValidateAmount("1,000.5") == Err(BadAmountFormat)
  {
    var u := Replace("1,000.5", ',', '.');
    assert u == "1.000.5" && IndexOf(u, '.') == 1 && u[2..][3] == '.';
    AmountFormatRejected("1,000.5");
  }

  /** A trimmed, non-empty text that does not fit the pattern once ',' is read as '.' is refused
      for its format. */
  lemma AmountFormatRejected(t: string)
    requires t != [] && IsTrimmed(t) && !IsAmountPattern(Replace(t, ',', '.'))
    ensures ValidateAmount(t) == Err(BadAmountFormat)
  {
    StripTrimmed(t);
  }

  // ---------------------------------------------------------------------------------------
  // validate_date

  /** `validate_date`: strip, refuse the empty string, require `^\d{4}-\d{2}-\d{2}$`, require
      `strptime(t, "%Y-%m-%d")` to succeed, and return the stripped text itself. */
  function ValidateDate(s: string): (r: Result<string>)
    ensures r.Ok? ==> IsTrimmed(r.value) && IsIsoShape(r.value)
  {
    var t := Strip(s);
    if t == [] then Err(EmptyDate)
    else if !IsIsoShape(t) then Err(BadDateFormat)
    else if Strptime(t).None? then Err(ImpossibleDate)
    else Ok(t)
  }

  /** `validate_date` accepts exactly the strings whose stripped text has the strict shape and
      names a real calendar date, and it returns that stripped text. */
  lemma DateAcceptedIff(s: string)
    ensures ValidateDate(s).Ok?
        <==> IsIsoShape(Strip(s)) && IsRealDate(IsoFields(Strip(s)))
    ensures ValidateDate(s).Ok? ==> ValidateDate(s).value == Strip(s)
  {
    if IsIsoShape(Strip(s)) {
      StrptimeOnIsoShape(Strip(s));
    }
  }

  /** The text `validate_date` returns is accepted again, unchanged. */
  lemma DateIdempotent(s: string)
    requires ValidateDate(s).Ok?
    ensures ValidateDate(ValidateDate(s).value) == ValidateDate(s)
  {
    StripIdempotent(s);
  }

  /** Surrounding whitespace makes no difference. */
  lemma DateIgnoresPadding(w1: string, s: string, w2: string)
    requires AllSpace(w1) && AllSpace(w2)
    ensures ValidateDate(w1 + s + w2) == ValidateDate(s)
  {
    StripIgnoresPadding(w1, s, w2);
  }

  /** The verdict on a trimmed string of the strict shape. */
  lemma DateOfIsoShape(t: string)
    requires IsIsoShape(t) && IsTrimmed(t)
    ensures ValidateDate(t) == if IsRealDate(IsoFields(t)) then Ok(t) else Err(ImpossibleDate)
  {
    StripTrimmed(t);
    StrptimeOnIsoShape(t);
  }

  /** February has a 29th day only in leap years, and there are twelve months. */
  lemma DateTakesLeapDay()
    ensures ValidateDate("2024-02-29") == Ok("2024-02-29")
  {
    DateExample("2024-02-29", 2024, 2, 29);
  }

  lemma DateTakesLeapCentury()
    ensures ValidateDate("2000-02-29") == Ok("2000-02-29")
  {
    DateExample("2000-02-29", 2000, 2, 29);
  }

  lemma DateRejectsCommonCentury()
    ensures ValidateDate("1900-02-29") == Err(ImpossibleDate)
  {
    DateExample("1900-02-29", 1900, 2, 29);
  }

  lemma DateRejectsThirtiethOfFebruary()
    ensures ValidateDate("2025-02-30") == Err(ImpossibleDate)
  {
    DateExample("2025-02-30", 2025, 2, 30);
  }

  lemma DateRejectsThirteenthMonth()
    ensures ValidateDate("2025-13-01") == Err(ImpossibleDate)
  {
    DateExample("2025-13-01", 2025, 13, 1);
  }

  /** The verdict on a string of the strict shape whose fields are known. */
  lemma DateExample(t: string, y: int, m: int, d: int)
    requires |t| == 10 && t[4] == '-' && t[7] == '-'
    requires forall i :: 0 <= i < 10 && i != 4 && i != 7 ==> IsDigit(t[i])
    requires 1000 * DigitValue(t[0]) + 100 * DigitValue(t[1]) + 10 * DigitValue(t[2]) + DigitValue(t[3]) == y
    requires 10 * DigitValue(t[5]) + DigitValue(t[6]) == m
    requires 10 * DigitValue(t[8]) + DigitValue(t[9]) == d
    ensures ValidateDate(t) == if IsRealDate(Date(y, m, d)) then Ok(t) else Err(ImpossibleDate)
  {
    IsoFieldsOf(t, y, m, d);
    assert IsTrimmed(t);
    DateOfIsoShape(t);
  }

  /** Ten characters with dashes at 4 and 7 and digits elsewhere have the strict shape, and
      their fields are the numbers the digits spell. */
  lemma IsoFieldsOf(t: string, y: int, m: int, d: int)
    requires |t| == 10 && t[4] == '-' && t[7] == '-'
    requires forall i :: 0 <= i < 10 && i != 4 && i != 7 ==> IsDigit(t[i])
    requires 1000 * DigitValue(t[0]) + 100 * DigitValue(t[1]) + 10 * DigitValue(t[2]) + DigitValue(t[3]) == y
    requires 10 * DigitValue(t[5]) + DigitValue(t[6]) == m
    requires 10 * DigitValue(t[8]) + DigitValue(t[9]) == d
    ensures IsIsoShape(t) && IsoFields(t) == Date(y, m, d)
  {
    var ys, ms, ds := t[..4], t[5..7], t[8..];
    assert ys == [t[0], t[1], t[2], t[3]] && ms == [t[5], t[6]] && ds == [t[8], t[9]];
    FourDigitsValue(ys);
    TwoDigitsValue(ms);
    TwoDigitsValue(ds);
  }

  /** The shape is strict: one-digit fields are refused before any calendar check. */
  lemma DateRejectsShortFields()
    ensures ValidateDate("2025-1-5") == Err(BadDateFormat)
    ensures ValidateDate("   ") == Err(EmptyDate)
  {
    assert IsTrimmed("2025-1-5");
    StripTrimmed("2025-1-5");
    StripEmptyIff("   ");
  }

  // ---------------------------------------------------------------------------------------
  // validate_category

  /** `validate_category`: the stripped text, which may not be empty. */
  function ValidateCategory(s: string): (r: Result<string>)
    ensures r.Ok? ==> r.value != [] && IsTrimmed(r.value)
  {
    var t := Strip(s);
    if t == [] then Err(EmptyCategory) else Ok(t)
  }

  /** A category is refused exactly when it is blank; otherwise it is the text without the
      whitespace around it. */
  lemma CategoryAcceptedIff(s: string)
    ensures ValidateCategory(s).Ok? <==> !AllSpace(s)
    ensures ValidateCategory(s).Ok? ==> ValidateCategory(s).value == Strip(s)
  {
    StripEmptyIff(s);
  }

  /** Validating a validated category returns it unchanged. */
  lemma CategoryIdempotent(s: string)
    requires ValidateCategory(s).Ok?
    ensures ValidateCategory(ValidateCategory(s).value) == ValidateCategory(s)
  {
    StripIdempotent(s);
  }

  // ---------------------------------------------------------------------------------------
  // validate_year

  /** The year of the first production automobile. */
  const FirstCarYear := 1885

  /** The regular expression `^[1-2]\d{3}$`. */
  predicate IsYearPattern(t: string)
  {
    |t| == 4 && (t[0] == '1' || t[0] == '2') && AllDigits(t)
  }

  lemma YearPatternRange(t: string)
    requires IsYearPattern(t)
    ensures 1000 <= DigitsValue(t) <= 2999
    ensures DigitsValue(t) / 1000 == DigitValue(t[0])
  {
    FourDigitsValue(t);
  }

  /** `validate_year`: the text (not stripped) must match the pattern, and the year it names
      may not be earlier than 1885. */
  function ValidateYear(s: string): (r: Result<int>)
    ensures r.Ok? ==> FirstCarYear <= r.value <= 2999
  {
    if !IsYearPattern(s) then Err(BadYearFormat)
    else
      YearPatternRange(s);
      var year := DigitsValue(s);
      if year < FirstCarYear then Err(YearBeforeFirstCar) else Ok(year)
  }

  /** The decimal text of every year from 1885 to 2999 is accepted and read back as that year. */
  lemma YearRoundTrip(y: int)
    requires FirstCarYear <= y <= 2999
    ensures ValidateYear(DecimalString(y)) == Ok(y)
  {
    FourDigitNatString(y);
    NatStringRoundTrip(y);
  }

  /** Conversely, an accepted text is the decimal text of the year it is read as. */
  lemma YearTextIsCanonical(s: string)
    requires ValidateYear(s).Ok?
    ensures DecimalString(ValidateYear(s).value) == s
  {
    var y := ValidateYear(s).value;
    FourDigitNatString(y);
    NatStringRoundTrip(y);
    DigitsValueInjective(DecimalString(y), s);
  }

  /** Examples: a year before the first car, a four-digit year led by '3', and untrimmed input. */
  lemma YearExamples()
    ensures ValidateYear("1775") == Err(YearBeforeFirstCar)
    ensures ValidateYear("2016") == Ok(2016)
    ensures ValidateYear("3000") == Err(BadYearFormat)
    ensures ValidateYear(" 2016") == Err(BadYearFormat)
  {
    FourDigitsValue("1775");
    FourDigitsValue("2016");
  }
}
