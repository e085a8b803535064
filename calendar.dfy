/** The part of Python's `datetime` the application uses: `datetime.strptime(s, "%Y-%m-%d")`,
    that is, the regular expression `_strptime` builds for that format followed by the range
    checks of the proleptic Gregorian `date` (years 1 to 9999). */
module Calendar {
  import opened Results
  import opened Text

  datatype Date = Date(year: int, month: int, day: int)

  /** The Gregorian 4/100/400 rule. */
  predicate IsLeapYear(y: int)
  {
    y % 4 == 0 && (y % 100 != 0 || y % 400 == 0)
  }

  function DaysInMonth(y: int, m: int): (n: int)
    requires 1 <= m <= 12
    ensures 28 <= n <= 31
    ensures n == 31 <==> m in {1, 3, 5, 7, 8, 10, 12}
    ensures n == 30 <==> m in {4, 6, 9, 11}
    ensures m == 2 ==> (n == 29 <==> IsLeapYear(y))
  {
    if m == 2 then (if IsLeapYear(y) then 29 else 28)
    else if m == 4 || m == 6 || m == 9 || m == 11 then 30
    else 31
  }

  /** What `datetime.date(y, m, d)` accepts. */
  predicate IsRealDate(d: Date)
  {
    1 <= d.year <= 9999 && 1 <= d.month <= 12 && 1 <= d.day <= DaysInMonth(d.year, d.month)
  }

  /** `%m` is `1[0-2]|0[1-9]|[1-9]` and is followed in the format by the literal '-'. Whichever
      alternative the regular-expression engine settles on must be followed by '-', and at most
      one of them can be, so the match is the one alternative followed by '-'. The number of
      characters it takes, 0 for no match. */
  function MonthWidth(u: string): (w: nat)
    ensures w <= 2 && (w > 0 ==> w < |u| && u[w] == '-' && AllDigits(u[..w]))
  {
    if |u| >= 3 && u[0] == '1' && '0' <= u[1] <= '2' && u[2] == '-' then 2
    else if |u| >= 3 && u[0] == '0' && '1' <= u[1] <= '9' && u[2] == '-' then 2
    else if |u| >= 2 && '1' <= u[0] <= '9' && u[1] == '-' then 1
    else 0
  }

  /** `%d` is `3[01]|[12]\d|0[1-9]|[1-9]| [1-9]` and ends the pattern, so `re.match` keeps the
      first alternative that matches at the start of `v`. The number of characters it takes, 0
      for no match. */
  function DayWidth(v: string): (w: nat)
    ensures w <= |v| && w <= 2
  {
    if |v| >= 2 && v[0] == '3' && '0' <= v[1] <= '1' then 2
    else if |v| >= 2 && '1' <= v[0] <= '2' && IsDigit(v[1]) then 2
    else if |v| >= 2 && v[0] == '0' && '1' <= v[1] <= '9' then 2
    else if |v| >= 1 && '1' <= v[0] <= '9' then 1
    else if |v| >= 2 && v[0] == ' ' && '1' <= v[1] <= '9' then 2
    else 0
  }

  /** `datetime.strptime(s, "%Y-%m-%d")`: `%Y` is four digits; the string must match the pattern
      from its first character and leave nothing unconverted; the fields must form a real date.
      Neither end of `s` is trimmed. */
  function Strptime(s: string): (r: Option<Date>)
    ensures r.Some? ==> IsRealDate(r.value)
  {
    if |s| < 5 || !AllDigits(s[..4]) || s[4] != '-' then None
    else
      var u := s[5..];
      var mw := MonthWidth(u);
      if mw == 0 then None
      else
        var v := u[mw + 1..];
        var dw := DayWidth(v);
        if dw == 0 || dw != |v| then None
        else
          var digits := if v[0] == ' ' then v[1..] else v;
          assert AllDigits(digits);
          var date := Date(DigitsValue(s[..4]), DigitsValue(u[..mw]), DigitsValue(digits));
          if IsRealDate(date) then Some(date) else None
  }

  /** The strict `YYYY-MM-DD` shape: `^\d{4}-\d{2}-\d{2}$`. */
  predicate IsIsoShape(t: string)
  {
    |t| == 10 && AllDigits(t[..4]) && t[4] == '-' && AllDigits(t[5..7]) && t[7] == '-' && AllDigits(t[8..])
  }

  /** The year, month and day written in a string of the strict shape. */
  function IsoFields(t: string): Date
    requires IsIsoShape(t)
  {
    Date(DigitsValue(t[..4]), DigitsValue(t[5..7]), DigitsValue(t[8..]))
  }

  lemma TwoDigitsValue(t: string)
    requires |t| == 2 && AllDigits(t)
    ensures DigitsValue(t) == 10 * DigitValue(t[0]) + DigitValue(t[1])
  {
    assert t[..1][..0] == [];
    assert DigitsValue(t[..1]) == DigitValue(t[0]);
  }

  /** On a string of the strict shape, `strptime` succeeds exactly when the fields written in it
      form a real date, and then it returns them. */
  lemma StrptimeOnIsoShape(t: string)
    requires IsIsoShape(t)
    ensures Strptime(t) == if IsRealDate(IsoFields(t)) then Some(IsoFields(t)) else None
  {
    var u := t[5..];
    assert u[..2] == t[5..7] && u[2] == '-' && u[3..] == t[8..];
    TwoDigitsValue(t[5..7]);
    TwoDigitsValue(t[8..]);
    var mw := MonthWidth(u);
    assert mw == 0 || mw == 2;
    if mw == 2 {
      var v := u[3..];
      assert v == t[8..];
    }
  }

  /** `strptime` takes a one-digit month and a one-digit day. */
  lemma StrptimeTakesOneDigitFields()
    ensures Strptime("2025-1-5") == Some(Date(2025, 1, 5))
  {
    var s := "2025-1-5";
    assert s[..4] == "2025" && s[4] == '-';
    var u := s[5..];
    assert u == "1-5" && MonthWidth(u) == 1 && u[..1] == "1";
    var v := u[2..];
    assert v == "5" && DayWidth(v) == 1;
    assert DigitsValue("2025") == 2025 by { FourDigitsValue("2025"); }
    assert DigitsValue("1") == 1 && DigitsValue("5") == 5;
  }

  /** `strptime` takes a day written as a space and one digit. */
  lemma StrptimeTakesSpacedDay()
    ensures Strptime("2025-01- 5") == Some(Date(2025, 1, 5))
  {
    var s := "2025-01- 5";
    assert s[..4] == "2025" && s[4] == '-';
    var u := s[5..];
    assert u == "01- 5" && MonthWidth(u) == 2 && u[..2] == "01";
    var v := u[3..];
    assert v == " 5" && DayWidth(v) == 2 && v[1..] == "5";
    assert DigitsValue("2025") == 2025 by { FourDigitsValue("2025"); }
    assert DigitsValue("01") == 1 by { TwoDigitsValue("01"); }
    assert DigitsValue("5") == 5;
  }

  /** `strptime` does not strip surrounding whitespace. */
  lemma StrptimeDoesNotTrim()
    ensures Strptime(" 2025-01-05") == None
    ensures Strptime("2025-01-05 ") == None
  {
    assert " 2025-01-05"[..4][0] == ' ';
    var u := "2025-01-05 "[5..];
    assert u == "01-05 " && MonthWidth(u) == 2;
    assert u[3..] == "05 " && DayWidth("05 ") == 2;
  }

  /** Nothing may be left over after the day, and a month or year of zero is refused. */
  lemma StrptimeRefusesBadFields()
    ensures Strptime("2025-01-005") == None
    ensures Strptime("2025-00-05") == None
    ensures Strptime("0000-01-01") == None
  {
    var u := "2025-01-005"[5..];
    assert u == "01-005" && MonthWidth(u) == 2 && u[3..] == "005" && DayWidth("005") == 0;
    assert "2025-00-05"[5..] == "00-05" && MonthWidth("00-05") == 0;
    var t := "0000-01-01";
    assert IsIsoShape(t) by {
      assert t[..4] == "0000" && t[5..7] == "01" && t[8..] == "01";
    }
    assert t[..4] == "0000" && DigitsValue("0000") == 0 by { FourDigitsValue("0000"); }
    StrptimeOnIsoShape(t);
  }
}
