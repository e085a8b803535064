/** The pieces of Python's string handling the validators rely on: `str.isspace`, `str.strip`,
    `str.replace` of one character, `int(...)` of a digit string and `str(...)` of an integer. */
module Text {

  /** Python's `str.isspace` for one character: the ASCII controls TAB..CR and FS..US, the space,
      NEL, NO-BREAK SPACE and the Unicode space and line/paragraph separators. */
  predicate IsSpace(c: char)
  {
    ('\t' <= c <= '\r') || ('\U{1C}' <= c <= ' ') || c == '\U{85}' || c == '\U{A0}'
    || c == '\U{1680}' || ('\U{2000}' <= c <= '\U{200A}') || c == '\U{2028}' || c == '\U{2029}'
    || c == '\U{202F}' || c == '\U{205F}' || c == '\U{3000}'
  }

  predicate AllSpace(w: string)
  {
    forall k :: 0 <= k < |w| ==> IsSpace(w[k])
  }

  /** Neither end of `t` is whitespace: what `str.strip` leaves behind. */
  predicate IsTrimmed(t: string)
  {
    t == [] || (!IsSpace(t[0]) && !IsSpace(t[|t| - 1]))
  }

  /** Where `str.strip` starts: the first index at or after `i` whose character is not
      whitespace, or `|s|`. */
  function SkipSpace(s: string, i: nat): (k: nat)
    requires i <= |s|
    ensures i <= k <= |s|
    ensures forall m :: i <= m < k ==> IsSpace(s[m])
    ensures k < |s| ==> !IsSpace(s[k])
    decreases |s| - i
  {
    if i < |s| && IsSpace(s[i]) then SkipSpace(s, i + 1) else i
  }

  /** Where `str.strip` ends: moving down from `j`, the index just past the last character that
      is not whitespace, or `i` if there is none from `i` on. */
  function SkipSpaceBack(s: string, i: nat, j: nat): (k: nat)
    requires i <= j <= |s|
    ensures i <= k <= j
    ensures forall m :: k <= m < j ==> IsSpace(s[m])
    ensures k > i ==> !IsSpace(s[k - 1])
    decreases j - i
  {
    if j > i && IsSpace(s[j - 1]) then SkipSpaceBack(s, i, j - 1) else j
  }

  /** `str.strip()`: the slice between the leading and the trailing whitespace. */
  function Strip(s: string): (r: string)
    ensures IsTrimmed(r)
  {
    var i := SkipSpace(s, 0);
    s[i..SkipSpaceBack(s, i, |s|)]
  }

  /** The start index is determined by the whitespace before it and the character at it. */
  lemma SkipSpaceAt(s: string, i: nat, m: nat)
    requires i <= m <= |s|
    requires forall k :: i <= k < m ==> IsSpace(s[k])
    requires m == |s| || !IsSpace(s[m])
    ensures SkipSpace(s, i) == m
  {
  }

  /** So is the end index, by the whitespace after it and the character before it. */
  lemma SkipSpaceBackAt(s: string, i: nat, j: nat, m: nat)
    requires i <= m <= j <= |s|
    requires forall k :: m <= k < j ==> IsSpace(s[k])
    requires m == i || !IsSpace(s[m - 1])
    ensures SkipSpaceBack(s, i, j) == m
  {
  }

  /** Stripping removes exactly the whitespace around a trimmed core, however much there is. */
  lemma StripOfPadded(w1: string, t: string, w2: string)
    requires AllSpace(w1) && AllSpace(w2) && IsTrimmed(t)
    ensures Strip(w1 + t + w2) == t
  {
    var s := w1 + t + w2;
    var i, j := |w1|, |w1| + |t|;
    assert forall k :: 0 <= k < i ==> s[k] == w1[k];
    assert forall k :: j <= k < |s| ==> s[k] == w2[k - j];
    if t == [] {
      SkipSpaceAt(s, 0, |s|);
      SkipSpaceBackAt(s, |s|, |s|, |s|);
    } else {
      assert s[i] == t[0] && s[j - 1] == t[|t| - 1];
      SkipSpaceAt(s, 0, i);
      SkipSpaceBackAt(s, i, |s|, j);
      assert s[i..j] == t;
    }
  }

  lemma AllSpaceConcat(a: string, b: string)
    requires AllSpace(a) && AllSpace(b)
    ensures AllSpace(a + b)
  {
    forall k | 0 <= k < |a + b|
      ensures IsSpace((a + b)[k])
    {
      if k < |a| {
        assert (a + b)[k] == a[k];
      } else {
        assert (a + b)[k] == b[k - |a|];
      }
    }
  }

  /** `s` is its stripped core with the whitespace `strip` removed put back around it. */
  lemma StripSplit(s: string) returns (front: string, back: string)
    ensures AllSpace(front) && AllSpace(back)
    ensures s == front + Strip(s) + back
  {
    var i := SkipSpace(s, 0);
    var j := SkipSpaceBack(s, i, |s|);
    front, back := s[..i], s[j..];
    assert AllSpace(front) by {
      assert forall k :: 0 <= k < i ==> front[k] == s[k];
    }
    assert AllSpace(back) by {
      assert forall k :: 0 <= k < |s| - j ==> back[k] == s[j + k];
    }
    assert Strip(s) == s[i..j];
    SliceParts(s, i, j);
  }

  lemma SliceParts(s: string, i: nat, j: nat)
    requires i <= j <= |s|
    ensures s == s[..i] + s[i..j] + s[j..]
  {
  }

  lemma Regroup(w1: string, front: string, r: string, back: string, w2: string)
    ensures w1 + (front + r + back) + w2 == (w1 + front) + r + (back + w2)
  {
  }

  /** Whitespace added around a string does not change what `strip` returns. */
  lemma StripIgnoresPadding(w1: string, s: string, w2: string)
    requires AllSpace(w1) && AllSpace(w2)
    ensures Strip(w1 + s + w2) == Strip(s)
  {
    var front, back := StripSplit(s);
    var r := Strip(s);
    Regroup(w1, front, r, back, w2);
    AllSpaceConcat(w1, front);
    AllSpaceConcat(back, w2);
    StripOfPadded(w1 + front, r, back + w2);
  }

  lemma StripIdempotent(s: string)
    ensures Strip(Strip(s)) == Strip(s)
  {
    var r := Strip(s);
    assert [] + r + [] == r;
    StripOfPadded([], r, []);
  }

  /** `strip` yields the empty string exactly for all-whitespace input. */
  lemma StripEmptyIff(s: string)
    ensures Strip(s) == [] <==> AllSpace(s)
  {
    if AllSpace(s) {
      assert [] + [] + s == s;
      StripOfPadded([], [], s);
    }
    if Strip(s) == [] {
      var front, back := StripSplit(s);
      assert s == front + back;
      AllSpaceConcat(front, back);
    }
  }

  /** `s.replace(a, b)` for single characters `a` and `b`: every `a` becomes `b`. */
  function Replace(s: string, a: char, b: char): string
  {
    seq(|s|, k requires 0 <= k < |s| => if s[k] == a then b else s[k])
  }

  lemma ReplaceConcat(x: string, y: string, a: char, b: char)
    ensures Replace(x + y, a, b) == Replace(x, a, b) + Replace(y, a, b)
  {
    assert forall k :: 0 <= k < |y| ==> (x + y)[|x| + k] == y[k];
  }

  lemma ReplaceSpaces(w: string, a: char, b: char)
    requires AllSpace(w) && !IsSpace(a)
    ensures Replace(w, a, b) == w
  {
  }

  /** Replacing a character by another that is not whitespace keeps both ends non-whitespace. */
  lemma ReplaceTrimmed(r: string, a: char, b: char)
    requires IsTrimmed(r) && !IsSpace(b)
    ensures IsTrimmed(Replace(r, a, b))
  {
    var rr := Replace(r, a, b);
    if rr != [] {
      assert rr[0] == if r[0] == a then b else r[0];
      assert rr[|rr| - 1] == if r[|r| - 1] == a then b else r[|r| - 1];
    }
  }

  /** Replacing a character that is not whitespace leaves whitespace padding alone. */
  lemma ReplacePadded(front: string, r: string, back: string, a: char, b: char)
    requires AllSpace(front) && AllSpace(back) && !IsSpace(a)
    ensures Replace(front + r + back, a, b) == front + Replace(r, a, b) + back
  {
    ReplaceConcat(front + r, back, a, b);
    ReplaceConcat(front, r, a, b);
    ReplaceSpaces(front, a, b);
    ReplaceSpaces(back, a, b);
  }

  /** Replacing a character that is not whitespace commutes with `strip`. */
  lemma StripReplace(s: string, a: char, b: char)
    requires !IsSpace(a) && !IsSpace(b)
    ensures Strip(Replace(s, a, b)) == Replace(Strip(s), a, b)
  {
    var front, back := StripSplit(s);
    var r := Strip(s);
    ReplacePadded(front, r, back, a, b);
    ReplaceTrimmed(r, a, b);
    StripOfPadded(front, Replace(r, a, b), back);
  }

  /** The position of the first `c` in `s`, or `|s|` if there is none (`str.find` without -1). */
  function IndexOf(s: string, c: char): (k: nat)
    ensures k <= |s|
    ensures forall j :: 0 <= j < k ==> s[j] != c
    ensures k < |s| ==> s[k] == c
  {
    if s == [] then 0
    else if s[0] == c then 0
    else 1 + IndexOf(s[1..], c)
  }

  // ---------------------------------------------------------------------------------------
  // Decimal digits. Python's `\d` and `int()` also accept non-ASCII decimal digits; only
  // '0'..'9' are modelled.

  predicate IsDigit(c: char)
  {
    '0' <= c <= '9'
  }

  predicate AllDigits(s: string)
  {
    forall k :: 0 <= k < |s| ==> IsDigit(s[k])
  }

  predicate HasNonZeroDigit(s: string)
  {
    exists k :: 0 <= k < |s| && '1' <= s[k] <= '9'
  }

  function DigitValue(c: char): (d: nat)
    requires IsDigit(c)
    ensures d < 10
  {
    (c as int) - ('0' as int)
  }

  function DigitChar(d: nat): (c: char)
    requires d < 10
    ensures IsDigit(c) && DigitValue(c) == d
  {
    (('0' as int) + d) as char
  }

  function Pow10(n: nat): (p: nat)
    ensures p >= 1
  {
    if n == 0 then 1 else 10 * Pow10(n - 1)
  }

  /** `int(s)` for a string of decimal digits, read most significant digit first. */
  function DigitsValue(s: string): (v: nat)
    requires AllDigits(s)
    ensures v < Pow10(|s|)
  {
    if s == [] then 0
    else 10 * DigitsValue(s[..|s| - 1]) + DigitValue(s[|s| - 1])
  }

  /** A digit string denotes zero exactly when all its digits are '0'. */
  lemma {:induction false} DigitsValueZero(s: string)
    requires AllDigits(s)
    ensures DigitsValue(s) == 0 <==> !HasNonZeroDigit(s)
  {
    if s != [] {
      var p := s[..|s| - 1];
      DigitsValueZero(p);
      assert HasNonZeroDigit(s) <==> HasNonZeroDigit(p) || '1' <= s[|s| - 1] <= '9' by {
        if HasNonZeroDigit(s) {
          var k :| 0 <= k < |s| && '1' <= s[k] <= '9';
          if k < |p| {
            assert p[k] == s[k];
          }
        }
        if HasNonZeroDigit(p) {
          var k :| 0 <= k < |p| && '1' <= p[k] <= '9';
          assert s[k] == p[k];
        }
      }
    }
  }

  /** Two digit strings of the same length with the same value are the same string. */
  lemma {:induction false} DigitsValueInjective(a: string, b: string)
    requires AllDigits(a) && AllDigits(b) && |a| == |b|
    requires DigitsValue(a) == DigitsValue(b)
    ensures a == b
  {
    if a != [] {
      var n := |a| - 1;
      var da, db := DigitValue(a[n]), DigitValue(b[n]);
      var pa, pb := DigitsValue(a[..n]), DigitsValue(b[..n]);
      assert 10 * pa + da == 10 * pb + db;
      assert pa == pb;
      assert DigitChar(da) == a[n] && DigitChar(db) == b[n];
      DigitsValueInjective(a[..n], b[..n]);
      assert a == a[..n] + [a[n]] && b == b[..n] + [b[n]];
    }
  }

  /** `str(n)` for a natural number: decimal digits, no leading zero. */
  function NatString(n: nat): (r: string)
    ensures r != [] && AllDigits(r)
  {
    if n < 10 then [DigitChar(n)] else NatString(n / 10) + [DigitChar(n % 10)]
  }

  /** `str(n)` for any integer: a minus sign in front of negative numbers. */
  function DecimalString(n: int): (r: string)
    ensures r != []
    ensures n >= 0 <==> AllDigits(r)
  {
    if n < 0 then
      var r := "-" + NatString(-n);
      assert !IsDigit(r[0]);
      r
    else NatString(n)
  }

  /** `int(str(n)) == n`. */
  lemma {:induction false} NatStringRoundTrip(n: nat)
    ensures DigitsValue(NatString(n)) == n
  {
    var r := NatString(n);
    if n >= 10 {
      NatStringRoundTrip(n / 10);
      assert r[..|r| - 1] == NatString(n / 10);
    }
  }

  /** A four-digit string is read as thousands, hundreds, tens and units. */
  lemma FourDigitsValue(t: string)
    requires |t| == 4 && AllDigits(t)
    ensures DigitsValue(t) == 1000 * DigitValue(t[0]) + 100 * DigitValue(t[1]) + 10 * DigitValue(t[2]) + DigitValue(t[3])
  {
    assert t[..3][..2] == t[..2] && t[..2][..1] == t[..1] && t[..1][..0] == [];
    assert t[..3][2] == t[2] && t[..2][1] == t[1] && t[..1][0] == t[0];
    assert DigitsValue(t[..1]) == DigitValue(t[0]);
    assert DigitsValue(t[..2]) == 10 * DigitValue(t[0]) + DigitValue(t[1]);
    assert DigitsValue(t[..3]) == 100 * DigitValue(t[0]) + 10 * DigitValue(t[1]) + DigitValue(t[2]);
  }

  /** The four-digit numbers print as four characters, the leading one being their thousands digit. */
  lemma FourDigitNatString(n: nat)
    requires 1000 <= n <= 9999
    ensures |NatString(n)| == 4 && DigitValue(NatString(n)[0]) == n / 1000
  {
    assert NatString(n / 1000) == [DigitChar(n / 1000)];
    assert n / 100 / 10 == n / 1000 && n / 10 / 10 == n / 100;
    assert NatString(n / 100) == [DigitChar(n / 1000)] + [DigitChar(n / 100 % 10)];
  }
}
