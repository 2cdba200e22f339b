/** Python's `int(s)` for a `str` argument in base 10, the conversion the
    loader applies to the year part of a policy file name. Where Python
    raises `ValueError` the result is `None`. */
module PythonInt {
  import opened Wrappers

  /** The characters `int()` ignores around the number: among ASCII only
      tab, line feed, vertical tab, form feed, carriage return and space
      (not the separators U+001C to U+001F, which `str.isspace()` accepts),
      and the non-ASCII characters `str.isspace()` accepts. */
  predicate IsPySpace(c: char) {
    ('\t' <= c <= '\r') || c == ' ' ||
    c == '\U{85}' || c == '\U{A0}' || c == '\U{1680}' ||
    ('\U{2000}' <= c <= '\U{200A}') || c == '\U{2028}' || c == '\U{2029}' ||
    c == '\U{202F}' || c == '\U{205F}' || c == '\U{3000}'
  }

  function TrimStart(s: string): (r: string)
    ensures |r| <= |s| && r == s[|s| - |r|..]
    ensures r == [] || !IsPySpace(r[0])
  {
    if s != [] && IsPySpace(s[0]) then TrimStart(s[1..]) else s
  }

  function TrimEnd(s: string): (r: string)
    ensures |r| <= |s| && r == s[..|r|]
    ensures r == [] || !IsPySpace(r[|r| - 1])
  {
    if s != [] && IsPySpace(s[|s| - 1]) then TrimEnd(s[..|s| - 1]) else s
  }

  /** The text with surrounding whitespace removed. */
  function Strip(s: string): string {
    TrimEnd(TrimStart(s))
  }

  predicate IsDigit(c: char) {
    '0' <= c <= '9'
  }

  predicate IsDigitOrUnderscore(c: char) {
    IsDigit(c) || c == '_'
  }

  /** ASCII digits, where a single underscore may stand between two digits. */
  predicate IsDigitRun(t: string) {
    |t| > 0 && IsDigit(t[0]) && IsDigit(t[|t| - 1]) &&
    (forall i :: 0 <= i < |t| ==> IsDigitOrUnderscore(t[i])) &&
    (forall i :: 0 <= i < |t| - 1 ==> t[i] == '_' ==> t[i + 1] != '_')
  }

  /** The decimal value of the digits, the underscores skipped. */
  function DigitsValue(t: string): nat
    requires forall i :: 0 <= i < |t| ==> IsDigitOrUnderscore(t[i])
  {
    if t == [] then 0
    else
      var last := t[|t| - 1];
      assert IsDigitOrUnderscore(last);
      if last == '_' then DigitsValue(t[..|t| - 1])
      else DigitsValue(t[..|t| - 1]) * 10 + (last as int - '0' as int)
  }

  /** `int(s)`: surrounding whitespace, then an optional sign, then a run of
      digits. */
  function ParseInt(s: string): (r: Option<int>)
    ensures var t := Strip(s);
      r.Some? ==> t != [] && IsDigit(t[|t| - 1]) &&
                  forall i :: 0 < i < |t| ==> IsDigitOrUnderscore(t[i])
    ensures r.Some? && r.value < 0 ==> Strip(s)[0] == '-'
  {
    var t := Strip(s);
    if |t| > 0 && (t[0] == '+' || t[0] == '-') then
      var body := t[1..];
      if IsDigitRun(body) then
        var v: int := DigitsValue(body);
        Some(if t[0] == '-' then -v else v)
      else None
    else if IsDigitRun(t) then Some(DigitsValue(t))
    else None
  }

  /** `str(n)` for a natural number. */
  function NatToDecimal(n: nat): (r: string)
    ensures |r| > 0 && IsDigit(r[0]) && IsDigit(r[|r| - 1])
    ensures forall i :: 0 <= i < |r| ==> IsDigit(r[i])
  {
    var last := ('0' as int + n % 10) as char;
    if n < 10 then [last] else NatToDecimal(n / 10) + [last]
  }

  /** `str(i)` */
  function IntToDecimal(i: int): string {
    if i < 0 then "-" + NatToDecimal(-i) else NatToDecimal(i)
  }

  lemma {:induction false} NatToDecimalValue(n: nat)
    ensures DigitsValue(NatToDecimal(n)) == n
  {
    var r := NatToDecimal(n);
    if n >= 10 {
      NatToDecimalValue(n / 10);
      assert r[..|r| - 1] == NatToDecimal(n / 10);
    }
  }

  /** Text that neither starts nor ends with whitespace is already stripped. */
  lemma StripUnpadded(s: string)
    requires s != [] && !IsPySpace(s[0]) && !IsPySpace(s[|s| - 1])
    ensures Strip(s) == s
  {
    assert TrimStart(s) == s;
  }

  lemma DecimalIsDigitRun(n: nat)
    ensures IsDigitRun(NatToDecimal(n))
  {
  }

  /** `int(str(i)) == i` for every integer. */
  lemma ParseIntRoundTrip(i: int)
    ensures ParseInt(IntToDecimal(i)) == Some(i)
  {
    var s := IntToDecimal(i);
    var n: nat := if i < 0 then -i else i;
    var digits := NatToDecimal(n);
    NatToDecimalValue(n);
    DecimalIsDigitRun(n);
    if i < 0 {
      assert s == "-" + digits;
      assert s[|s| - 1] == digits[|digits| - 1];
      StripUnpadded(s);
      assert s[1..] == digits;
    } else {
      assert s == digits;
      ParseDigitRun(digits);
    }
  }

  /** A letter, a dot or any other character that is neither a digit, an
      underscore nor a sign, left after stripping, makes `int()` fail. */
  lemma ParseIntRejectsOtherCharacters(s: string, i: nat)
    requires i < |Strip(s)|
    requires !IsDigitOrUnderscore(Strip(s)[i]) && Strip(s)[i] != '+' && Strip(s)[i] != '-'
    ensures ParseInt(s) == None
  {
    var t := Strip(s);
    if |t| > 0 && (t[0] == '+' || t[0] == '-') {
      assert t[1..][i - 1] == t[i];
    }
  }

  /** The information separators U+001C to U+001F are not whitespace to
      `int()`: in front of a number they make it fail. */
  lemma SeparatorBeforeNumberFails(c: char, s: string)
    requires '\U{1C}' <= c <= '\U{1F}'
    ensures ParseInt([c] + s) == None
  {
    var u := [c] + s;
    assert TrimStart(u) == u;
    TrimEndKeepsFirst(u);
    ParseIntRejectsOtherCharacters(u, 0);
  }

  /** Stripping the end never removes a first character that is not
      whitespace. */
  lemma {:induction false} TrimEndKeepsFirst(s: string)
    requires s != [] && !IsPySpace(s[0])
    ensures TrimEnd(s) != [] && TrimEnd(s)[0] == s[0]
  {
    if |s| > 1 && IsPySpace(s[|s| - 1]) {
      TrimEndKeepsFirst(s[..|s| - 1]);
    }
  }

  /** Whitespace around the number does not change its value. */
  lemma ParseIntIgnoresPadding(front: string, s: string, back: string)
    requires forall i :: 0 <= i < |front| ==> IsPySpace(front[i])
    requires forall i :: 0 <= i < |back| ==> IsPySpace(back[i])
    requires s != [] && !IsPySpace(s[0]) && !IsPySpace(s[|s| - 1])
    ensures ParseInt(front + s + back) == ParseInt(s)
  {
    StripPadded(front, s, back);
    StripUnpadded(s);
  }

  lemma StripPadded(front: string, s: string, back: string)
    requires forall i :: 0 <= i < |front| ==> IsPySpace(front[i])
    requires forall i :: 0 <= i < |back| ==> IsPySpace(back[i])
    requires s != [] && !IsPySpace(s[0]) && !IsPySpace(s[|s| - 1])
    ensures Strip(front + s + back) == s
  {
    TrimStartSkips(front, s + back);
    assert front + s + back == front + (s + back);
    assert TrimStart(s + back) == s + back;
    TrimEndSkips(s, back);
    assert TrimEnd(s) == s;
  }

  lemma {:induction false} TrimStartSkips(front: string, u: string)
    requires forall i :: 0 <= i < |front| ==> IsPySpace(front[i])
    ensures TrimStart(front + u) == TrimStart(u)
  {
    if front == [] {
      assert front + u == u;
    } else {
      assert (front + u)[1..] == front[1..] + u;
      TrimStartSkips(front[1..], u);
    }
  }

  lemma {:induction false} TrimEndSkips(v: string, back: string)
    requires forall i :: 0 <= i < |back| ==> IsPySpace(back[i])
    ensures TrimEnd(v + back) == TrimEnd(v)
  {
    if back == [] {
      assert v + back == v;
    } else {
      var shorter := back[..|back| - 1];
      assert (v + back)[..|v + back| - 1] == v + shorter;
      TrimEndSkips(v, shorter);
    }
  }

  /** Leading zeros do not change the value: `int("02024") == 2024`. */
  lemma ParseIntLeadingZeros(zeros: string, n: nat)
    requires forall i :: 0 <= i < |zeros| ==> zeros[i] == '0'
    ensures ParseInt(zeros + NatToDecimal(n)) == Some(n)
  {
    var digits := NatToDecimal(n);
    NatToDecimalValue(n);
    AllDigitsRun(zeros + digits);
    ParseDigitRun(zeros + digits);
    DigitsValueOfZeros(zeros);
    DigitsValueSameSuffix(zeros, [], digits);
    assert [] + digits == digits;
  }

  /** Digits alone, without underscores, form a valid run. */
  lemma AllDigitsRun(t: string)
    requires t != [] && forall i :: 0 <= i < |t| ==> IsDigit(t[i])
    ensures IsDigitRun(t)
  {
  }

  /** A digit run alone is read as its decimal value. */
  lemma ParseDigitRun(t: string)
    requires IsDigitRun(t)
    ensures ParseInt(t) == Some(DigitsValue(t))
  {
    assert t[0] != '+' && t[0] != '-';
    assert !IsPySpace(t[0]) && !IsPySpace(t[|t| - 1]);
    StripUnpadded(t);
  }

  /** A plus sign in front is accepted and changes nothing. */
  lemma ParseIntPlusSign(n: nat)
    ensures ParseInt("+" + NatToDecimal(n)) == Some(n)
  {
    var digits := NatToDecimal(n);
    var s := "+" + digits;
    NatToDecimalValue(n);
    DecimalIsDigitRun(n);
    assert s[|s| - 1] == digits[|digits| - 1];
    StripUnpadded(s);
    assert s[1..] == digits;
  }

  /** An underscore between two digit runs is skipped: `int("20_24") == 2024`. */
  lemma ParseIntSkipsUnderscore(x: string, y: string)
    requires x != [] && forall i :: 0 <= i < |x| ==> IsDigit(x[i])
    requires y != [] && forall i :: 0 <= i < |y| ==> IsDigit(y[i])
    ensures ParseInt(x + "_" + y).Some?
    ensures ParseInt(x + "_" + y) == ParseInt(x + y)
  {
    var with := x + "_" + y;
    var without := x + y;
    UnderscoreJoinIsDigitRun(x, y);
    ParseDigitRun(with);
    ParseDigitRun(without);
    assert (x + "_")[..|x|] == x;
    DigitsValueSameSuffix(x + "_", x, y);
  }

  lemma UnderscoreJoinIsDigitRun(x: string, y: string)
    requires x != [] && forall i :: 0 <= i < |x| ==> IsDigit(x[i])
    requires y != [] && forall i :: 0 <= i < |y| ==> IsDigit(y[i])
    ensures IsDigitRun(x + y)
    ensures IsDigitRun(x + "_" + y)
  {
    var with := x + "_" + y;
    assert with[0] == x[0] && with[|with| - 1] == y[|y| - 1];
    forall i | 0 <= i < |with| - 1 && with[i] == '_' ensures with[i + 1] != '_' {
      assert i == |x|;
    }
  }

  lemma {:induction false} DigitsValueOfZeros(zeros: string)
    requires forall i :: 0 <= i < |zeros| ==> zeros[i] == '0'
    ensures forall i :: 0 <= i < |zeros| ==> IsDigitOrUnderscore(zeros[i])
    ensures DigitsValue(zeros) == 0
  {
    if zeros != [] {
      DigitsValueOfZeros(zeros[..|zeros| - 1]);
    }
  }

  /** Two digit texts of equal value keep equal values when the same digits
      follow them. */
  lemma {:induction false} DigitsValueSameSuffix(x: string, x2: string, y: string)
    requires forall i :: 0 <= i < |x| ==> IsDigitOrUnderscore(x[i])
    requires forall i :: 0 <= i < |x2| ==> IsDigitOrUnderscore(x2[i])
    requires forall i :: 0 <= i < |y| ==> IsDigitOrUnderscore(y[i])
    requires DigitsValue(x) == DigitsValue(x2)
    ensures DigitsValue(x + y) == DigitsValue(x2 + y)
  {
    if y == [] {
      assert x + y == x && x2 + y == x2;
    } else {
      var shorter := y[..|y| - 1];
      assert (x + y)[..|x + y| - 1] == x + shorter;
      assert (x2 + y)[..|x2 + y| - 1] == x2 + shorter;
      DigitsValueSameSuffix(x, x2, shorter);
    }
  }
}
