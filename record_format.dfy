/** The text form of one measurement in the log: the line storeToFS writes
    with `printf("%lu,%.2f,%.2f,%d\n", ...)` and the acceptance test the
    replay applies to each line it reads: length at least 5, and
    `sscanf(line, "%lu,%f,%f,%d", ...)` converting all four fields.
    Temperatures are hundredths of a degree Celsius, so `%.2f` is exact. */
module RecordFormat {
  import opened Wrappers
  import opened Numerals
  import opened Clock

  /** One measurement as storeToFS writes it: the millis() stamp, the two
      temperatures in hundredths of a degree, and the signal strength. */
  datatype Sample = Sample(stamp: U32, t1: int, t2: int, rssi: int)

  /** A number as `%f` reads it, exactly: mantissa * 10^exponent. */
  datatype Decimal = Decimal(mantissa: int, exponent: int)

  /** The four values `sscanf("%lu,%f,%f,%d")` stores. */
  datatype Fields = Fields(stamp: int, t1: Decimal, t2: Decimal, rssi: int)

  /** A converted value and the text after it. */
  datatype Scanned<T> = Scanned(value: T, rest: string)

  /** Lines shorter than this are skipped before parsing. */
  const MinLineLength: nat := 5

  function Abs(i: int): nat {
    if i < 0 then -i else i
  }

  function Signed(negative: bool, n: nat): int {
    if negative then -(n as int) else n
  }

  function SignText(negative: bool): string {
    if negative then "-" else ""
  }

  // ---------------------------------------------------------------------
  // Writing

  /** `%d` (and `%lu` for a non-negative value). */
  function IntegerText(i: int): string {
    SignText(i < 0) + Numeral(Abs(i))
  }

  /** `%.2f` of c/100: sign, whole degrees, a point, exactly two decimals. */
  function CentiText(c: int): string {
    SignText(c < 0) + Numeral(Abs(c) / 100) + "." + TwoDigits(Abs(c) % 100)
  }

  /** The two decimals of `%.2f`, leading zero included. */
  function TwoDigits(r: nat): (f: string)
    requires r < 100
    ensures |f| == 2 && AllDigits(f)
  {
    [DigitChar(r / 10), DigitChar(r % 10)]
  }

  /** The line storeToFS appends, without its terminating newline. */
  function FormatLine(s: Sample): string {
    Numeral(s.stamp) + "," + CentiText(s.t1) + "," + CentiText(s.t2) + "," + IntegerText(s.rssi)
  }

  /** The values a correct parse of `FormatLine(s)` must produce. */
  function FieldsOf(s: Sample): Fields {
    Fields(s.stamp, Decimal(s.t1, -2), Decimal(s.t2, -2), s.rssi)
  }

  // ---------------------------------------------------------------------
  // Reading

  /** White space as C's isspace sees it. */
  predicate IsSpace(c: char) {
    c == ' ' || c == '\t' || c == '\n' || c == '\U{B}' || c == '\U{C}' || c == '\r'
  }

  /** What `line.c_str()` shows to sscanf: the text before the first NUL. */
  function CString(s: string): (r: string)
    ensures r <= s && '\0' !in r
    ensures |r| < |s| ==> s[|r|] == '\0'
  {
    if s == [] || s[0] == '\0' then [] else [s[0]] + CString(s[1..])
  }

  /** Numeric conversions start by skipping white space. */
  function SkipSpace(s: string): (r: string)
    ensures |r| <= |s| && r == s[|s| - |r|..]
    ensures r == [] || !IsSpace(r[0])
  {
    if s != [] && IsSpace(s[0]) then SkipSpace(s[1..]) else s
  }

  /** Everything SkipSpace passes over is white space, so what it returns
      starts at the first non-space character. */
  lemma {:induction false} SkippedIsSpace(s: string)
    ensures forall i :: 0 <= i < |s| - |SkipSpace(s)| ==> IsSpace(s[i])
  {
    if s != [] && IsSpace(s[0]) {
      SkippedIsSpace(s[1..]);
      assert forall i :: 1 <= i < |s| - |SkipSpace(s)| ==> s[i] == s[1..][i - 1];
    }
  }

  /** An optional '+' or '-': whether it was '-', and the text after it. */
  function ScanSign(s: string): (bool, string) {
    if s != [] && (s[0] == '+' || s[0] == '-') then (s[0] == '-', s[1..]) else (false, s)
  }

  /** A literal character of the format string: it must be the next input
      character (no white space is skipped). */
  function Expect(c: char, s: string): Option<string> {
    if s != [] && s[0] == c then Some(s[1..]) else None
  }

  /** `%d` and `%lu`: white space, an optional sign, one or more digits. */
  function ScanInteger(s: string): Option<Scanned<int>> {
    var (negative, t) := ScanSign(SkipSpace(s));
    ScanDigits(negative, t)
  }

  /** The digits of an integer conversion, after its sign. */
  function ScanDigits(negative: bool, t: string): Option<Scanned<int>> {
    var n := DigitSpan(t);
    if n == 0 then None else Some(Scanned(Signed(negative, DigitsValue(t[..n])), t[n..]))
  }

  /** The exponent part of a `%f` number. An 'e' or 'E' that no digits
      follow is not part of the number. */
  function ScanExponent(s: string): Scanned<int> {
    if s != [] && (s[0] == 'e' || s[0] == 'E') then
      var (negative, t) := ScanSign(s[1..]);
      var n := DigitSpan(t);
      if n == 0 then Scanned(0, s) else Scanned(Signed(negative, DigitsValue(t[..n])), t[n..])
    else
      Scanned(0, s)
  }

  /** `%f`: white space, an optional sign, digits with an optional decimal
      point (at least one digit in all), an optional exponent. */
  function ScanFloat(s: string): Option<Scanned<Decimal>> {
    var (negative, t) := ScanSign(SkipSpace(s));
    ScanMantissa(negative, t)
  }

  /** The digits, decimal point and exponent of a `%f` number. */
  function ScanMantissa(negative: bool, t: string): Option<Scanned<Decimal>> {
    var a := DigitSpan(t);
    var u := t[a..];
    if u != [] && u[0] == '.' then
      var b := DigitSpan(u[1..]);
      if a + b == 0 then None
      else
        var digits := t[..a] + u[1..][..b];
        assert AllDigits(digits);
        var e := ScanExponent(u[1..][b..]);
        Some(Scanned(Decimal(Signed(negative, DigitsValue(digits)), e.value - b), e.rest))
    else if a == 0 then None
    else
      var e := ScanExponent(u);
      Some(Scanned(Decimal(Signed(negative, DigitsValue(t[..a])), e.value), e.rest))
  }

  /** `sscanf(line.c_str(), "%lu,%f,%f,%d", ...) == 4`, with the values it
      stores: sscanf sees the line up to its first NUL. */
  function ScanLine(line: string): Option<Fields> {
    ScanFields(CString(line))
  }

  /** The four conversions and the commas between them over the text sscanf
      sees. Text after the last field is ignored. */
  function ScanFields(text: string): Option<Fields> {
    var ts :- ScanInteger(text);
    var r1 :- Expect(',', ts.rest);
    var t1 :- ScanFloat(r1);
    var r2 :- Expect(',', t1.rest);
    var t2 :- ScanFloat(r2);
    var r3 :- Expect(',', t2.rest);
    var rssi :- ScanInteger(r3);
    Some(Fields(ts.value, t1.value, t2.value, rssi.value))
  }

  /** The replay's acceptance test for one line: too short, or not four
      fields, and the line is skipped. */
  function AcceptLine(line: string): Option<Fields> {
    if |line| < MinLineLength then None else ScanLine(line)
  }

  // ---------------------------------------------------------------------
  // Round trip

  lemma ScanIntegerText(i: int, rest: string)
    requires rest == [] || !IsDigit(rest[0])
    ensures ScanInteger(IntegerText(i) + rest) == Some(Scanned(i, rest))
  {
    var d := Numeral(Abs(i));
    var t := d + rest;
    var s := IntegerText(i) + rest;
    assert s == SignText(i < 0) + t;
    SignedNumeral(i < 0, d, rest);
    assert ScanInteger(s) == ScanDigits(i < 0, t);
    SpanOfDigits(d, rest);
    NumeralValue(Abs(i));
  }

  /** A sign (or none) followed by a numeral is read as that sign. */
  lemma SignedNumeral(negative: bool, d: string, rest: string)
    requires d != [] && IsDigit(d[0])
    ensures ScanSign(SkipSpace(SignText(negative) + (d + rest))) == (negative, d + rest)
  {
    var s := SignText(negative) + (d + rest);
    if negative {
      assert s[0] == '-' && s[1..] == d + rest;
    } else {
      assert s == d + rest && IsDigit(s[0]);
    }
  }

  lemma ScanFloatCenti(c: int, rest: string)
    requires rest == [] || !(IsDigit(rest[0]) || rest[0] == 'e' || rest[0] == 'E')
    ensures ScanFloat(CentiText(c) + rest) == Some(Scanned(Decimal(c, -2), rest))
  {
    var w := Numeral(Abs(c) / 100);
    var f := TwoDigits(Abs(c) % 100);
    calc {
      ScanFloat(CentiText(c) + rest);
    == { CentiTextParts(c, rest); }
      ScanFloat(SignText(c < 0) + (w + (['.'] + f + rest)));
    == { ScanFloatParts(c < 0, w, f, rest); }
      Some(Scanned(Decimal(Signed(c < 0, DigitsValue(w + f)), -2), rest));
    == { CentiDigitsValue(Abs(c)); }
      Some(Scanned(Decimal(c, -2), rest));
    }
  }

  /** A sign, digits, a point and two decimals are read as a number with
      exponent -2. */
  lemma ScanFloatParts(negative: bool, w: string, f: string, rest: string)
    requires |w| >= 1 && AllDigits(w) && |f| == 2 && AllDigits(f)
    requires rest == [] || !(IsDigit(rest[0]) || rest[0] == 'e' || rest[0] == 'E')
    ensures AllDigits(w + f)
    ensures ScanFloat(SignText(negative) + (w + (['.'] + f + rest)))
        == Some(Scanned(Decimal(Signed(negative, DigitsValue(w + f)), -2), rest))
  {
    SignedNumeral(negative, w, ['.'] + f + rest);
    MantissaWithTwoDecimals(negative, w, f, rest);
  }

  lemma CentiTextParts(c: int, rest: string)
    ensures CentiText(c) + rest
         == SignText(c < 0) + (Numeral(Abs(c) / 100) + (['.'] + TwoDigits(Abs(c) % 100) + rest))
  {
  }

  /** Digits, a point and two decimals are read as a number with exponent -2. */
  lemma MantissaWithTwoDecimals(negative: bool, w: string, f: string, rest: string)
    requires |w| >= 1 && AllDigits(w) && |f| == 2 && AllDigits(f)
    requires rest == [] || !(IsDigit(rest[0]) || rest[0] == 'e' || rest[0] == 'E')
    ensures AllDigits(w + f)
    ensures ScanMantissa(negative, w + (['.'] + f + rest))
        == Some(Scanned(Decimal(Signed(negative, DigitsValue(w + f)), -2), rest))
  {
    var t := w + (['.'] + f + rest);
    SpanOfDigits(w, ['.'] + f + rest);
    var u := t[|w|..];
    assert u[1..] == f + rest;
    SpanOfDigits(f, rest);
    assert ScanExponent(rest) == Scanned(0, rest);
    assert t[..|w|] + u[1..][..2] == w + f;
  }

  /** Whole degrees followed by the two decimals read back as hundredths. */
  lemma CentiDigitsValue(m: nat)
    ensures AllDigits(Numeral(m / 100) + TwoDigits(m % 100))
    ensures DigitsValue(Numeral(m / 100) + TwoDigits(m % 100)) == m
  {
    var w := Numeral(m / 100);
    var f := TwoDigits(m % 100);
    NumeralValue(m / 100);
    DigitsValueSnoc(w, f[0]);
    DigitsValueSnoc(w + [f[0]], f[1]);
    assert w + f == w + [f[0]] + [f[1]];
    HundredsTensUnits(m);
  }

  lemma HundredsTensUnits(m: nat)
    ensures 10 * (10 * (m / 100) + m % 100 / 10) + m % 100 % 10 == m
  {
    var q, r := m / 100, m % 100;
    assert m == 100 * q + r;
  }

  /** Every character of a written line is a digit, '-', ',' or '.'. */
  predicate LineChar(c: char) {
    IsDigit(c) || c == '-' || c == ',' || c == '.'
  }

  lemma TextChars(t: string)
    requires t == SignText(true) || t == SignText(false) || AllDigits(t) || t == "," || t == "."
    ensures forall k :: 0 <= k < |t| ==> LineChar(t[k])
  {
  }

  lemma CentiTextChars(c: int)
    ensures forall k :: 0 <= k < |CentiText(c)| ==> LineChar(CentiText(c)[k])
  {
    TextChars(SignText(c < 0));
    TextChars(Numeral(Abs(c) / 100));
    TextChars(TwoDigits(Abs(c) % 100));
  }

  /** A written line holds no NUL and no line break: it is one line of the
      file and sscanf sees all of it. */
  lemma FormatLineChars(s: Sample)
    ensures forall i :: 0 <= i < |FormatLine(s)| ==> LineChar(FormatLine(s)[i])
    ensures '\n' !in FormatLine(s) && CString(FormatLine(s)) == FormatLine(s)
  {
    CentiTextChars(s.t1);
    CentiTextChars(s.t2);
    TextChars(Numeral(s.stamp));
    TextChars(SignText(s.rssi < 0));
    TextChars(Numeral(Abs(s.rssi)));
    var l := FormatLine(s);
    assert forall i :: 0 <= i < |l| ==> LineChar(l[i]);
    NoNulString(l);
  }

  lemma {:induction false} NoNulString(l: string)
    requires forall i :: 0 <= i < |l| ==> l[i] != '\0'
    ensures CString(l) == l
  {
    if l != [] {
      NoNulString(l[1..]);
    }
  }

  /** ScanLine succeeds when each conversion and each comma does. */
  lemma ScanLineSteps(l: string, ts: Scanned<int>, x1: string, t1: Scanned<Decimal>, x2: string,
                      t2: Scanned<Decimal>, x3: string, rssi: Scanned<int>)
    requires ScanInteger(CString(l)) == Some(ts)
    requires Expect(',', ts.rest) == Some(x1) && ScanFloat(x1) == Some(t1)
    requires Expect(',', t1.rest) == Some(x2) && ScanFloat(x2) == Some(t2)
    requires Expect(',', t2.rest) == Some(x3) && ScanInteger(x3) == Some(rssi)
    ensures ScanLine(l) == Some(Fields(ts.value, t1.value, t2.value, rssi.value))
  {
  }

  lemma FormatLineLayout(s: Sample, tail: string)
    ensures var tail3 := "," + (IntegerText(s.rssi) + tail);
      var tail2 := "," + (CentiText(s.t2) + tail3);
      var tail1 := "," + (CentiText(s.t1) + tail2);
      FormatLine(s) + tail == IntegerText(s.stamp) + tail1 && |FormatLine(s)| >= MinLineLength
  {
    var n, a, b, r := Numeral(s.stamp), CentiText(s.t1), CentiText(s.t2), IntegerText(s.rssi);
    assert IntegerText(s.stamp) == n by {
      assert SignText(false) + n == n;
    }
    calc {
      FormatLine(s) + tail;
      n + "," + a + "," + b + "," + r + tail;
      n + ("," + (a + ("," + (b + ("," + (r + tail))))));
    }
    assert |a| >= 4;
  }

  /** A line written by storeToFS passes the replay's length check and parses
      back to the same stamp, temperatures (two decimals) and signal strength,
      also when text that does not continue the last number follows it (the
      carriage returns a requeue adds). A NUL in that text makes no
      difference: `c_str()` cuts the line there, after the last digit. */
  lemma FormatThenAccept(s: Sample, tail: string)
    requires tail == [] || !IsDigit(tail[0])
    ensures AcceptLine(FormatLine(s) + tail) == Some(FieldsOf(s))
  {
    var line := FormatLine(s);
    var t := CString(tail);
    assert CString(line + tail) == CString(line + t) by {
      FormatLineChars(s);
      CStringAppend(line, tail);
      CStringAppend(line, t);
      NoNulString(t);
    }
    assert AcceptLine(line + t) == Some(FieldsOf(s)) by {
      assert t == [] || t[0] == tail[0];
      FormatThenAcceptNulFree(s, t);
    }
    AcceptSeesCString(line + tail, line + t);
  }

  /** The acceptance test looks at the length and at `c_str()` only. */
  lemma AcceptSeesCString(a: string, b: string)
    requires CString(a) == CString(b) && |a| >= MinLineLength && |b| >= MinLineLength
    ensures AcceptLine(a) == AcceptLine(b)
  {
  }

  /** `c_str()` of text that starts with a NUL-free part: that part, then
      what `c_str()` shows of the rest. */
  lemma {:induction false} CStringAppend(p: string, x: string)
    requires '\0' !in p
    ensures CString(p + x) == p + CString(x)
  {
    if p == [] {
      assert p + x == x;
    } else {
      assert (p + x)[0] == p[0] && (p + x)[1..] == p[1..] + x;
      assert '\0' !in p[1..] by {
        assert forall c | c in p[1..] :: c in p;
      }
      CStringAppend(p[1..], x);
    }
  }

  /** The round trip for a NUL-free tail, conversion by conversion. */
  lemma FormatThenAcceptNulFree(s: Sample, tail: string)
    requires '\0' !in tail && (tail == [] || !IsDigit(tail[0]))
    ensures AcceptLine(FormatLine(s) + tail) == Some(FieldsOf(s))
  {
    var a := CentiText(s.t1);
    var b := CentiText(s.t2);
    var r := IntegerText(s.rssi);
    var tail3 := "," + (r + tail);
    var tail2 := "," + (b + tail3);
    var tail1 := "," + (a + tail2);
    var l := FormatLine(s) + tail;
    FormatLineLayout(s, tail);
    assert ScanInteger(CString(l)) == Some(Scanned(s.stamp as int, tail1)) by {
      FormatLineChars(s);
      assert forall i :: 0 <= i < |l| ==> l[i] != '\0' by {
        forall i | 0 <= i < |l|
          ensures l[i] != '\0'
        {
          if i < |FormatLine(s)| {
            assert LineChar(FormatLine(s)[i]);
          } else {
            assert l[i] == tail[i - |FormatLine(s)|];
          }
        }
      }
      NoNulString(l);
      ScanIntegerText(s.stamp, tail1);
    }
    assert Expect(',', tail1) == Some(a + tail2) by {
      assert tail1[1..] == a + tail2;
    }
    assert ScanFloat(a + tail2) == Some(Scanned(Decimal(s.t1, -2), tail2)) by {
      ScanFloatCenti(s.t1, tail2);
    }
    assert Expect(',', tail2) == Some(b + tail3) by {
      assert tail2[1..] == b + tail3;
    }
    assert ScanFloat(b + tail3) == Some(Scanned(Decimal(s.t2, -2), tail3)) by {
      ScanFloatCenti(s.t2, tail3);
    }
    assert Expect(',', tail3) == Some(r + tail) by {
      assert tail3[1..] == r + tail;
    }
    assert ScanInteger(r + tail) == Some(Scanned(s.rssi, tail)) by {
      ScanIntegerText(s.rssi, tail);
    }
    ScanLineSteps(l, Scanned(s.stamp as int, tail1), a + tail2, Scanned(Decimal(s.t1, -2), tail2),
      b + tail3, Scanned(Decimal(s.t2, -2), tail3), r + tail, Scanned(s.rssi, tail));
  }
}
