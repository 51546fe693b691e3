/**
 Display text of a weight and the parser the write path applies to it.

 A weight is an integer number of tenths of a kilogram (845 stands for 84.5 kg).
 The display uses a comma as the decimal separator; the write path deletes every
 comma and reads the rest as a Python 2 `int`.
 */
module WeightText {
  import opened Wrappers

  /**
   Below this magnitude `str(weight / 10.0)` in Python 2 (twelve significant
   digits, `%.12g`, followed by ".0" when no point is printed) shows the exact
   decimal value with one fractional digit and never switches to exponent notation.
   */
  const FloatExactBound: int := 1_000_000_000_000

  predicate InFloatRange(w: int) {
    -FloatExactBound < w < FloatExactBound
  }

  predicate IsDigit(c: char) {
    '0' <= c <= '9'
  }

  predicate AllDigits(s: string) {
    forall i :: 0 <= i < |s| ==> IsDigit(s[i])
  }

  function DigitChar(d: int): (c: char)
    requires 0 <= d < 10
    ensures IsDigit(c)
  {
    (('0' as int) + d) as char
  }

  function DigitValue(c: char): (d: nat)
    requires IsDigit(c)
  {
    c as int - '0' as int
  }

  /** The value of a string of decimal digits, most significant first. */
  function DigitsValue(s: string): nat
    requires AllDigits(s)
  {
    if s == [] then 0 else DigitsValue(s[..|s| - 1]) * 10 + DigitValue(s[|s| - 1])
  }

  /** Python's decimal rendering of a non-negative integer: no sign, no leading zero. */
  function NatToDecimal(n: nat): (s: string)
    ensures |s| > 0 && AllDigits(s)
    ensures |s| > 1 ==> s[0] != '0'
    ensures DigitsValue(s) == n
  {
    if n < 10 then
      [DigitChar(n)]
    else
      var prefix := NatToDecimal(n / 10);
      var s := prefix + [DigitChar(n % 10)];
      assert s[..|s| - 1] == prefix;
      s
  }

  /**
   `str(w / 10.0)` in Python 2 for a weight in the exactly representable range:
   a minus sign exactly for a negative weight, the whole kilograms without a
   leading zero, a point, and the tenths as one digit; read back, the digits
   give the magnitude of `w` in tenths.
   */
  function FloatText(w: int): (r: string)
    requires InFloatRange(w)
    ensures var lead := if w < 0 then 1 else 0;
      && lead < |r| - 2 && r[|r| - 2] == '.' && IsDigit(r[|r| - 1])
      && (r[0] == '-' <==> w < 0)
      && AllDigits(r[lead..|r| - 2])
      && (|r| - 2 - lead > 1 ==> r[lead] != '0')
      && DigitsValue(r[lead..|r| - 2]) * 10 + DigitValue(r[|r| - 1]) == (if w < 0 then -w else w)
  {
    var magnitude := if w < 0 then -w else w;
    var sign := if w < 0 then "-" else "";
    var digits := NatToDecimal(magnitude / 10);
    var r := sign + digits + "." + [DigitChar(magnitude % 10)];
    assert r[|sign|..|r| - 2] == digits;
    assert digits[0] == r[|sign|];
    r
  }

  /** `s.replace(from, to)` for single characters. */
  function ReplaceChar(s: string, from: char, to: char): (r: string)
    ensures |r| == |s|
    ensures forall i :: 0 <= i < |s| ==> r[i] == if s[i] == from then to else s[i]
  {
    if s == [] then [] else [if s[0] == from then to else s[0]] + ReplaceChar(s[1..], from, to)
  }

  /** The non-zero branch shared by both variants of `format_weight`. */
  function FormatNonZero(w: int): string
    requires InFloatRange(w)
  {
    (if w < 10 then "0" else "") + ReplaceChar(FloatText(w), '.', ',')
  }

  /** Replacing the point of "<head>.<c>" gives "<head>,<c>" when `head` has no point. */
  lemma ReplacePoint(head: string, c: char)
    requires '.' !in head && c != '.'
    ensures ReplaceChar(head + "." + [c], '.', ',') == head + [',', c]
  {
    var s := head + "." + [c];
    var r := ReplaceChar(s, '.', ',');
    forall i | 0 <= i < |r| ensures r[i] == (head + [',', c])[i] {
      if i < |head| {
        assert s[i] == head[i];
      }
    }
  }

  lemma FormatNonZeroShape(w: int)
    requires InFloatRange(w)
    ensures 0 <= w < 10 ==> FormatNonZero(w) == ['0', '0', ',', DigitChar(w)]
    ensures 10 <= w ==> FormatNonZero(w) == NatToDecimal(w / 10) + [',', DigitChar(w % 10)]
    ensures w < 0 ==> FormatNonZero(w) == "0-" + NatToDecimal(-w / 10) + [',', DigitChar(-w % 10)]
  {
    if w < 0 {
      FormatNegativeShape(w);
    } else if w < 10 {
      FormatSmallShape(w);
    } else {
      FormatLargeShape(w);
    }
  }

  lemma FloatTextParts(w: int)
    requires InFloatRange(w)
    ensures var m := if w < 0 then -w else w;
      FloatText(w) == (if w < 0 then "-" else "") + NatToDecimal(m / 10) + "." + [DigitChar(m % 10)]
  {
  }

  lemma NoPointInDigits(digits: string)
    requires AllDigits(digits)
    ensures '.' !in digits
  {
    assert forall i :: 0 <= i < |digits| ==> digits[i] != '.';
  }

  lemma FormatNegativeShape(w: int)
    requires InFloatRange(w) && w < 0
    ensures FormatNonZero(w) == "0-" + NatToDecimal(-w / 10) + [',', DigitChar(-w % 10)]
  {
    var digits := NatToDecimal(-w / 10);
    var head := "-" + digits;
    NoPointInDigits(digits);
    FloatTextParts(w);
    assert FloatText(w) == head + "." + [DigitChar(-w % 10)];
    ReplacePoint(head, DigitChar(-w % 10));
    assert "0" + (head + [',', DigitChar(-w % 10)]) == "0-" + digits + [',', DigitChar(-w % 10)];
  }

  lemma FormatSmallShape(w: int)
    requires 0 <= w < 10
    ensures FormatNonZero(w) == ['0', '0', ',', DigitChar(w)]
  {
    assert NatToDecimal(w / 10) == "0";
    FloatTextParts(w);
    assert FloatText(w) == "0" + "." + [DigitChar(w)];
    ReplacePoint("0", DigitChar(w));
  }

  lemma FormatLargeShape(w: int)
    requires InFloatRange(w) && 10 <= w
    ensures FormatNonZero(w) == NatToDecimal(w / 10) + [',', DigitChar(w % 10)]
  {
    var digits := NatToDecimal(w / 10);
    NoPointInDigits(digits);
    FloatTextParts(w);
    assert "" + digits == digits;
    assert FloatText(w) == digits + "." + [DigitChar(w % 10)];
    ReplacePoint(digits, DigitChar(w % 10));
    assert FormatNonZero(w) == "" + ReplaceChar(FloatText(w), '.', ',');
  }

  /** `format_weight` of the current program: zero is shown as "0,0". */
  function FormatWeight(w: int): (r: string)
    requires InFloatRange(w)
    ensures w == 0 ==> r == "0,0"
    ensures 0 < w < 10 ==> r == ['0', '0', ',', DigitChar(w)]
    ensures 10 <= w ==> r == NatToDecimal(w / 10) + [',', DigitChar(w % 10)]
    ensures w < 0 ==> r == "0-" + NatToDecimal(-w / 10) + [',', DigitChar(-w % 10)]
  {
    FormatNonZeroShape(w);
    if w == 0 then "0,0" else FormatNonZero(w)
  }

  /** `format_weight` of the legacy program: zero is shown as "00,0". */
  function LegacyFormatWeight(w: int): (r: string)
    requires InFloatRange(w)
    ensures w == 0 ==> r == "00,0"
    ensures w != 0 ==> r == FormatWeight(w)
  {
    if w == 0 then "00,0" else FormatNonZero(w)
  }

  /** The legacy zero literal is exactly what the general rule yields for zero. */
  lemma LegacyZeroFollowsGeneralRule(w: int)
    requires InFloatRange(w)
    ensures LegacyFormatWeight(w) == FormatNonZero(w)
    ensures FormatWeight(w) != LegacyFormatWeight(w) <==> w == 0
  {
    FormatNonZeroShape(w);
    if w == 0 {
      assert FormatWeight(w)[0..2] == "0,";
      assert LegacyFormatWeight(w)[0..2] == "00";
    }
  }

  // ---------------------------------------------------------------------------
  // Parsing: int(text.replace(',', ''))
  // ---------------------------------------------------------------------------

  /** Why `int` rejects a text: it is not an integer, or a character has no byte form. */
  datatype ParseError = NotAnInteger | Unencodable

  /** The characters C's `isspace` accepts: space, tab, newline, vertical tab, form feed, return. */
  predicate IsSpace(c: char) {
    c == ' ' || c == '\t' || c == '\n' || c == '\r' || c as int == 11 || c as int == 12
  }

  predicate IsSign(c: char) {
    c == '+' || c == '-'
  }

  /**
   White space of a Python 2.7 unicode string (`Py_UNICODE_ISSPACE`, Unicode
   5.2): the C white space, the separators U+001C to U+001F, U+0085, the
   no-break space U+00A0, and the spaces and separators of the other blocks.
   */
  predicate IsUnicodeSpace(c: char) {
    var x := c as int;
    || 0x09 <= x <= 0x0D || 0x1C <= x <= 0x20 || x == 0x85 || x == 0xA0
    || x == 0x1680 || x == 0x180E || 0x2000 <= x <= 0x200A
    || x == 0x2028 || x == 0x2029 || x == 0x202F || x == 0x205F || x == 0x3000
  }

  predicate InRun(x: int, zero: int) {
    zero <= x < zero + 10
  }

  /**
   The first code point of the run of ten decimal digits (general category Nd)
   that holds `x`, or -1. The runs are those of Unicode 5.2, the character
   database of Python 2.7, in ascending order: ASCII, the scripts of the Basic
   Multilingual Plane, the fullwidth digits, Osmanya, and the five mathematical
   digit sets.
   */
  function DecimalRunStart(x: int): (z: int)
    ensures z == -1 || InRun(x, z)
  {
    if 0x0030 <= x < 0x0030 + 10 then 0x0030
    else if 0x0660 <= x < 0x0660 + 10 then 0x0660
    else if 0x06F0 <= x < 0x06F0 + 10 then 0x06F0
    else if 0x07C0 <= x < 0x07C0 + 10 then 0x07C0
    else if 0x0966 <= x < 0x0966 + 10 then 0x0966
    else if 0x09E6 <= x < 0x09E6 + 10 then 0x09E6
    else if 0x0A66 <= x < 0x0A66 + 10 then 0x0A66
    else if 0x0AE6 <= x < 0x0AE6 + 10 then 0x0AE6
    else if 0x0B66 <= x < 0x0B66 + 10 then 0x0B66
    else if 0x0BE6 <= x < 0x0BE6 + 10 then 0x0BE6
    else if 0x0C66 <= x < 0x0C66 + 10 then 0x0C66
    else if 0x0CE6 <= x < 0x0CE6 + 10 then 0x0CE6
    else if 0x0D66 <= x < 0x0D66 + 10 then 0x0D66
    else if 0x0E50 <= x < 0x0E50 + 10 then 0x0E50
    else if 0x0ED0 <= x < 0x0ED0 + 10 then 0x0ED0
    else if 0x0F20 <= x < 0x0F20 + 10 then 0x0F20
    else if 0x1040 <= x < 0x1040 + 10 then 0x1040
    else if 0x1090 <= x < 0x1090 + 10 then 0x1090
    else if 0x17E0 <= x < 0x17E0 + 10 then 0x17E0
    else if 0x1810 <= x < 0x1810 + 10 then 0x1810
    else if 0x1946 <= x < 0x1946 + 10 then 0x1946
    else if 0x19D0 <= x < 0x19D0 + 10 then 0x19D0
    else if 0x1A80 <= x < 0x1A80 + 10 then 0x1A80
    else if 0x1A90 <= x < 0x1A90 + 10 then 0x1A90
    else if 0x1B50 <= x < 0x1B50 + 10 then 0x1B50
    else if 0x1BB0 <= x < 0x1BB0 + 10 then 0x1BB0
    else if 0x1C40 <= x < 0x1C40 + 10 then 0x1C40
    else if 0x1C50 <= x < 0x1C50 + 10 then 0x1C50
    else if 0xA620 <= x < 0xA620 + 10 then 0xA620
    else if 0xA8D0 <= x < 0xA8D0 + 10 then 0xA8D0
    else if 0xA900 <= x < 0xA900 + 10 then 0xA900
    else if 0xA9D0 <= x < 0xA9D0 + 10 then 0xA9D0
    else if 0xAA50 <= x < 0xAA50 + 10 then 0xAA50
    else if 0xABF0 <= x < 0xABF0 + 10 then 0xABF0
    else if 0xFF10 <= x < 0xFF10 + 10 then 0xFF10
    else if 0x104A0 <= x < 0x104A0 + 10 then 0x104A0
    else if 0x1D7CE <= x < 0x1D7CE + 10 then 0x1D7CE
    else if 0x1D7D8 <= x < 0x1D7D8 + 10 then 0x1D7D8
    else if 0x1D7E2 <= x < 0x1D7E2 + 10 then 0x1D7E2
    else if 0x1D7EC <= x < 0x1D7EC + 10 then 0x1D7EC
    else if 0x1D7F6 <= x < 0x1D7F6 + 10 then 0x1D7F6
    else -1
  }

  /** `Py_UNICODE_TODECIMAL`: the value of a decimal digit of any script; none for other characters. */
  function DecimalValue(c: char): (r: Option<nat>)
    ensures r.Some? ==> r.value < 10
    ensures c as int < 0x80 ==> (r.Some? <==> IsDigit(c))
    ensures IsDigit(c) ==> r == Some(DigitValue(c))
  {
    var z := DecimalRunStart(c as int);
    if z == -1 then None else Some(c as int - z)
  }

  /**
   One character of `PyUnicode_EncodeDecimal`, which turns the unicode text into
   the bytes `int` reads: white space becomes a space, a decimal digit of any
   script becomes the ASCII digit of the same value, any other character from
   U+0001 to U+00FF is kept, and every other character cannot be encoded.
   */
  function EncodeChar(c: char): (r: Result<char, ParseError>)
    ensures r.Err? <==> !IsUnicodeSpace(c) && DecimalValue(c).None? && !(0 < c as int < 0x100)
    ensures r.Ok? ==> (IsSpace(r.value) <==> IsUnicodeSpace(c))
    ensures r.Ok? ==> (IsDigit(r.value) <==> DecimalValue(c).Some?)
    ensures r.Ok? && IsDigit(r.value) ==> DigitValue(r.value) == DecimalValue(c).value
    ensures r.Ok? && !IsUnicodeSpace(c) && DecimalValue(c).None? ==> r.value == c
  {
    if IsUnicodeSpace(c) then Ok(' ')
    else
      match DecimalValue(c)
      case Some(d) => Ok(DigitChar(d))
      case None => if 0 < c as int < 0x100 then Ok(c) else Err(Unencodable)
  }

  /** `PyUnicode_EncodeDecimal` of a whole text, one character at a time. */
  function EncodeDecimal(s: string): (r: Result<string, ParseError>)
    ensures r.Ok? <==> forall i :: 0 <= i < |s| ==> EncodeChar(s[i]).Ok?
    ensures r.Ok? ==> |r.value| == |s| && forall i :: 0 <= i < |s| ==> r.value[i] == EncodeChar(s[i]).value
  {
    if s == [] then Ok([])
    else
      match EncodeChar(s[0])
      case Err(e) => Err(e)
      case Ok(c) =>
        match EncodeDecimal(s[1..])
        case Err(e) => Err(e)
        case Ok(rest) => Ok([c] + rest)
  }

  /** ASCII digits and signs pass the encoding unchanged. */
  lemma EncodeAscii(s: string)
    requires forall i :: 0 <= i < |s| ==> IsDigit(s[i]) || IsSign(s[i])
    ensures EncodeDecimal(s) == Ok(s)
  {
    assert forall i :: 0 <= i < |s| ==> EncodeChar(s[i]) == Ok(s[i]);
    assert EncodeDecimal(s).value == s;
  }

  /** `s.replace(',', '')`. */
  function StripCommas(s: string): (r: string)
    ensures ',' !in r
    ensures forall c :: c in r ==> c in s
    ensures forall c :: c in s && c != ',' ==> c in r
    ensures ',' !in s ==> r == s
  {
    if s == [] then [] else (if s[0] == ',' then [] else [s[0]]) + StripCommas(s[1..])
  }

  /**
   Exactly the commas go: every other character is kept as often as it occurs,
   and the length drops by the number of commas.
   */
  lemma {:induction false} StripCommasCounts(s: string)
    ensures forall c :: c != ',' ==> multiset(StripCommas(s))[c] == multiset(s)[c]
    ensures |StripCommas(s)| == |s| - multiset(s)[',']
  {
    if s != [] {
      assert s == [s[0]] + s[1..];
      StripCommasCounts(s[1..]);
    }
  }

  /** A single character is deleted when it is a comma and kept otherwise. */
  lemma StripCommasOfOne(c: char)
    ensures StripCommas([c]) == if c == ',' then [] else [c]
  {
    assert [c][1..] == [];
  }

  lemma {:induction false} StripCommasAppend(a: string, b: string)
    ensures StripCommas(a + b) == StripCommas(a) + StripCommas(b)
  {
    if a == [] {
      assert a + b == b;
    } else {
      var ab := a + b;
      assert ab != [] && ab[0] == a[0] && ab[1..] == a[1..] + b;
      StripCommasAppend(a[1..], b);
      var head := if a[0] == ',' then [] else [a[0]];
      calc {
        StripCommas(ab);
        head + StripCommas(a[1..] + b);
        head + (StripCommas(a[1..]) + StripCommas(b));
        (head + StripCommas(a[1..])) + StripCommas(b);
      }
    }
  }

  /** The characters of `t` from `from` up to `to` are all white space. */
  predicate SpacesIn(t: string, from: nat, to: nat) {
    from <= to <= |t| && forall m :: from <= m < to ==> IsSpace(t[m])
  }

  /** The characters of `t` from `from` up to `to` are all decimal digits. */
  predicate DigitsIn(t: string, from: nat, to: nat) {
    from <= to <= |t| && forall m :: from <= m < to ==> IsDigit(t[m])
  }

  /**
   `t` reads as an integer when split at i <= j <= k < l: white space up to i,
   an optional sign from i to j, white space up to k, at least one digit up to
   l, and white space to the end.
   */
  predicate IntegerLayout(t: string, i: nat, j: nat, k: nat, l: nat) {
    && SpacesIn(t, 0, i)
    && (j == i || (j == i + 1 && i < |t| && IsSign(t[i])))
    && SpacesIn(t, j, k)
    && k < l && DigitsIn(t, k, l)
    && SpacesIn(t, l, |t|)
  }

  /** The integer a layout denotes: its digits, negated after a minus sign. */
  function LayoutValue(t: string, i: nat, j: nat, k: nat, l: nat): int
    requires IntegerLayout(t, i, j, k, l)
  {
    assert AllDigits(t[k..l]);
    var n: int := DigitsValue(t[k..l]);
    if j == i + 1 && t[i] == '-' then -n else n
  }

  /** The end of the white space that starts at `from`. */
  function SkipSpaces(t: string, from: nat): (n: nat)
    requires from <= |t|
    ensures SpacesIn(t, from, n)
    ensures n == |t| || !IsSpace(t[n])
    decreases |t| - from
  {
    if from < |t| && IsSpace(t[from]) then SkipSpaces(t, from + 1) else from
  }

  /** The end of the digits that start at `from`. */
  function SkipDigits(t: string, from: nat): (n: nat)
    requires from <= |t|
    ensures DigitsIn(t, from, n)
    ensures n == |t| || !IsDigit(t[n])
    decreases |t| - from
  {
    if from < |t| && IsDigit(t[from]) then SkipDigits(t, from + 1) else from
  }

  lemma SkipSpacesUnique(t: string, from: nat, n: nat)
    requires SpacesIn(t, from, n) && (n == |t| || !IsSpace(t[n]))
    ensures SkipSpaces(t, from) == n
  {
  }

  lemma SkipDigitsUnique(t: string, from: nat, n: nat)
    requires DigitsIn(t, from, n) && (n == |t| || !IsDigit(t[n]))
    ensures SkipDigits(t, from) == n
  {
  }

  /** Whatever layout `t` has, the scan of `ParseInt` finds the same parts and the same value. */
  lemma {:induction false} ScanFindsLayout(t: string, i: nat, j: nat, k: nat, l: nat)
    requires IntegerLayout(t, i, j, k, l)
    ensures var i' := SkipSpaces(t, 0);
      var j' := if i' < |t| && IsSign(t[i']) then i' + 1 else i';
      var k' := SkipSpaces(t, j');
      var l' := SkipDigits(t, k');
      && k' < l' && SkipSpaces(t, l') == |t|
      && IntegerLayout(t, i', j', k', l')
      && LayoutValue(t, i', j', k', l') == LayoutValue(t, i, j, k, l)
  {
    assert !IsSpace(t[k]) && !IsSign(t[k]);
    assert l == |t| || !IsDigit(t[l]) by {
      if l < |t| {
        assert IsSpace(t[l]);
      }
    }
    if j == i + 1 {
      SkipSpacesUnique(t, 0, i);
      SkipSpacesUnique(t, j, k);
    } else {
      assert SpacesIn(t, 0, k);
      SkipSpacesUnique(t, 0, k);
      SkipSpacesUnique(t, k, k);
    }
    SkipDigitsUnique(t, k, l);
    SkipSpacesUnique(t, l, |t|);
  }

  /** Every layout of `t` is found by the scan, with its value. */
  lemma {:induction false} ScanFindsEveryLayout(t: string)
    ensures forall i, j, k, l :: IntegerLayout(t, i, j, k, l) ==>
      var i' := SkipSpaces(t, 0);
      var j' := if i' < |t| && IsSign(t[i']) then i' + 1 else i';
      var k' := SkipSpaces(t, j');
      var l' := SkipDigits(t, k');
      && k' < l' && SkipSpaces(t, l') == |t|
      && IntegerLayout(t, i', j', k', l')
      && LayoutValue(t, i', j', k', l') == LayoutValue(t, i, j, k, l)
  {
    forall i, j, k, l | IntegerLayout(t, i, j, k, l)
      ensures var i' := SkipSpaces(t, 0);
        var j' := if i' < |t| && IsSign(t[i']) then i' + 1 else i';
        var k' := SkipSpaces(t, j');
        var l' := SkipDigits(t, k');
        && k' < l' && SkipSpaces(t, l') == |t|
        && IntegerLayout(t, i', j', k', l')
        && LayoutValue(t, i', j', k', l') == LayoutValue(t, i, j, k, l)
    {
      ScanFindsLayout(t, i, j, k, l);
    }
  }

  /**
   `PyInt_FromString` in base 10 on the encoded bytes: skip white space, take an
   optional sign, skip white space again, read the digits, and accept only
   white space after them. The text is accepted exactly when it has an integer
   layout, and then every layout denotes the result.
   */
  function ParseInt(t: string): (r: Result<int, ParseError>)
    ensures r.Ok? <==> exists i, j, k, l :: IntegerLayout(t, i, j, k, l)
    ensures forall i, j, k, l :: IntegerLayout(t, i, j, k, l) ==> r == Ok(LayoutValue(t, i, j, k, l))
  {
    ScanFindsEveryLayout(t);
    var i := SkipSpaces(t, 0);
    var j := if i < |t| && IsSign(t[i]) then i + 1 else i;
    var k := SkipSpaces(t, j);
    var l := SkipDigits(t, k);
    if k < l && SkipSpaces(t, l) == |t| then Ok(LayoutValue(t, i, j, k, l)) else Err(NotAnInteger)
  }

  /** A plain digit string reads as its decimal value. */
  lemma ParseIntDigits(t: string)
    requires |t| > 0 && AllDigits(t)
    ensures ParseInt(t) == Ok(DigitsValue(t))
  {
    assert IntegerLayout(t, 0, 0, 0, |t|);
    assert t[0..|t|] == t;
  }

  /** A minus sign followed by digits reads as the negated value. */
  lemma ParseIntNegative(t: string)
    requires |t| > 1 && t[0] == '-' && AllDigits(t[1..])
    ensures ParseInt(t) == Ok(0 - DigitsValue(t[1..]))
  {
    assert IntegerLayout(t, 0, 1, 1, |t|);
    assert t[1..|t|] == t[1..];
  }

  /** Bytes without a single digit are rejected. */
  lemma ParseIntNeedsDigit(t: string)
    requires forall c :: c in t ==> !IsDigit(c)
    ensures ParseInt(t).Err?
  {
    assert forall m :: 0 <= m < |t| ==> !IsDigit(t[m]);
  }

  /** A character the write path's parse can accept: a comma, a sign, white space or a decimal digit. */
  predicate WeightTextChar(c: char) {
    c == ',' || IsSign(c) || IsUnicodeSpace(c) || DecimalValue(c).Some?
  }

  /** Every byte of an integer layout is white space, a sign or a digit, and the byte at `k` is a digit. */
  lemma LayoutBytes(t: string, i: nat, j: nat, k: nat, l: nat)
    requires IntegerLayout(t, i, j, k, l)
    ensures forall m :: 0 <= m < |t| ==> IsSpace(t[m]) || IsSign(t[m]) || IsDigit(t[m])
    ensures k < |t| && IsDigit(t[k])
  {
  }

  /** A character whose encoding is white space, a sign or a digit is white space, a sign or a decimal digit. */
  lemma EncodedCharShape(c: char)
    requires EncodeChar(c).Ok?
    requires IsSpace(EncodeChar(c).value) || IsSign(EncodeChar(c).value) || IsDigit(EncodeChar(c).value)
    ensures IsSign(c) || IsUnicodeSpace(c) || DecimalValue(c).Some?
  {
  }

  /** Encoded bytes that read as an integer come from white space, signs and at least one decimal digit. */
  lemma {:induction false} EncodedIntegerShape(s: string, bytes: string)
    requires EncodeDecimal(s) == Ok(bytes) && ParseInt(bytes).Ok?
    ensures forall m :: 0 <= m < |s| ==> IsSign(s[m]) || IsUnicodeSpace(s[m]) || DecimalValue(s[m]).Some?
    ensures exists m :: 0 <= m < |s| && DecimalValue(s[m]).Some?
  {
    var i: nat, j: nat, k: nat, l: nat :| IntegerLayout(bytes, i, j, k, l);
    LayoutBytes(bytes, i, j, k, l);
    forall m | 0 <= m < |s| ensures IsSign(s[m]) || IsUnicodeSpace(s[m]) || DecimalValue(s[m]).Some? {
      EncodedCharShape(s[m]);
    }
    assert DecimalValue(s[k]).Some?;
  }

  /** The shape of an accepted comma-free text carries over to the text with its commas. */
  lemma {:induction false} StrippedShape(text: string)
    requires forall m :: 0 <= m < |StripCommas(text)| ==>
      IsSign(StripCommas(text)[m]) || IsUnicodeSpace(StripCommas(text)[m]) || DecimalValue(StripCommas(text)[m]).Some?
    requires exists m :: 0 <= m < |StripCommas(text)| && DecimalValue(StripCommas(text)[m]).Some?
    ensures exists c :: c in text && DecimalValue(c).Some?
    ensures forall c :: c in text ==> WeightTextChar(c)
  {
    var s := StripCommas(text);
    var m :| 0 <= m < |s| && DecimalValue(s[m]).Some?;
    assert s[m] in s;
    forall c | c in text ensures WeightTextChar(c) {
      if c != ',' {
        assert c in s;
        var n :| 0 <= n < |s| && s[n] == c;
      }
    }
  }

  /**
   The weight parser of the write path, `int(text.replace(',', ''))` on the
   unicode text of the request: the commas are deleted, the rest is encoded to
   bytes, and the bytes are read as an integer. An accepted text holds at least
   one decimal digit and nothing but commas, signs, white space and decimal
   digits.
   */
  function ParseWeight(text: string): (r: Result<int, ParseError>)
    ensures r.Ok? ==> exists c :: c in text && DecimalValue(c).Some?
    ensures r.Ok? ==> forall c :: c in text ==> WeightTextChar(c)
  {
    var s := StripCommas(text);
    match EncodeDecimal(s)
    case Err(e) => Err(e)
    case Ok(bytes) =>
      if ParseInt(bytes).Ok? then
        EncodedIntegerShape(s, bytes);
        StrippedShape(text);
        ParseInt(bytes)
      else
        ParseInt(bytes)
  }

  /** Text without a decimal digit of any script, commas or not, is rejected by the write path. */
  lemma ParseWeightNeedsDigit(text: string)
    requires forall c :: c in text ==> DecimalValue(c).None?
    ensures ParseWeight(text).Err?
  {
  }

  /** When the text without commas is ASCII digits and signs, the encoding changes nothing. */
  lemma ParseWeightOfAscii(text: string, s: string)
    requires StripCommas(text) == s
    requires forall i :: 0 <= i < |s| ==> IsDigit(s[i]) || IsSign(s[i])
    ensures ParseWeight(text) == ParseInt(s)
  {
    EncodeAscii(s);
  }

  /** The write path reads a text through its comma-free form and that form's bytes. */
  lemma ParseWeightVia(text: string, s: string, bytes: string)
    requires StripCommas(text) == s && EncodeDecimal(s) == Ok(bytes)
    ensures ParseWeight(text) == ParseInt(bytes)
  {
  }

  lemma EncodeFullwidth()
    ensures StripCommas("\U{FF18}\U{FF14}\U{FF15}") == "\U{FF18}\U{FF14}\U{FF15}"
    ensures EncodeDecimal("\U{FF18}\U{FF14}\U{FF15}") == Ok("845")
  {
    assert EncodeDecimal("\U{FF18}\U{FF14}\U{FF15}").value == "845";
  }

  /** Fullwidth digits read as the weight they show: "８４５" is 845. */
  lemma FullwidthWeight()
    ensures ParseWeight("\U{FF18}\U{FF14}\U{FF15}") == Ok(845)
  {
    EncodeFullwidth();
    ParseWeightVia("\U{FF18}\U{FF14}\U{FF15}", "\U{FF18}\U{FF14}\U{FF15}", "845");
    DigitsValue845();
    ParseIntDigits("845");
  }

  lemma EncodeNoBreakSpace()
    ensures StripCommas("\U{A0}845") == "\U{A0}845"
    ensures EncodeDecimal("\U{A0}845") == Ok(" 845")
  {
    assert EncodeDecimal("\U{A0}845").value == " 845";
  }

  lemma ParseSpaced845()
    ensures ParseInt(" 845") == Ok(845)
  {
    DigitsValue845();
    assert IntegerLayout(" 845", 1, 1, 1, 4);
    assert " 845"[1..4] == "845";
  }

  /** A leading no-break space is white space to `int`: "\U{A0}845" is 845. */
  lemma NoBreakSpaceWeight()
    ensures ParseWeight("\U{A0}845") == Ok(845)
  {
    EncodeNoBreakSpace();
    ParseWeightVia("\U{A0}845", "\U{A0}845", " 845");
    ParseSpaced845();
  }

  lemma DigitsValue845()
    ensures AllDigits("845") && DigitsValue("845") == 845
  {
    assert "845"[..2] == "84" && "84"[..1] == "8" && "8"[..0] == [];
  }

  lemma StripCommasOfDigits(s: string)
    requires AllDigits(s)
    ensures StripCommas(s) == s
  {
    assert forall i :: 0 <= i < |s| ==> s[i] != ',';
  }

  lemma AllDigitsAppend(a: string, b: string)
    requires AllDigits(a) && AllDigits(b)
    ensures AllDigits(a + b)
  {
    forall i | 0 <= i < |a + b| ensures IsDigit((a + b)[i]) {
      if i < |a| {
        assert (a + b)[i] == a[i];
      } else {
        assert (a + b)[i] == b[i - |a|];
      }
    }
  }

  lemma StripOneComma(a: string, b: string)
    requires AllDigits(a) && AllDigits(b)
    ensures StripCommas(a + [','] + b) == a + b
  {
    var head := a + [','];
    StripCommasAppend(a, [',']);
    StripCommasOfDigits(a);
    assert StripCommas([',']) == [];
    assert StripCommas(head) == a;
    StripCommasAppend(head, b);
    StripCommasOfDigits(b);
  }

  /** A comma between two digit strings is ignored by the write path. */
  lemma ParseWeightIgnoresComma(a: string, b: string)
    requires AllDigits(a) && AllDigits(b) && |a| + |b| > 0
    ensures AllDigits(a + b)
    ensures ParseWeight(a + [','] + b) == Ok(DigitsValue(a + b))
  {
    StripOneComma(a, b);
    AllDigitsAppend(a, b);
    ParseWeightOfAscii(a + [','] + b, a + b);
    ParseIntDigits(a + b);
  }

  lemma LeadingZeroValue(d: int)
    requires 0 <= d < 10
    ensures AllDigits(['0', '0', DigitChar(d)])
    ensures DigitsValue(['0', '0', DigitChar(d)]) == d
  {
    var s := ['0', '0', DigitChar(d)];
    assert s[..2] == ['0', '0'];
    assert ['0', '0'][..1] == ['0'];
    assert ['0'][..0] == [];
  }

  lemma StrippedZero()
    ensures StripCommas(FormatWeight(0)) == "00"
    ensures AllDigits("00") && DigitsValue("00") == 0
  {
    assert StripCommas("0,0") == "00";
    assert "00"[..1] == "0";
    assert "0"[..0] == [];
  }

  lemma StrippedSmall(w: int)
    requires 0 < w < 10
    ensures StripCommas(FormatWeight(w)) == ['0', '0', DigitChar(w)]
  {
    StripCommasAppend(['0', '0'], [',', DigitChar(w)]);
    assert ['0', '0'] + [',', DigitChar(w)] == FormatWeight(w);
    assert StripCommas([',', DigitChar(w)]) == [DigitChar(w)];
    assert StripCommas(['0', '0']) == ['0', '0'];
    assert ['0', '0'] + [DigitChar(w)] == ['0', '0', DigitChar(w)];
  }

  lemma StrippedLarge(w: int)
    requires 10 <= w < FloatExactBound
    ensures StripCommas(FormatWeight(w)) == NatToDecimal(w / 10) + [DigitChar(w % 10)]
  {
    var digits := NatToDecimal(w / 10);
    StripCommasAppend(digits, [',', DigitChar(w % 10)]);
    StripCommasOfDigits(digits);
    assert StripCommas([',', DigitChar(w % 10)]) == [DigitChar(w % 10)];
  }

  lemma DigitsValueAppend(digits: string, d: int)
    requires AllDigits(digits) && 0 <= d < 10
    ensures AllDigits(digits + [DigitChar(d)])
    ensures DigitsValue(digits + [DigitChar(d)]) == DigitsValue(digits) * 10 + d
  {
    var t := digits + [DigitChar(d)];
    assert t[..|t| - 1] == digits;
  }

  /** The comma-free text of a non-negative weight's display. */
  lemma StrippedFormat(w: int) returns (t: string)
    requires 0 <= w < FloatExactBound
    ensures t == StripCommas(FormatWeight(w))
    ensures |t| > 0 && AllDigits(t) && DigitsValue(t) == w
  {
    if w == 0 {
      StrippedZero();
      t := "00";
    } else if w < 10 {
      StrippedSmall(w);
      LeadingZeroValue(w);
      t := ['0', '0', DigitChar(w)];
    } else {
      StrippedLarge(w);
      DigitsValueAppend(NatToDecimal(w / 10), w % 10);
      t := NatToDecimal(w / 10) + [DigitChar(w % 10)];
    }
  }

  /** Deleting the comma and reading the integer gives the weight back. */
  lemma ParseFormatRoundTrip(w: int)
    requires 0 <= w < FloatExactBound
    ensures ParseWeight(FormatWeight(w)) == Ok(w)
  {
    var t := StrippedFormat(w);
    ParseWeightOfAscii(FormatWeight(w), t);
    ParseIntDigits(t);
  }

  /** The legacy zero text "00,0" reads back as 0. */
  lemma LegacyZeroParses()
    ensures ParseWeight("00,0") == Ok(0)
  {
    StrippedLegacyZero();
    ParseWeightOfAscii("00,0", "000");
    ParseTripleZero();
  }

  lemma StrippedLegacyZero()
    ensures StripCommas("00,0") == "000"
  {
  }

  lemma ParseTripleZero()
    ensures ParseInt("000") == Ok(0)
  {
    ParseIntDigits("000");
    assert "000"[..2] == "00" && "00"[..1] == "0" && "0"[..0] == [];
  }

  /** The same round trip for the legacy display text. */
  lemma ParseLegacyFormatRoundTrip(w: int)
    requires 0 <= w < FloatExactBound
    ensures ParseWeight(LegacyFormatWeight(w)) == Ok(w)
  {
    if w == 0 {
      LegacyZeroParses();
    } else {
      ParseFormatRoundTrip(w);
    }
  }

  /** A digit followed by a minus sign, with no white space at the end, is not an integer. */
  lemma ParseIntRejectsInnerSign(t: string)
    requires |t| > 1 && IsDigit(t[0]) && t[1] == '-' && !IsSpace(t[|t| - 1])
    ensures ParseInt(t).Err?
  {
    assert !IsSpace(t[0]) && !IsSign(t[0]) && !IsDigit(t[1]);
  }

  /** A negative weight is displayed as "0-…", which the write path cannot read back. */
  lemma NegativeWeightTextRejected(w: int)
    requires -FloatExactBound < w < 0
    ensures ParseWeight(FormatWeight(w)).Err?
  {
    var t := StrippedNegative(w);
    InnerSignRejected(FormatWeight(w), t);
  }

  /** A text whose comma-free form is ASCII digits and signs with a sign right after the first digit is rejected. */
  lemma InnerSignRejected(text: string, t: string)
    requires StripCommas(text) == t
    requires forall i :: 0 <= i < |t| ==> IsDigit(t[i]) || IsSign(t[i])
    requires |t| > 1 && IsDigit(t[0]) && t[1] == '-' && IsDigit(t[|t| - 1])
    ensures ParseWeight(text).Err?
  {
    ParseWeightOfAscii(text, t);
    ParseIntRejectsInnerSign(t);
  }

  /** The comma-free text of a negative weight's display: "0-", the digits, and no comma. */
  lemma StrippedNegative(w: int) returns (t: string)
    requires -FloatExactBound < w < 0
    ensures StripCommas(FormatWeight(w)) == t
    ensures |t| > 2 && t[0] == '0' && t[1] == '-' && IsDigit(t[|t| - 1])
    ensures forall i :: 0 <= i < |t| ==> IsDigit(t[i]) || IsSign(t[i])
  {
    var digits := NatToDecimal(-w / 10);
    var last := DigitChar(-w % 10);
    StripSignedDigits(digits, last);
    t := "0-" + digits + [last];
    SignedDigitsShape(digits, last);
  }

  lemma StripSignedDigits(digits: string, last: char)
    requires AllDigits(digits) && IsDigit(last)
    ensures StripCommas("0-" + digits + [',', last]) == "0-" + digits + [last]
  {
    StripCommasAppend("0-" + digits, [',', last]);
    StripCommasAppend("0-", digits);
    StripCommasOfDigits(digits);
    assert StripCommas([',', last]) == [last];
    assert StripCommas("0-") == "0-";
  }

  lemma SignedDigitsShape(digits: string, last: char)
    requires AllDigits(digits) && IsDigit(last)
    ensures var t := "0-" + digits + [last];
      forall i :: 0 <= i < |t| ==> IsDigit(t[i]) || IsSign(t[i])
  {
    var t := "0-" + digits + [last];
    assert forall i :: 2 <= i < |t| - 1 ==> t[i] == digits[i - 2];
  }

  /** Worked examples of the current formatter, among them the pad rule for one-digit weights. */
  lemma FormatExamples()
    ensures FormatWeight(0) == "0,0"
    ensures FormatWeight(5) == "00,5"
    ensures FormatWeight(55) == "5,5"
    ensures FormatWeight(845) == "84,5"
  {
    assert NatToDecimal(5) == "5";
    assert NatToDecimal(84) == "84" by {
      assert NatToDecimal(8) == "8";
    }
  }

  lemma DecimalHundred()
    ensures NatToDecimal(100) == "100"
  {
    assert NatToDecimal(1) == "1";
    assert NatToDecimal(10) == NatToDecimal(1) + "0";
  }

  /** A weight with a zero tenth keeps it. */
  lemma FormatEdgeExamples()
    ensures FormatWeight(1000) == "100,0"
  {
    DecimalHundred();
    assert DigitChar(0) == '0';
  }

  /** A negative weight is shown with the pad in front of the sign. */
  lemma NegativeFormatExample()
    ensures FormatWeight(-5) == "0-0,5"
  {
    assert NatToDecimal(0) == "0";
  }
}
