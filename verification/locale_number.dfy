/** Locale number normalizer: the Brazilian-formatted numeric text of the raw
    tables ('.' groups thousands, ',' marks decimals) turned into a number,
    with unparseable text becoming a missing value (`errors='coerce'`). */
module LocaleNumber {
  import opened Options
  import opened Text

  predicate IsDigit(c: char) {
    '0' <= c <= '9'
  }

  predicate AllDigits(s: string) {
    forall k | 0 <= k < |s| :: IsDigit(s[k])
  }

  function DigitValue(c: char): (n: nat)
    requires IsDigit(c)
    ensures n <= 9
  {
    c as int - '0' as int
  }

  /** The natural number a string of decimal digits denotes. */
  function DigitsValue(s: string): (n: nat)
    requires AllDigits(s)
    ensures n < Pow10(|s|)
  {
    if |s| == 0 then 0
    else DigitsValue(s[..|s| - 1]) * 10 + DigitValue(s[|s| - 1])
  }

  function Pow10(n: nat): (p: nat)
    ensures p >= 1
  {
    if n == 0 then 1 else 10 * Pow10(n - 1)
  }

  /** The value of a sign, an integral digit string and a fractional digit
      string: `-whole.frac` or `whole.frac`. */
  function DecimalValue(negative: bool, whole: string, frac: string): real
    requires AllDigits(whole) && AllDigits(frac)
  {
    if negative then -Magnitude(whole, frac) else Magnitude(whole, frac)
  }

  function Magnitude(whole: string, frac: string): real
    requires AllDigits(whole) && AllDigits(frac)
  {
    DigitsValue(whole) as real + DigitsValue(frac) as real / Pow10(|frac|) as real
  }

  /** The digits after a separator at `p`, or none when `p` is the end. */
  function FracPart(t: string, p: int): string
    requires 0 <= p <= |t|
  {
    if p < |t| then t[p + 1..] else ""
  }

  /** `t` spells the number `v`: a sign of length `k` ('+', '-' or none),
      the integral digits `t[k..p]`, then, unless `p` is the end, the
      separator `sep` and the fractional digits, with at least one digit in
      all. */
  predicate DecimalAt(t: string, sep: char, k: int, p: int, v: real) {
    0 <= k <= 1 && k <= p <= |t| &&
    (k == 1 ==> t[0] == '-' || t[0] == '+') &&
    (p < |t| ==> t[p] == sep) &&
    AllDigits(t[k..p]) && AllDigits(FracPart(t, p)) &&
    p - k + |FracPart(t, p)| > 0 &&
    v == DecimalValue(k == 1 && t[0] == '-', t[k..p], FracPart(t, p))
  }

  /** `t` is decimal text with separator `sep` denoting `v`. */
  predicate DecimalText(t: string, sep: char, v: real) {
    exists k, p | 0 <= k <= 1 && k <= p <= |t| :: DecimalAt(t, sep, k, p, v)
  }

  /** The unsigned part of the decimal-point text `pandas.to_numeric` accepts:
      digits, at most one '.', digits, with at least one digit in all. */
  function ParseUnsigned(t: string): (r: Option<real>)
    ensures r.Some? ==> |t| > 0 && forall k | 0 <= k < |t| :: IsDigit(t[k]) || t[k] == '.'
    ensures r.Some? ==> r.value >= 0.0 && DecimalAt(t, '.', 0, IndexOf(t, '.'), r.value)
  {
    var i := IndexOf(t, '.');
    var whole := t[..i];
    var frac := if i < |t| then t[i + 1..] else [];
    if AllDigits(whole) && AllDigits(frac) && |whole| + |frac| > 0 then
      assert forall k | 0 <= k < |t| :: IsDigit(t[k]) || t[k] == '.' by {
        forall k | 0 <= k < |t| ensures IsDigit(t[k]) || t[k] == '.' {
          if k < i { assert t[k] == whole[k]; }
          else if k > i { assert t[k] == frac[k - i - 1]; }
        }
      }
      MagnitudeNonNegative(whole, frac);
      assert t[0..i] == whole;
      Some(DecimalValue(false, whole, frac))
    else None
  }

  /** Unsigned decimal-point text is read as its value. */
  lemma UnsignedOfText(t: string, p: int, v: real)
    requires DecimalAt(t, '.', 0, p, v)
    ensures ParseUnsigned(t) == Some(v)
  {
    assert t[..p] == t[0..p];
    assert '.' !in t[..p] by {
      forall j | 0 <= j < p ensures t[..p][j] != '.' {
        assert IsDigit(t[0..p][j]);
      }
    }
    IndexOfFirst(t, '.', p);
  }

  lemma MagnitudeNonNegative(whole: string, frac: string)
    requires AllDigits(whole) && AllDigits(frac)
    ensures Magnitude(whole, frac) >= 0.0
  {
    var p := Pow10(|frac|) as real;
    assert p > 0.0;
    assert DigitsValue(frac) as real / p >= 0.0;
  }

  predicate NumericChar(c: char) {
    IsDigit(c) || c == '.' || c == '+' || c == '-'
  }

  /** `pandas.to_numeric(text, errors='coerce')` on decimal-point text: an
      optional '+' or '-' followed by an unsigned decimal; anything else is
      missing rather than an error. Accepted text is decimal-point text and
      reads as its value; `NumberOfText` gives the converse. */
  function ParseNumber(s: string): (r: Option<real>)
    ensures r.Some? ==> |s| > 0 && forall k | 0 <= k < |s| :: NumericChar(s[k])
    ensures r.Some? && |s| > 0 && s[0] == '-' ==> r.value <= 0.0
    ensures r.Some? ==> DecimalText(s, '.', r.value)
  {
    if |s| > 0 && (s[0] == '-' || s[0] == '+') then
      var r := ParseUnsigned(s[1..]);
      assert r.Some? ==> forall k | 0 <= k < |s| :: NumericChar(s[k]) by {
        if r.Some? {
          forall k | 0 <= k < |s| ensures NumericChar(s[k]) {
            if k > 0 { assert s[k] == s[1..][k - 1]; }
          }
        }
      }
      var out := if s[0] == '-' then Negate(r) else r;
      assert out.Some? ==> DecimalAt(s, '.', 1, IndexOf(s[1..], '.') + 1, out.value) by {
        if r.Some? {
          SignShift(s, IndexOf(s[1..], '.'));
        }
      }
      out
    else
      var r := ParseUnsigned(s);
      assert r.Some? ==> DecimalAt(s, '.', 0, IndexOf(s, '.'), r.value);
      r
  }

  /** Slices of the text after a sign line up with slices of the whole text. */
  lemma SignShift(s: string, p: int)
    requires |s| > 0 && 0 <= p <= |s| - 1
    ensures s[1..][0..p] == s[1..p + 1] && FracPart(s[1..], p) == FracPart(s, p + 1)
    ensures p < |s| - 1 ==> s[1..][p] == s[p + 1]
  {
  }

  /** Decimal-point text is read as its value: the converse of
      `ParseNumber`'s contract. */
  lemma NumberOfText(s: string, k: int, p: int, v: real)
    requires DecimalAt(s, '.', k, p, v)
    ensures ParseNumber(s) == Some(v)
  {
    if k == 1 {
      SignedOfText(s, p, v);
    } else {
      assert |s| > 0 ==> s[0] != '-' && s[0] != '+' by {
        if |s| > 0 && p > 0 { assert s[0] == s[0..p][0]; }
      }
      UnsignedOfText(s, p, v);
    }
  }

  lemma SignedOfText(s: string, p: int, v: real)
    requires DecimalAt(s, '.', 1, p, v)
    ensures ParseNumber(s) == Some(v)
  {
    var m := SignedMagnitude(s, p, v);
    SignedNumber(s);
  }

  /** After the sign comes unsigned text whose value is `v` up to sign. */
  lemma SignedMagnitude(s: string, p: int, v: real) returns (m: real)
    requires DecimalAt(s, '.', 1, p, v)
    ensures ParseUnsigned(s[1..]) == Some(m)
    ensures v == if s[0] == '-' then -m else m
  {
    m := Magnitude(s[1..p], FracPart(s, p));
    SignShift(s, p - 1);
    assert DecimalAt(s[1..], '.', 0, p - 1, m);
    UnsignedOfText(s[1..], p - 1, m);
  }

  lemma SignedNumber(s: string)
    requires |s| > 0 && (s[0] == '-' || s[0] == '+')
    ensures ParseNumber(s) == if s[0] == '-' then Negate(ParseUnsigned(s[1..])) else ParseUnsigned(s[1..])
  {
  }

  function Negate(r: Option<real>): Option<real> {
    match r
    case None => None
    case Some(v) => Some(-v)
  }

  /** A consumption reading: every '.' dropped, then ',' turned into '.',
      then parsed (data_processing.py, lines 65-66). A reading is accepted
      only when, with its '.'s dropped, it is comma-decimal text, and then
      it reads as that text's value; `ConsumptionOfText` gives the converse. */
  function NormalizeConsumption(s: string): (r: Option<real>)
    ensures r.Some? ==> |s| > 0 && forall k | 0 <= k < |s| :: NumericChar(s[k]) || s[k] == ','
    ensures r.Some? ==> DecimalText(RemoveChar(s, '.'), ',', r.value)
  {
    var t := RemoveChar(s, '.');
    var u := ReplaceChar(t, ',', '.');
    var r := ParseNumber(u);
    assert r.Some? ==> forall k | 0 <= k < |s| :: NumericChar(s[k]) || s[k] == ',' by {
      if r.Some? {
        forall k | 0 <= k < |s| ensures NumericChar(s[k]) || s[k] == ',' {
          if s[k] != '.' && s[k] != ',' {
            assert s[k] in multiset(s);
            assert s[k] in multiset(t);
            var j :| 0 <= j < |t| && t[j] == s[k];
            assert u[j] == s[k];
          }
        }
      }
    }
    assert r.Some? ==> DecimalText(t, ',', r.value) by {
      if r.Some? {
        var k, p :| 0 <= k <= 1 && k <= p <= |u| && DecimalAt(u, '.', k, p, r.value);
        CommaFromPoint(t, k, p, r.value);
      }
    }
    r
  }

  /** A temperature, humidity or growth-rate cell: only ',' becomes '.',
      then parsed (data_processing.py, lines 82-83 and 95). A cell is
      accepted only as decimal text with ',' or '.' as its separator, and
      then reads as its value; `MeasureOfText` gives the converse. */
  function NormalizeMeasure(s: string): (r: Option<real>)
    ensures r.Some? ==> |s| > 0 && forall k | 0 <= k < |s| :: NumericChar(s[k]) || s[k] == ','
    ensures r.Some? ==> DecimalText(s, ',', r.value) || DecimalText(s, '.', r.value)
  {
    var u := ReplaceChar(s, ',', '.');
    var r := ParseNumber(u);
    assert r.Some? ==> DecimalText(s, ',', r.value) || DecimalText(s, '.', r.value) by {
      if r.Some? {
        var k, p :| 0 <= k <= 1 && k <= p <= |u| && DecimalAt(u, '.', k, p, r.value);
        SeparatorFromPoint(s, k, p, r.value);
      }
    }
    r
  }

  /** Decimal text with ',' or '.' as separator is read by the climate and
      growth normalizer as its value. */
  lemma MeasureOfText(s: string, sep: char, k: int, p: int, v: real)
    requires sep == ',' || sep == '.'
    requires DecimalAt(s, sep, k, p, v)
    ensures NormalizeMeasure(s) == Some(v)
  {
    PointFromSeparator(s, sep, k, p, v);
    NumberOfText(ReplaceChar(s, ',', '.'), k, p, v);
  }

  /** A reading that is comma-decimal text once its '.'s are dropped is
      read by the consumption normalizer as its value. */
  lemma ConsumptionOfText(s: string, k: int, p: int, v: real)
    requires DecimalAt(RemoveChar(s, '.'), ',', k, p, v)
    ensures NormalizeConsumption(s) == Some(v)
  {
    var t := RemoveChar(s, '.');
    PointFromSeparator(t, ',', k, p, v);
    NumberOfText(ReplaceChar(t, ',', '.'), k, p, v);
  }

  /** `u` is `s` with every ',' swapped for '.', character by character. */
  predicate Swapped(s: string, u: string) {
    |u| == |s| && forall k | 0 <= k < |s| :: u[k] == if s[k] == ',' then '.' else s[k]
  }

  /** The swap does not touch a stretch that is all digits before or after
      it, nor the fractional digits after a separator. */
  lemma SwapKeepsDigits(s: string, u: string, a: int, b: int)
    requires Swapped(s, u) && 0 <= a <= b <= |s|
    requires AllDigits(s[a..b]) || AllDigits(u[a..b])
    ensures u[a..b] == s[a..b]
  {
    var x, y := u[a..b], s[a..b];
    forall i | 0 <= i < |y| ensures x[i] == y[i] {
      assert x[i] == u[a + i] && y[i] == s[a + i];
    }
  }

  lemma SwapKeepsFraction(s: string, u: string, p: int)
    requires Swapped(s, u) && 0 <= p <= |s|
    requires AllDigits(FracPart(s, p)) || AllDigits(FracPart(u, p))
    ensures FracPart(u, p) == FracPart(s, p)
  {
    if p < |s| {
      var x, y := u[p + 1..], s[p + 1..];
      forall i | 0 <= i < |y| ensures x[i] == y[i] {
        assert x[i] == u[p + 1 + i] && y[i] == s[p + 1 + i];
      }
    }
  }

  /** Decimal text with ',' or '.' as separator is decimal-point text after
      the swap. */
  lemma PointFromSeparator(s: string, sep: char, k: int, p: int, v: real)
    requires sep == ',' || sep == '.'
    requires DecimalAt(s, sep, k, p, v)
    ensures DecimalAt(ReplaceChar(s, ',', '.'), '.', k, p, v)
  {
    var u := ReplaceChar(s, ',', '.');
    SwapKeepsDigits(s, u, k, p);
    SwapKeepsFraction(s, u, p);
  }

  /** Decimal-point text after the swap was decimal text with ',' or '.' as
      separator before it. */
  lemma SeparatorFromPoint(s: string, k: int, p: int, v: real)
    requires DecimalAt(ReplaceChar(s, ',', '.'), '.', k, p, v)
    ensures DecimalAt(s, ',', k, p, v) || DecimalAt(s, '.', k, p, v)
  {
    var u := ReplaceChar(s, ',', '.');
    SwapKeepsDigits(s, u, k, p);
    SwapKeepsFraction(s, u, p);
  }

  /** Text without '.' that is decimal-point text after the swap was
      comma-decimal text before it. */
  lemma CommaFromPoint(t: string, k: int, p: int, v: real)
    requires '.' !in t
    requires DecimalAt(ReplaceChar(t, ',', '.'), '.', k, p, v)
    ensures DecimalAt(t, ',', k, p, v)
  {
    SeparatorFromPoint(t, k, p, v);
    assert p < |t| ==> t[p] != '.';
  }

  /** The locale rendering of a number the raw consumption table uses:
      optional '-', the integral digits grouped by '.' in threes from the
      right, and ',' before the fractional digits when there are any. */
  function LocaleText(negative: bool, whole: string, frac: string): string
  {
    (if negative then "-" else "") + Thousands(whole) + (if |frac| == 0 then "" else "," + frac)
  }

  function Thousands(d: string): string
    decreases |d|
  {
    if |d| <= 3 then d else Thousands(d[..|d| - 3]) + "." + d[|d| - 3..]
  }

  lemma {:induction false} DigitsHaveNoSeparators(d: string)
    requires AllDigits(d)
    ensures '.' !in d && ',' !in d
  {
    assert forall k | 0 <= k < |d| :: d[k] != '.' && d[k] != ',';
  }

  /** Dropping every '.' undoes the thousands grouping. */
  lemma {:induction false} RemoveDotsUngroups(d: string)
    requires AllDigits(d)
    ensures RemoveChar(Thousands(d), '.') == d
    decreases |d|
  {
    DigitsHaveNoSeparators(d);
    if |d| <= 3 {
      AbsentCharUntouched(d, '.', '.');
    } else {
      var head, tail := d[..|d| - 3], d[|d| - 3..];
      assert AllDigits(head) && AllDigits(tail) by {
        assert forall k | 0 <= k < |head| :: head[k] == d[k];
        assert forall k | 0 <= k < |tail| :: tail[k] == d[|d| - 3 + k];
      }
      var x := Thousands(head);
      calc {
        RemoveChar(Thousands(d), '.');
        RemoveChar(x + "." + tail, '.');
        { DigitsHaveNoSeparators(tail); RemoveSeparatorDot(x, tail); }
        RemoveChar(x, '.') + tail;
        { RemoveDotsUngroups(head); }
        head + tail;
        { assert d == head + tail; }
        d;
      }
    }
  }

  lemma RemoveSeparatorDot(x: string, tail: string)
    requires '.' !in tail
    ensures RemoveChar(x + "." + tail, '.') == RemoveChar(x, '.') + tail
  {
    RemoveCharAppend(x + ".", tail, '.');
    RemoveCharAppend(x, ".", '.');
    AbsentCharUntouched(tail, '.', '.');
    assert RemoveChar(".", '.') == [];
    assert RemoveChar(x + ".", '.') == RemoveChar(x, '.');
  }

  lemma {:induction false} ThousandsHasNoComma(d: string)
    requires AllDigits(d)
    ensures ',' !in Thousands(d)
    decreases |d|
  {
    DigitsHaveNoSeparators(d);
    if |d| > 3 {
      var head, tail := d[..|d| - 3], d[|d| - 3..];
      assert AllDigits(head) && AllDigits(tail);
      ThousandsHasNoComma(head);
      DigitsHaveNoSeparators(tail);
    }
  }

  /** Digits, then optionally '.' and more digits, read back as their value. */
  lemma {:induction false} ParseUnsignedText(whole: string, frac: string)
    requires AllDigits(whole) && AllDigits(frac) && |whole| > 0
    ensures ParseUnsigned(whole + (if |frac| == 0 then "" else "." + frac)) == Some(DecimalValue(false, whole, frac))
  {
    DigitsHaveNoSeparators(whole);
    var body := whole + (if |frac| == 0 then "" else "." + frac);
    var i := IndexOf(body, '.');
    assert body[..|whole|] == whole;
    assert |frac| > 0 ==> body[|whole|] == '.' && body[|whole|] == body[..|whole| + 1][|whole|];
    assert i == |whole|;
    if |frac| > 0 {
      assert body[i + 1..] == frac;
    } else {
      assert body == whole;
    }
  }

  /** Once the text is in decimal-point form, `ParseNumber` reads back the
      sign, the integral digits and the fractional digits. */
  lemma {:induction false} ParsePointText(negative: bool, whole: string, frac: string)
    requires AllDigits(whole) && AllDigits(frac) && |whole| > 0
    ensures ParseNumber((if negative then "-" else "") + whole + (if |frac| == 0 then "" else "." + frac))
         == Some(DecimalValue(negative, whole, frac))
  {
    var tail := if |frac| == 0 then "" else "." + frac;
    var body := whole + tail;
    ParseUnsignedText(whole, frac);
    assert body[0] == whole[0];
    if negative {
      var t := "-" + body;
      assert t[1..] == body;
      assert "-" + whole + tail == t;
    } else {
      assert "" + whole + tail == body;
    }
  }

  /** Round trip of the consumption normalizer: every locale-rendered
      number reads back as exactly its value. */
  lemma {:induction false} ConsumptionRoundTrip(negative: bool, whole: string, frac: string)
    requires AllDigits(whole) && AllDigits(frac) && |whole| > 0
    ensures NormalizeConsumption(LocaleText(negative, whole, frac)) == Some(DecimalValue(negative, whole, frac))
  {
    var sign := if negative then "-" else "";
    var tail := if |frac| == 0 then "" else "," + frac;
    DigitsHaveNoSeparators(frac);
    AbsentCharUntouched(sign, '.', '.');
    AbsentCharUntouched(tail, '.', '.');
    RemoveDotsUngroups(whole);
    RemoveCharAppend(sign + Thousands(whole), tail, '.');
    RemoveCharAppend(sign, Thousands(whole), '.');
    assert RemoveChar(LocaleText(negative, whole, frac), '.') == sign + whole + tail;
    var pointTail := if |frac| == 0 then "" else "." + frac;
    DigitsHaveNoSeparators(whole);
    AbsentCharUntouched(sign, ',', '.');
    AbsentCharUntouched(whole, ',', '.');
    ReplaceCharAppend(sign + whole, tail, ',', '.');
    ReplaceCharAppend(sign, whole, ',', '.');
    if |frac| > 0 {
      AbsentCharUntouched(frac, ',', '.');
      ReplaceCharAppend(",", frac, ',', '.');
    }
    assert ReplaceChar(sign + whole + tail, ',', '.') == sign + whole + pointTail;
    ParsePointText(negative, whole, frac);
  }

  /** The climate and growth normalizer reads comma-decimal text without
      thousands grouping back as exactly its value. */
  lemma {:induction false} MeasureRoundTrip(negative: bool, whole: string, frac: string)
    requires AllDigits(whole) && AllDigits(frac) && |whole| > 0
    ensures NormalizeMeasure((if negative then "-" else "") + whole + (if |frac| == 0 then "" else "," + frac))
         == Some(DecimalValue(negative, whole, frac))
  {
    var sign := if negative then "-" else "";
    var tail := if |frac| == 0 then "" else "," + frac;
    DigitsHaveNoSeparators(whole);
    DigitsHaveNoSeparators(frac);
    AbsentCharUntouched(sign, ',', '.');
    AbsentCharUntouched(whole, ',', '.');
    ReplaceCharAppend(sign + whole, tail, ',', '.');
    ReplaceCharAppend(sign, whole, ',', '.');
    if |frac| > 0 {
      AbsentCharUntouched(frac, ',', '.');
      ReplaceCharAppend(",", frac, ',', '.');
    }
    ParsePointText(negative, whole, frac);
  }

  /** The climate normalizer does not drop '.', so a thousands-grouped value
      with a decimal part has two points after the swap and is missing. */
  lemma {:induction false} MeasureRejectsGrouping(whole: string, frac: string)
    requires AllDigits(whole) && AllDigits(frac) && |whole| > 3 && |frac| > 0
    ensures NormalizeMeasure(LocaleText(false, whole, frac)) == None
  {
    var x := Thousands(whole[..|whole| - 3]);
    var g := Thousands(whole);
    assert g == x + "." + whole[|whole| - 3..];
    var s := LocaleText(false, whole, frac);
    assert s == g + "," + frac;
    var u := ReplaceChar(s, ',', '.');
    assert u[|x|] == '.' && u[|g|] == '.';
    TwoPointsRejected(u, |x|, |g|);
  }

  /** Text with two decimal points is not a number. */
  lemma TwoPointsRejected(u: string, i: int, j: int)
    requires 0 <= i < j < |u| && u[i] == '.' && u[j] == '.'
    ensures ParseNumber(u) == None
  {
    if ParseNumber(u).Some? {
      var k, p :| 0 <= k <= 1 && k <= p <= |u| && DecimalAt(u, '.', k, p, ParseNumber(u).value);
      SeparatorOnlyAt(u, k, p, i);
      SeparatorOnlyAt(u, k, p, j);
    }
  }

  /** In decimal text the separator appears at `p` and nowhere else. */
  lemma SeparatorOnlyAt(u: string, k: int, p: int, i: int)
    requires 0 <= k <= 1 && k <= p <= |u| && AllDigits(u[k..p]) && AllDigits(FracPart(u, p))
    requires (k == 1 ==> u[0] == '-' || u[0] == '+')
    requires 0 <= i < |u| && !IsDigit(u[i]) && u[i] != '-' && u[i] != '+'
    ensures i == p
  {
  }

  lemma {:induction false} ThousandsStartsWithDigit(d: string)
    requires AllDigits(d) && |d| > 0
    ensures |Thousands(d)| > 0 && Thousands(d)[0] == d[0]
    decreases |d|
  {
    if |d| > 3 {
      var head := d[..|d| - 3];
      assert AllDigits(head);
      ThousandsStartsWithDigit(head);
    }
  }

  /** Text holding anything other than digits, signs, '.' and ',' is
      missing under both normalizers, never an error. */
  lemma NonNumericIsMissing(s: string, k: int)
    requires 0 <= k < |s| && !NumericChar(s[k]) && s[k] != ','
    ensures NormalizeConsumption(s) == None
    ensures NormalizeMeasure(s) == None
  {
  }

  /** Worked example: the consumption reading "1.234,56" is 1234.56. */
  lemma ConsumptionExample()
    ensures NormalizeConsumption("1.234,56") == Some(1234.56)
  {
    ExampleValue();
    ExampleText();
    ConsumptionRoundTrip(false, "1234", "56");
  }

  lemma ExampleValue()
    ensures AllDigits("1234") && AllDigits("56") && DecimalValue(false, "1234", "56") == 1234.56
  {
    assert "1234"[..3] == "123" && "123"[..2] == "12" && "12"[..1] == "1" && "1"[..0] == "";
    assert DigitsValue("1234") == 1234;
    assert "56"[..1] == "5" && "5"[..0] == "";
    assert DigitsValue("56") == 56;
  }

  lemma ExampleText()
    ensures LocaleText(false, "1234", "56") == "1.234,56"
  {
    assert Thousands("1234") == "1.234";
  }

  /** Worked example: the climate cell "25,3" is 25.3. */
  lemma MeasureExample()
    ensures NormalizeMeasure("25,3") == Some(25.3)
  {
    assert "25"[..1] == "2" && "2"[..0] == "" && "3"[..0] == "";
    assert DigitsValue("25") == 25;
    assert DigitsValue("3") == 3;
    assert Magnitude("25", "3") == 25.3;
    MeasureRoundTrip(false, "25", "3");
    assert "" + "25" + ("," + "3") == "25,3";
  }

  /** Worked example: "abc" is missing under both normalizers. */
  lemma NonNumericExample()
    ensures NormalizeConsumption("abc") == None && NormalizeMeasure("abc") == None
  {
    NonNumericIsMissing("abc", 0);
  }

  /** Worked example: "1.2.3" has two decimal points and is not a number. */
  lemma TwoPointsExample()
    ensures ParseNumber("1.2.3") == None
  {
    TwoPointsRejected("1.2.3", 1, 3);
  }
}
