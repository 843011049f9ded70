/** Python's `float()` applied to text: surrounding whitespace, an optional
    sign, then either a decimal number with an optional exponent or one of
    the words `nan`, `inf` and `infinity` in any mix of case. Values are
    exact reals: rounding to the nearest double is not modelled. */
module Floats {
  import opened Wrappers
  import opened Text

  /** What `float(s)` makes of a text: a finite number, NaN, an infinity
      (of either sign), or a ValueError for text that spells no number. */
  datatype FloatText = Finite(x: real) | NotANumber | Infinite | Malformed

  /** The ASCII characters `str.strip()` removes: tab, line feed, vertical
      tab, form feed, carriage return, the four separators 0x1C-0x1F and
      the space. */
  predicate IsSpace(c: char)
  {
    c == ' ' || '\t' <= c <= '\r' || 28 as char <= c <= 31 as char
  }

  predicate IsDigit(c: char)
  {
    '0' <= c <= '9'
  }

  predicate AllDigits(s: string)
  {
    forall i :: 0 <= i < |s| ==> IsDigit(s[i])
  }

  /** `s` without its leading whitespace. */
  function TrimStart(s: string): (r: string)
    ensures |r| <= |s| && r == s[|s| - |r|..]
    ensures forall i :: 0 <= i < |s| - |r| ==> IsSpace(s[i])
    ensures |r| > 0 ==> !IsSpace(r[0])
  {
    if |s| > 0 && IsSpace(s[0]) then TrimStart(s[1..]) else s
  }

  /** `s` without its trailing whitespace. */
  function TrimEnd(s: string): (r: string)
    ensures |r| <= |s| && r == s[..|r|]
    ensures forall i :: |r| <= i < |s| ==> IsSpace(s[i])
    ensures |r| > 0 ==> !IsSpace(r[|r| - 1])
  {
    if |s| > 0 && IsSpace(s[|s| - 1]) then TrimEnd(s[..|s| - 1]) else s
  }

  /** `s.strip()`. */
  function Strip(s: string): string
  {
    TrimEnd(TrimStart(s))
  }

  function LowerChar(c: char): char
  {
    if 'A' <= c <= 'Z' then (c as int + 32) as char else c
  }

  /** `s.lower() == word` for an ASCII `word` in lower case. */
  predicate Spells(s: string, word: string)
  {
    |s| == |word| && forall i :: 0 <= i < |s| ==> LowerChar(s[i]) == word[i]
  }

  /** Position of the first `a` or `b` in `s`, or `|s|` when there is none. */
  function FindEither(s: string, a: char, b: char): (k: nat)
    ensures k <= |s|
    ensures forall i :: 0 <= i < k ==> s[i] != a && s[i] != b
    ensures k < |s| ==> s[k] == a || s[k] == b
  {
    if |s| == 0 || s[0] == a || s[0] == b then 0 else 1 + FindEither(s[1..], a, b)
  }

  function Pow10(n: nat): (r: real)
    ensures r >= 1.0
  {
    if n == 0 then 1.0 else 10.0 * Pow10(n - 1)
  }

  /** A mantissa `digits`, `digits.digits`, `digits.` or `.digits`: at least
      one digit, at most one point. */
  function Mantissa(m: string): (r: Option<real>)
    ensures r.Some? ==> r.value >= 0.0
  {
    var k := FindEither(m, '.', '.');
    var whole, fraction := m[..k], if k < |m| then m[k + 1..] else "";
    if AllDigits(whole) && AllDigits(fraction) && |whole| + |fraction| >= 1 then
      Some(PointValue(whole, fraction))
    else None
  }

  /** The value of `whole.fraction` for two digit strings. */
  function PointValue(whole: string, fraction: string): (x: real)
    requires AllDigits(whole) && AllDigits(fraction)
    ensures x >= 0.0
  {
    ParseDigits(whole) as real + ParseDigits(fraction) as real / Pow10(|fraction|)
  }

  /** An exponent: an optional sign and at least one digit. */
  function Exponent(e: string): Option<int>
  {
    var signed := |e| > 0 && (e[0] == '+' || e[0] == '-');
    var digits := if signed then e[1..] else e;
    if |digits| >= 1 && AllDigits(digits) then
      Some(if signed && e[0] == '-' then -(ParseDigits(digits) as int) else ParseDigits(digits))
    else None
  }

  /** `x` times ten to the power `e`. */
  function Scale(x: real, e: int): real
  {
    if e >= 0 then x * Pow10(e) else x / Pow10(-e)
  }

  /** An unsigned decimal: a mantissa, then optionally `e` or `E` and an
      exponent. */
  function Decimal(t: string): Option<real>
  {
    var k := FindEither(t, 'e', 'E');
    var m := Mantissa(t[..k]);
    if m.None? || k == |t| then m
    else match Exponent(t[k + 1..])
      case None => None
      case Some(e) => Some(Scale(m.value, e))
  }

  /** `float(s)` for a text `s`. */
  function ParseFloat(s: string): FloatText
  {
    ParseStripped(Strip(s))
  }

  /** `float()` of a text without surrounding whitespace: an optional sign,
      then a word or an unsigned decimal. */
  function ParseStripped(t: string): FloatText
  {
    var signed := |t| > 0 && (t[0] == '+' || t[0] == '-');
    var body := if signed then t[1..] else t;
    if Spells(body, "nan") then NotANumber
    else if Spells(body, "inf") || Spells(body, "infinity") then Infinite
    else match Decimal(body)
      case None => Malformed
      case Some(x) => Finite(if signed && t[0] == '-' then -x else x)
  }

  /** A number is read from at least one digit of the text. */
  lemma FiniteHasDigit(s: string)
    requires ParseFloat(s).Finite?
    ensures exists i :: 0 <= i < |s| && IsDigit(s[i])
  {
    var u := TrimStart(s);
    var t := TrimEnd(u);
    assert ParseFloat(s) == ParseStripped(t);
    var j := StrippedHasDigit(t);
    assert t[j] == u[j];
    var d := |s| - |u|;
    assert u == s[d..];
    assert s[d..][j] == s[d + j];
    assert IsDigit(s[d + j]);
  }

  /** The position of a digit of a stripped text that reads as a number. */
  lemma StrippedHasDigit(t: string) returns (j: nat)
    requires ParseStripped(t).Finite?
    ensures j < |t| && IsDigit(t[j])
  {
    var signed := |t| > 0 && (t[0] == '+' || t[0] == '-');
    var body := if signed then t[1..] else t;
    assert Decimal(body).Some?;
    var k := FindEither(body, 'e', 'E');
    var i := MantissaHasDigit(body[..k]);
    assert body[i] == body[..k][i];
    j := if signed then i + 1 else i;
  }

  /** The position of a digit of a mantissa. */
  lemma MantissaHasDigit(m: string) returns (j: nat)
    requires Mantissa(m).Some?
    ensures j < |m| && IsDigit(m[j])
  {
    var k := FindEither(m, '.', '.');
    if k > 0 {
      j := 0;
      assert m[..k][0] == m[0];
    } else {
      j := 1;
      assert m[k + 1..][0] == m[1];
    }
  }

  /** Blank text is not a number: `float("")` and `float("  ")` raise
      ValueError. */
  lemma BlankMalformed(s: string)
    requires forall i :: 0 <= i < |s| ==> IsSpace(s[i])
    ensures ParseFloat(s) == Malformed
  {
    assert TrimStart(s) == [];
    assert Mantissa([]) == None;
  }

  /** Python's `str(n)` of an integer reads back as that integer: a whole
      number stored as text floors (and rounds up) to itself. */
  lemma ParseShowInt(n: int)
    ensures ParseFloat(ShowInt(n)) == Finite(n as real)
  {
    var m: nat := if n < 0 then -n else n;
    StripShowInt(n);
    assert ParseFloat(ShowInt(n)) == ParseStripped(ShowInt(n));
    DigitsDecimal(m);
    SignedDigits(n < 0, Digits(m), m as real);
  }

  /** `str(n)` carries no surrounding whitespace. */
  lemma StripShowInt(n: int)
    ensures Strip(ShowInt(n)) == ShowInt(n)
    ensures ShowInt(n) == if n < 0 then "-" + Digits(-n) else Digits(n)
  {
    var s := ShowInt(n);
    assert TrimStart(s) == s;
  }

  /** An optionally negated unsigned decimal that spells no word. */
  lemma SignedDigits(negative: bool, d: string, x: real)
    requires |d| > 0 && IsDigit(d[0]) && Decimal(d) == Some(x)
    ensures ParseStripped(if negative then "-" + d else d) == Finite(if negative then -x else x)
  {
    DigitLed(d);
    var t := if negative then "-" + d else d;
    assert (if negative then t[1..] else t) == d;
  }

  /** The digits of a natural number are an unsigned decimal, and no word. */
  lemma DigitsDecimal(m: nat)
    ensures Decimal(Digits(m)) == Some(m as real)
    ensures !Spells(Digits(m), "nan") && !Spells(Digits(m), "inf") && !Spells(Digits(m), "infinity")
  {
    var d := Digits(m);
    DigitLed(d);
    assert FindEither(d, 'e', 'E') == |d| && FindEither(d, '.', '.') == |d|;
    assert d[..|d|] == d;
    ParseDigitsInverse(m);
    assert Mantissa(d) == Some(m as real);
  }

  /** Whitespace around a number does not change it: `float(" 12 ")` is
      `float("12")`. */
  lemma PaddingIgnored(pre: string, s: string, post: string)
    requires forall i :: 0 <= i < |pre| ==> IsSpace(pre[i])
    requires forall i :: 0 <= i < |post| ==> IsSpace(post[i])
    ensures ParseFloat(pre + s + post) == ParseFloat(s)
  {
    StripPadded(pre, s, post);
  }

  lemma StripPadded(pre: string, s: string, post: string)
    requires forall i :: 0 <= i < |pre| ==> IsSpace(pre[i])
    requires forall i :: 0 <= i < |post| ==> IsSpace(post[i])
    ensures Strip(pre + s + post) == Strip(s)
  {
    var x := s + post;
    assert pre + s + post == pre + x;
    TrimStartPrefix(pre, x);
    StripAppended(s, post);
    assert Strip(pre + x) == TrimEnd(TrimStart(x));
  }

  lemma StripAppended(s: string, post: string)
    requires forall i :: 0 <= i < |post| ==> IsSpace(post[i])
    ensures TrimEnd(TrimStart(s + post)) == Strip(s)
  {
    if |TrimStart(s)| == 0 {
      BlankTrimmed(s + post);
    } else {
      TrimStartAppend(s, post);
      TrimEndSuffix(TrimStart(s), post);
    }
  }

  lemma BlankTrimmed(s: string)
    requires forall i :: 0 <= i < |s| ==> IsSpace(s[i])
    ensures TrimStart(s) == []
  {
  }

  /** Leading whitespace is removed whatever follows it. */
  lemma {:induction false} TrimStartPrefix(pre: string, s: string)
    requires forall i :: 0 <= i < |pre| ==> IsSpace(pre[i])
    ensures TrimStart(pre + s) == TrimStart(s)
  {
    if |pre| > 0 {
      assert (pre + s)[1..] == pre[1..] + s;
      TrimStartPrefix(pre[1..], s);
    } else {
      assert pre + s == s;
    }
  }

  /** Trailing text survives a leading trim that stops inside `s`. */
  lemma {:induction false} TrimStartAppend(s: string, post: string)
    requires |TrimStart(s)| > 0
    ensures TrimStart(s + post) == TrimStart(s) + post
  {
    if IsSpace(s[0]) {
      assert (s + post)[1..] == s[1..] + post;
      TrimStartAppend(s[1..], post);
    }
  }

  /** Trailing whitespace is removed whatever precedes it. */
  lemma {:induction false} TrimEndSuffix(s: string, post: string)
    requires forall i :: 0 <= i < |post| ==> IsSpace(post[i])
    ensures TrimEnd(s + post) == TrimEnd(s)
  {
    if |post| > 0 {
      var p := post[..|post| - 1];
      assert (s + post)[..|s + post| - 1] == s + p;
      TrimEndSuffix(s, p);
    } else {
      assert s + post == s;
    }
  }

  /** Text without surrounding whitespace is its own strip. */
  lemma Unpadded(t: string)
    requires |t| > 0 && !IsSpace(t[0]) && !IsSpace(t[|t| - 1])
    ensures ParseFloat(t) == ParseStripped(t)
  {
    assert TrimStart(t) == t;
  }

  /** `nan`, `inf` and `infinity` in any case, after an optional sign. */
  lemma WordsRead(sign: string, w: string)
    requires sign == "" || sign == "+" || sign == "-"
    requires Spells(w, "nan") || Spells(w, "inf") || Spells(w, "infinity")
    ensures Spells(w, "nan") ==> ParseFloat(sign + w) == NotANumber
    ensures !Spells(w, "nan") ==> ParseFloat(sign + w) == Infinite
  {
    var t := sign + w;
    assert LowerChar(w[0]) == 'n' || LowerChar(w[0]) == 'i';
    assert LowerChar(w[|w| - 1]) == 'n' || LowerChar(w[|w| - 1]) == 'f' || LowerChar(w[|w| - 1]) == 'y';
    assert t[|t| - 1] == w[|w| - 1];
    Unpadded(t);
    assert (if |t| > 0 && (t[0] == '+' || t[0] == '-') then t[1..] else t) == w;
  }

  /** A whole part, a point and a fraction read as their decimal value:
      `float("12.05")` is 12 + 5/100. */
  lemma FractionRead(whole: nat, fraction: string)
    requires AllDigits(fraction) && |fraction| > 0
    ensures ParseFloat(Digits(whole) + ("." + fraction))
      == Finite(whole as real + ParseDigits(fraction) as real / Pow10(|fraction|))
  {
    var t := Digits(whole) + ("." + fraction);
    assert t[|t| - 1] == fraction[|fraction| - 1];
    Unpadded(t);
    assert IsDigit(t[0]);
    FractionDecimal(Digits(whole), fraction);
    SignedDigits(false, t, PointValue(Digits(whole), fraction));
    PointOfDigits(whole, fraction);
  }

  lemma FractionDecimal(w: string, fraction: string)
    requires |w| > 0 && AllDigits(w) && AllDigits(fraction) && |fraction| > 0
    ensures Decimal(w + ("." + fraction)) == Some(PointValue(w, fraction))
  {
    var p := "." + fraction;
    var t := w + p;
    forall i | 0 <= i < |t| ensures t[i] != 'e' && t[i] != 'E' {
      if i > |w| { assert t[i] == fraction[i - |w| - 1]; }
    }
    NoExponent(t);
    MantissaPoint(w, fraction);
  }

  /** Text without `e` or `E` is read as a bare mantissa. */
  lemma NoExponent(t: string)
    requires forall i :: 0 <= i < |t| ==> t[i] != 'e' && t[i] != 'E'
    ensures Decimal(t) == Mantissa(t)
  {
    assert FindEither(t, 'e', 'E') == |t|;
    assert t[..|t|] == t;
  }

  lemma MantissaPoint(w: string, fraction: string)
    requires AllDigits(w) && AllDigits(fraction) && |fraction| > 0
    ensures Mantissa(w + ("." + fraction)) == Some(PointValue(w, fraction))
  {
    var p := "." + fraction;
    var t := w + p;
    FindEitherSkip(w, p, '.', '.');
    assert FindEither(t, '.', '.') == |w|;
    assert t[..|w|] == w && t[|w| + 1..] == fraction;
  }

  lemma PointOfDigits(whole: nat, fraction: string)
    requires AllDigits(fraction)
    ensures PointValue(Digits(whole), fraction) == whole as real + ParseDigits(fraction) as real / Pow10(|fraction|)
  {
    ParseDigitsInverse(whole);
  }

  /** The search passes over a prefix holding neither character. */
  lemma {:induction false} FindEitherSkip(p: string, rest: string, a: char, b: char)
    requires forall i :: 0 <= i < |p| ==> p[i] != a && p[i] != b
    ensures FindEither(p + rest, a, b) == |p| + FindEither(rest, a, b)
  {
    if |p| > 0 {
      assert (p + rest)[1..] == p[1..] + rest;
      FindEitherSkip(p[1..], rest, a, b);
    } else {
      assert p + rest == rest;
    }
  }

  /** A text that starts with a digit spells none of the words. */
  lemma DigitLed(t: string)
    requires |t| > 0 && IsDigit(t[0])
    ensures !Spells(t, "nan") && !Spells(t, "inf") && !Spells(t, "infinity")
  {
    assert LowerChar(t[0]) == t[0];
    assert "nan"[0] == 'n' && "inf"[0] == 'i' && "infinity"[0] == 'i';
  }
}
