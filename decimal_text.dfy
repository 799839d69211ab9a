/**
 * Decimals as text: what `float(s)` accepts and the exact value `Decimal(s)`
 * reads from the same string, and the two renderings `format_number` uses,
 * `format(x, ".Nf")` and `format(x, ".Ne")`.
 */
module DecimalText {
  import opened Wrappers
  import opened Text
  import opened Decimal

  // ---------------------------------------------------------------------
  // Digit strings and their values

  function Zeros(k: nat): (z: string)
    ensures |z| == k && forall i | 0 <= i < k :: z[i] == '0'
  {
    seq(k, _ => '0')
  }

  /** Leading zeros do not change the value of a digit string. */
  lemma {:induction false} LeadingZerosValue(k: nat, s: string)
    requires AllDigits(s)
    ensures AllDigits(Zeros(k) + s) && DigitsValue(Zeros(k) + s) == DigitsValue(s)
    decreases |s|
  {
    var z := Zeros(k) + s;
    if s == [] {
      ZerosValue(k);
      assert z == Zeros(k);
    } else {
      LeadingZerosValue(k, s[..|s| - 1]);
      assert z[..|z| - 1] == Zeros(k) + s[..|s| - 1];
    }
  }

  lemma {:induction false} ZerosValue(k: nat)
    ensures DigitsValue(Zeros(k)) == 0
  {
    if k > 0 {
      ZerosValue(k - 1);
      assert Zeros(k)[..k - 1] == Zeros(k - 1);
    }
  }

  /** Trailing zeros multiply the value of a digit string by a power of ten. */
  lemma {:induction false} TrailingZerosValue(s: string, k: nat)
    requires AllDigits(s)
    ensures AllDigits(s + Zeros(k)) && DigitsValue(s + Zeros(k)) == Scale(DigitsValue(s), k)
  {
    if k > 0 {
      TrailingZerosValue(s, k - 1);
      var z := s + Zeros(k);
      assert z[..|z| - 1] == s + Zeros(k - 1);
    } else {
      assert s + Zeros(0) == s;
    }
  }

  /** `str(n)` has as many characters as n has digits. */
  lemma {:induction false} NatToStringLength(n: nat)
    ensures |NatToString(n)| == NumDigits(n)
  {
    if n >= 10 {
      NatToStringLength(n / 10);
    }
  }

  lemma AllDigitsAppend(a: string, b: string)
    requires AllDigits(a) && AllDigits(b)
    ensures AllDigits(a + b)
  {
  }

  // ---------------------------------------------------------------------
  // Reading a number: float(s) and Decimal(s)

  /** What float() makes of a string it accepts. */
  datatype Literal = Finite(value: Dec) | Infinite | NotANumber

  /** The position of the first exponent mark, 'e' or 'E', in s, or |s| when there is none. */
  function FindExponentMark(s: string): (i: nat)
    ensures i <= |s|
    ensures i < |s| ==> s[i] == 'e' || s[i] == 'E'
  {
    if s == [] || s[0] == 'e' || s[0] == 'E' then 0 else 1 + FindExponentMark(s[1..])
  }

  /** The search for the mark passes over a prefix without one. */
  lemma {:induction false} FindExponentMarkSkips(a: string, b: string)
    requires forall k | 0 <= k < |a| :: a[k] != 'e' && a[k] != 'E'
    ensures FindExponentMark(a + b) == |a| + FindExponentMark(b)
    decreases |a|
  {
    if a != [] {
      assert (a + b)[0] == a[0];
      assert (a + b)[1..] == a[1..] + b;
      FindExponentMarkSkips(a[1..], b);
    } else {
      assert a + b == b;
    }
  }

  /**
   * The unsigned mantissa before the mark: a digit group, or digit groups
   * on either side of one '.', at least one of them present (`1.`, `.5`, `1.5`).
   */
  function ReadMantissa(s: string): Option<Dec>
  {
    var j := FindChar(s, '.');
    if j == |s| then
      if IsDigitPart(s) then Some(Dec(false, DigitsValue(DropUnderscores(s)), 0)) else None
    else ReadFraction(s[..j], s[j + 1..])
  }

  /** The digit groups before and after the point; either may be empty, not both. */
  function ReadFraction(ip: string, fp: string): Option<Dec>
  {
    if (ip == [] || IsDigitPart(ip)) && (fp == [] || IsDigitPart(fp)) && (ip != [] || fp != []) then
      var id, fd := DropUnderscores(ip), DropUnderscores(fp);
      AllDigitsAppend(id, fd);
      Some(Dec(false, DigitsValue(id + fd), -|fd|))
    else None
  }

  /**
   * What `float(s)` accepts, for an s without surrounding whitespace, and the
   * exact value `Decimal(s)` reads from it; None where float() raises
   * ValueError.  The words inf, infinity and nan are matched without regard
   * to ASCII case, after an optional sign.
   */
  function ReadNumber(s: string): Option<Literal>
  {
    var neg := s != [] && s[0] == '-';
    var body := if s != [] && (s[0] == '+' || s[0] == '-') then s[1..] else s;
    var word := LowerAscii(body);
    if word == "inf" || word == "infinity" then Some(Infinite)
    else if word == "nan" then Some(NotANumber)
    else match ReadUnsigned(body)
      case None => None
      case Some(u) => Some(Finite(Dec(neg, u.coef, u.exp)))
  }

  /** An unsigned number: a mantissa, then optionally an exponent mark and an exponent. */
  function ReadUnsigned(body: string): Option<Dec>
  {
    var i := FindExponentMark(body);
    var e := if i == |body| then Some(0) else ParseSigned(body[i + 1..]);
    if e.None? then None else Shifted(ReadMantissa(body[..i]), e.value)
  }

  /** A mantissa read, moved k places by its exponent. */
  function Shifted(m: Option<Dec>, k: int): Option<Dec>
  {
    match m
    case None => None
    case Some(d) => Some(Dec(false, d.coef, d.exp + k))
  }

  lemma ShiftedSome(m: Option<Dec>, u: Dec, k: int)
    requires m == Some(u)
    ensures Shifted(m, k) == Some(Dec(false, u.coef, u.exp + k))
  {
  }

  /**
   * 2^1024 - 2^970, written out: the least magnitude that float() rounds to
   * infinity (halfway between the largest double, (2^53 - 1) * 2^971, and
   * 2^1024).
   */
  const FloatOverflow: nat := 179_769_313_486_231_580_793_728_971_405_303_415_079_934_132_710_037_826_936_173_778_980_444_968_292_764_750_946_649_017_977_587_207_096_330_286_416_692_887_910_946_555_547_851_940_402_630_657_488_671_505_820_681_908_902_000_708_383_676_273_854_845_817_711_531_764_475_730_270_069_855_571_366_959_622_842_914_819_860_834_936_475_292_719_074_168_444_365_510_704_342_711_559_699_508_093_042_880_177_904_174_497_792

  /**
   * float() of x is finite: |x| < 2^1024 - 2^970, a bound of about 1.8e308.
   * A value whose leading digit is below 10^308 is under that bound and one
   * whose leading digit is above it is over, so only an adjusted exponent of
   * exactly 308 needs the comparison.
   */
  predicate FloatFinite(x: Dec)
  {
    || x.coef == 0
    || Adjusted(x) < 308
    || (&& Adjusted(x) == 308
        && if x.exp >= 0 then Scale(x.coef, x.exp) < FloatOverflow
           else x.coef < Scale(FloatOverflow, -x.exp))
  }

  // ---------------------------------------------------------------------
  // Rendering: format(x, ".Nf") and format(x, ".Ne")

  /** Python's `"{:+}".format(e)`: an exponent with its sign always written. */
  function ExpString(e: int): (s: string)
    ensures s != [] && 'e' !in s && 'E' !in s && '.' !in s
  {
    var digits := NatToString(if e < 0 then -e else e);
    assert 'e' !in digits && 'E' !in digits && '.' !in digits by {
      forall k | 0 <= k < |digits| ensures IsDigit(digits[k]) { }
    }
    (if e < 0 then "-" else "+") + digits
  }

  /** `int("{:+}".format(e)) == e`: the exponent text reads back as the exponent. */
  lemma ExpStringReadsBack(e: int)
    ensures ParseInt(ExpString(e)) == Some(e)
  {
    var s := ExpString(e);
    assert !IsSpace(s[0]) && !IsSpace(s[|s| - 1]) by {
      NoSpaceDigits(NatToString(if e < 0 then -e else e));
    }
    StripUnpadded(s);
    ExpStringReadsAsExponent(e);
  }

  /** The exponent text after the mark reads back as the exponent. */
  lemma ExpStringReadsAsExponent(e: int)
    ensures ParseSigned(ExpString(e)) == Some(e)
  {
    ParseSignedDigits(if e < 0 then '-' else '+', NatToString(if e < 0 then -e else e));
  }

  /**
   * Python's `format(x, f".{t}f")`: x rounded half-even to t places after
   * the point, written without an exponent.
   */
  function FixedString(x: Dec, t: nat): string
  {
    var y := Rescale(x, -(t as int), HalfEven);
    FixedLayout(y.neg, NatToString(y.coef), t)
  }

  /** `format(x, f".{t}f").rstrip('0').rstrip('.')`: the 'f' text without the zeros it ends in, then without a bare point. */
  function PlainText(x: Dec, t: nat): string
  {
    RStripChar(RStripChar(FixedString(x, t), '0'), '.')
  }

  /**
   * Where 'f' format puts the point among the digits of a coefficient
   * with t places: at least one digit before it, zeros filled in when the
   * coefficient is shorter than t + 1 digits, no point when t is 0.
   */
  function FixedLayout(neg: bool, digits: string, t: nat): string
  {
    var dot := |digits| - t;
    var intpart := if dot <= 0 then "0" else digits[..dot];
    var frac := if dot < 0 then Zeros(-dot) + digits else digits[dot..];
    (if neg then "-" else "") + intpart + (if frac != [] then "." + frac else "")
  }

  lemma FixedLayoutParts(neg: bool, digits: string, t: nat) returns (intpart: string, frac: string)
    requires AllDigits(digits) && t >= 1
    ensures FixedLayout(neg, digits, t) == (if neg then "-" else "") + intpart + "." + frac
    ensures intpart != [] && AllDigits(intpart) && AllDigits(frac) && |frac| == t
    ensures AllDigits(intpart + frac) && DigitsValue(intpart + frac) == DigitsValue(digits)
  {
    var dot := |digits| - t;
    if dot > 0 {
      intpart, frac := digits[..dot], digits[dot..];
      DigitsSplit(digits, dot);
    } else {
      intpart := "0";
      frac := if dot < 0 then Zeros(-dot) + digits else digits;
      DigitsPadded(digits, t);
    }
  }

  lemma DigitsSplit(digits: string, dot: nat)
    requires AllDigits(digits) && dot <= |digits|
    ensures AllDigits(digits[..dot]) && AllDigits(digits[dot..])
    ensures digits[..dot] + digits[dot..] == digits
  {
  }

  lemma DigitsPadded(digits: string, t: nat)
    requires AllDigits(digits) && |digits| <= t
    ensures var frac := if |digits| < t then Zeros(t - |digits|) + digits else digits;
            && |frac| == t && AllDigits(frac)
            && AllDigits("0" + frac) && DigitsValue("0" + frac) == DigitsValue(digits)
  {
    var m := t - |digits|;
    var frac := if |digits| < t then Zeros(m) + digits else digits;
    assert frac == Zeros(m) + digits;
    LeadingZerosValue(m, digits);
    LeadingZerosValue(m + 1, digits);
    OneMoreZero(m, digits);
  }

  lemma OneMoreZero(m: nat, digits: string)
    ensures "0" + (Zeros(m) + digits) == Zeros(m + 1) + digits
  {
  }

  /**
   * A value with exactly t places written with t places: its sign, a
   * non-empty integer part, a point and t digits, which together spell out
   * the coefficient.
   */
  lemma FixedStringParts(y: Dec, t: nat) returns (intpart: string, frac: string)
    requires y.exp == -(t as int) && t >= 1
    ensures FixedString(y, t) == (if y.neg then "-" else "") + intpart + "." + frac
    ensures intpart != [] && AllDigits(intpart) && AllDigits(frac) && |frac| == t
    ensures AllDigits(intpart + frac) && DigitsValue(intpart + frac) == y.coef
  {
    RescaleSameExponent(y, HalfEven);
    intpart, frac := FixedLayoutParts(y.neg, NatToString(y.coef), t);
  }

  /**
   * Python's `format(x, f".{p}e")`: x rounded half-even to p + 1 significant
   * digits, written as one digit, a point and p digits, then `e` and the
   * signed exponent.  A zero keeps its exponent, shifted by p.
   */
  function SciString(x: Dec, p: nat): string
  {
    SciLayout(RoundSig(x, p + 1, HalfEven), p)
  }

  /** 'e' format of a value already rounded to p + 1 digits. */
  function SciLayout(y: Dec, p: nat): string
  {
    var sign := if y.neg then "-" else "";
    if y.coef == 0 then
      sign + "0" + (if p > 0 then "." + Zeros(p) else "") + "e" + ExpString(y.exp + p)
    else
      SciMantissa(y.neg, NatToString(y.coef)) + "e" + ExpString(Adjusted(y))
  }

  /** The part of a nonzero value in 'e' format before the `e`: one digit, then the point and the rest. */
  function SciMantissa(neg: bool, digits: string): string
    requires digits != []
  {
    (if neg then "-" else "") + digits[..1] + (if |digits| > 1 then "." + digits[1..] else "")
  }

  /**
   * A nonzero value of p + 1 digits in 'e' format: the part before the `e`
   * holds only a sign, digits and a point; the part after it is the
   * adjusted exponent.  The mantissa spells out the p + 1 digits of the
   * coefficient.
   */
  lemma SciLayoutParts(y: Dec, p: nat) returns (mantissa: string)
    requires y.coef != 0 && NumDigits(y.coef) == p + 1
    ensures SciLayout(y, p) == mantissa + "e" + ExpString(Adjusted(y))
    ensures 'e' !in mantissa && 'E' !in mantissa
    ensures var digits := NatToString(y.coef);
            |digits| == p + 1 && mantissa == SciMantissa(y.neg, digits)
  {
    var digits := NatToString(y.coef);
    NatToStringLength(y.coef);
    mantissa := SciMantissa(y.neg, digits);
    MantissaHasNoMark(y.neg, digits);
  }

  lemma MantissaHasNoMark(neg: bool, digits: string)
    requires digits != [] && AllDigits(digits)
    ensures 'e' !in SciMantissa(neg, digits) && 'E' !in SciMantissa(neg, digits)
  {
    var m := SciMantissa(neg, digits);
    forall k | 0 <= k < |m| ensures m[k] == '-' || m[k] == '.' || IsDigit(m[k]) {
      var sign := if neg then "-" else "";
      if k >= |sign| + 1 && |digits| > 1 {
        if k > |sign| + 1 {
          assert m[k] == digits[k - |sign| - 1];
        }
      } else if k >= |sign| {
        assert m[k] == digits[0];
      }
    }
  }

  /**
   * `format(y, f".{p}e").split('e')` for a y already rounded to p + 1
   * digits: two pieces, the second the written exponent (the adjusted
   * exponent, or for a zero its exponent shifted by p).
   */
  lemma SciLayoutSplit(y: Dec, p: nat) returns (mantissa: string)
    requires y.coef == 0 || NumDigits(y.coef) == p + 1
    ensures SplitOn(SciLayout(y, p), 'e')
            == [mantissa, ExpString(if y.coef == 0 then y.exp + p else Adjusted(y))]
  {
    var k := if y.coef == 0 then y.exp + p else Adjusted(y);
    if y.coef == 0 {
      var sign := if y.neg then "-" else "";
      mantissa := sign + "0" + (if p > 0 then "." + Zeros(p) else "");
      ZeroMantissaHasNoMark(sign, p);
    } else {
      mantissa := SciLayoutParts(y, p);
    }
    var parts := [mantissa, ExpString(k)];
    assert parts[1..] == [ExpString(k)];
    assert Join(parts, ['e']) == SciLayout(y, p);
    SplitOnJoin(parts, 'e');
  }

  lemma ZeroMantissaHasNoMark(sign: string, p: nat)
    requires sign == "" || sign == "-"
    ensures 'e' !in sign + "0" + (if p > 0 then "." + Zeros(p) else "")
  {
    var m := sign + "0" + (if p > 0 then "." + Zeros(p) else "");
    forall j | 0 <= j < |m| ensures m[j] == '-' || m[j] == '0' || m[j] == '.' {
      if j > |sign| + 1 {
        assert m[j] == Zeros(p)[j - |sign| - 2];
      }
    }
  }

  // ---------------------------------------------------------------------
  // Reading back what was written

  lemma ReadMantissaWhole(intpart: string)
    requires intpart != [] && AllDigits(intpart)
    ensures ReadMantissa(intpart) == Some(Dec(false, DigitsValue(intpart), 0))
  {
    NoSpaceDigits(intpart);
    assert '.' !in intpart by {
      forall k | 0 <= k < |intpart| ensures IsDigit(intpart[k]) { }
    }
    FindCharAbsent(intpart, '.');
  }

  lemma ReadMantissaPointed(intpart: string, f: string)
    requires intpart != [] && AllDigits(intpart) && f != [] && AllDigits(f)
    ensures AllDigits(intpart + f)
    ensures ReadMantissa(intpart + "." + f) == Some(Dec(false, DigitsValue(intpart + f), -|f|))
  {
    var body := intpart + "." + f;
    PointAfterDigits(intpart, f);
    assert body[..|intpart|] == intpart;
    assert body[|intpart| + 1..] == f;
    ReadFractionDigits(intpart, f);
  }

  lemma PointAfterDigits(intpart: string, f: string)
    requires AllDigits(intpart)
    ensures FindChar(intpart + "." + f, '.') == |intpart|
  {
    assert '.' !in intpart by {
      forall k | 0 <= k < |intpart| ensures IsDigit(intpart[k]) { }
    }
    assert intpart + "." + f == intpart + ("." + f);
    FindCharAt(intpart, "." + f, '.');
  }

  lemma ReadFractionDigits(intpart: string, f: string)
    requires intpart != [] && AllDigits(intpart) && f != [] && AllDigits(f)
    ensures AllDigits(intpart + f)
    ensures ReadFraction(intpart, f) == Some(Dec(false, DigitsValue(intpart + f), -|f|))
  {
    NoSpaceDigits(intpart);
    NoSpaceDigits(f);
    assert DropUnderscores(intpart) == intpart && DropUnderscores(f) == f;
  }

  /**
   * After an optional minus sign, a body starting with a digit is what
   * float() reads as the unsigned number, with the sign applied.
   */
  lemma ReadSigned(sign: string, body: string)
    requires sign == "" || sign == "-"
    requires body != [] && IsDigit(body[0])
    ensures ReadNumber(sign + body)
            == match ReadUnsigned(body)
               case None => None
               case Some(u) => Some(Finite(Dec(sign == "-", u.coef, u.exp)))
  {
    var s := sign + body;
    NotAWord(body);
    var neg := s != [] && s[0] == '-';
    var b := if s != [] && (s[0] == '+' || s[0] == '-') then s[1..] else s;
    if sign == "-" {
      assert s[0] == '-' && s[1..] == body;
      assert neg && b == body;
    } else {
      assert s == body;
      assert s[0] != '+' && s[0] != '-';
      assert !neg && b == body;
    }
  }

  /** A text starting with a digit is none of the words inf, infinity and nan. */
  lemma NotAWord(body: string)
    requires body != [] && IsDigit(body[0])
    ensures LowerAscii(body) != "inf" && LowerAscii(body) != "infinity" && LowerAscii(body) != "nan"
  {
    var w := LowerAscii(body);
    assert w[0] == body[0];
    assert "inf"[0] == 'i' && "infinity"[0] == 'i' && "nan"[0] == 'n';
  }

  /** Digits and points only: the whole text is the mantissa. */
  lemma ReadUnsignedPlain(body: string)
    requires forall k | 0 <= k < |body| :: IsDigit(body[k]) || body[k] == '.'
    ensures ReadUnsigned(body) == Shifted(ReadMantissa(body), 0)
  {
    FindExponentMarkSkips(body, []);
    assert body + [] == body;
    assert body[..|body|] == body;
  }

  /** A mantissa of digits and points, the mark `E` and an exponent: the value of the mantissa, shifted. */
  lemma ReadUnsignedScientific(mant: string, x: string, k: int)
    requires forall j | 0 <= j < |mant| :: IsDigit(mant[j]) || mant[j] == '.'
    requires ParseSigned(x) == Some(k)
    ensures ReadUnsigned(mant + "E" + x) == Shifted(ReadMantissa(mant), k)
  {
    var body := mant + "E" + x;
    MarkAfterMantissa(mant, x);
    assert body[..|mant|] == mant;
    assert body[|mant| + 1..] == x;
    ReadUnsignedAt(body, |mant|, k);
  }

  lemma ReadUnsignedAt(body: string, i: nat, k: int)
    requires i < |body| && FindExponentMark(body) == i
    requires ParseSigned(body[i + 1..]) == Some(k)
    ensures ReadUnsigned(body) == Shifted(ReadMantissa(body[..i]), k)
  {
  }

  lemma MarkAfterMantissa(mant: string, x: string)
    requires forall j | 0 <= j < |mant| :: IsDigit(mant[j]) || mant[j] == '.'
    ensures FindExponentMark(mant + "E" + x) == |mant|
  {
    FindExponentMarkSkips(mant, "E" + x);
    assert mant + "E" + x == mant + ("E" + x);
  }

  /** A whole number written as an optional minus sign and digits reads back exactly. */
  lemma ReadWhole(sign: string, intpart: string)
    requires sign == "" || sign == "-"
    requires intpart != [] && AllDigits(intpart)
    ensures ReadNumber(sign + intpart) == Some(Finite(Dec(sign == "-", DigitsValue(intpart), 0)))
  {
    ReadMantissaWhole(intpart);
    ReadUnsignedPlain(intpart);
    ReadSigned(sign, intpart);
  }

  /** A number written as an optional minus sign, digits, a point and digits reads back exactly. */
  lemma ReadPointed(sign: string, intpart: string, f: string)
    requires sign == "" || sign == "-"
    requires intpart != [] && AllDigits(intpart) && f != [] && AllDigits(f)
    ensures AllDigits(intpart + f)
    ensures ReadNumber(sign + (intpart + "." + f))
            == Some(Finite(Dec(sign == "-", DigitsValue(intpart + f), -|f|)))
  {
    var body := intpart + "." + f;
    ReadMantissaPointed(intpart, f);
    PointedChars(intpart, f);
    ReadUnsignedPlain(body);
    ReadSigned(sign, body);
  }

  lemma PointedChars(intpart: string, f: string)
    requires AllDigits(intpart) && AllDigits(f)
    ensures var m := intpart + "." + f;
            forall j | 0 <= j < |m| :: IsDigit(m[j]) || m[j] == '.'
  {
    var m := intpart + "." + f;
    forall j | 0 <= j < |m| ensures IsDigit(m[j]) || m[j] == '.' {
      if j < |intpart| {
        assert m[j] == intpart[j];
      } else if j > |intpart| {
        assert m[j] == f[j - |intpart| - 1];
      }
    }
  }

  /**
   * A number written as an optional minus sign, `I.F`, the mark `E` and a
   * signed exponent reads back exactly.
   */
  lemma ReadScientific(sign: string, intpart: string, f: string, k: int)
    requires sign == "" || sign == "-"
    requires intpart != [] && AllDigits(intpart) && f != [] && AllDigits(f)
    ensures AllDigits(intpart + f)
    ensures ReadNumber(sign + (intpart + "." + f + "E" + ExpString(k)))
            == Some(Finite(Dec(sign == "-", DigitsValue(intpart + f), k - |f|)))
  {
    var mant := intpart + "." + f;
    var body := mant + "E" + ExpString(k);
    ReadMantissaPointed(intpart, f);
    PointedChars(intpart, f);
    ExpStringReadsAsExponent(k);
    ReadUnsignedScientific(mant, ExpString(k), k);
    ShiftedSome(ReadMantissa(mant), Dec(false, DigitsValue(intpart + f), -|f|), k);
    assert body[0] == intpart[0];
    ReadSigned(sign, body);
  }

  /**
   * `format(y, f".{t}f").rstrip('0').rstrip('.')` for a y with exactly t
   * places: the text reads back as the same value, it ends in a digit, and
   * when it has a point the last digit after the point is not 0.
   */
  lemma TrimmedFixedReadsBack(y: Dec, t: nat)
    requires y.exp == -(t as int) && t >= 1
    ensures var s := PlainText(y, t);
            && s != [] && IsDigit(s[|s| - 1])
            && ('.' in s ==> s[|s| - 1] != '0')
            && ReadNumber(s).Some? && ReadNumber(s).value.Finite?
            && SameValue(ReadNumber(s).value.value, y)
  {
    var sign, intpart, f, s := TrimmedFixedText(y, t);
    if f == [] {
      TrimmedWholeReads(y, sign, intpart, f);
    } else {
      TrimmedPointedReads(y, sign, intpart, f);
    }
  }

  /** The pieces of the trimmed 'f' text: sign, integer part and what is left of the fraction. */
  lemma TrimmedFixedText(y: Dec, t: nat) returns (sign: string, intpart: string, f: string, s: string)
    requires y.exp == -(t as int) && t >= 1
    ensures s == PlainText(y, t)
    ensures sign == (if y.neg then "-" else "")
    ensures intpart != [] && AllDigits(intpart) && AllDigits(f) && AllDigits(intpart + f)
    ensures f == [] || f[|f| - 1] != '0'
    ensures s == if f == [] then sign + intpart else sign + (intpart + "." + f)
    ensures SameValue(Dec(y.neg, DigitsValue(intpart + f), -|f|), y)
  {
    var frac;
    intpart, frac := FixedStringParts(y, t);
    sign := if y.neg then "-" else "";
    f := TrimmedLayout(sign, intpart, frac);
    s := PlainText(y, t);
    DroppedZerosSameValue(y, intpart, frac, f);
  }

  lemma TrimmedWholeReads(y: Dec, sign: string, intpart: string, f: string)
    requires sign == (if y.neg then "-" else "") && f == []
    requires intpart != [] && AllDigits(intpart)
    requires SameValue(Dec(y.neg, DigitsValue(intpart + f), -|f|), y)
    ensures var s := sign + intpart;
            && s != [] && IsDigit(s[|s| - 1]) && '.' !in s
            && ReadNumber(s).Some? && ReadNumber(s).value.Finite?
            && SameValue(ReadNumber(s).value.value, y)
  {
    ReadWhole(sign, intpart);
    assert intpart + f == intpart;
    NoPointInDigits(sign, intpart);
  }

  lemma TrimmedPointedReads(y: Dec, sign: string, intpart: string, f: string)
    requires sign == (if y.neg then "-" else "") && f != [] && f[|f| - 1] != '0'
    requires intpart != [] && AllDigits(intpart) && AllDigits(f)
    requires SameValue(Dec(y.neg, DigitsValue(intpart + f), -|f|), y)
    ensures var s := sign + (intpart + "." + f);
            && s != [] && IsDigit(s[|s| - 1]) && s[|s| - 1] != '0'
            && ReadNumber(s).Some? && ReadNumber(s).value.Finite?
            && SameValue(ReadNumber(s).value.value, y)
  {
    ReadPointed(sign, intpart, f);
    var s := sign + (intpart + "." + f);
    assert s[|s| - 1] == f[|f| - 1];
  }

  lemma NoPointInDigits(sign: string, intpart: string)
    requires sign == "" || sign == "-"
    requires AllDigits(intpart)
    ensures '.' !in sign + intpart
  {
    var s := sign + intpart;
    forall k | 0 <= k < |s| ensures s[k] != '.' {
      if k >= |sign| {
        assert s[k] == intpart[k - |sign|];
      }
    }
  }

  /**
   * `.rstrip('0').rstrip('.')` on `sign + I + "." + F`: the zeros F ends with
   * go, and the point goes with them when F was all zeros.
   */
  lemma TrimmedLayout(sign: string, intpart: string, frac: string) returns (f: string)
    requires sign == "" || sign == "-"
    requires intpart != [] && AllDigits(intpart) && AllDigits(frac)
    ensures RStripChar(RStripChar(sign + intpart + "." + frac, '0'), '.')
            == if f == [] then sign + intpart else sign + (intpart + "." + f)
    ensures |f| <= |frac| && frac == f + Zeros(|frac| - |f|) && AllDigits(f)
    ensures f == [] || f[|f| - 1] != '0'
  {
    var w := sign + intpart;
    assert w[|w| - 1] == intpart[|intpart| - 1];
    var head := w + ".";
    assert sign + intpart + "." + frac == head + frac;
    f := StripFractionZeros(head, frac);
    StripPoint(w, f);
    Regroup(sign, intpart, ".", f);
  }

  lemma Regroup(a: string, b: string, c: string, d: string)
    ensures (a + b) + c + d == (a + b) + (c + d) == a + (b + c + d)
  {
  }

  /** `rstrip('0')` after a point removes the zeros the fraction ends with and nothing else. */
  lemma StripFractionZeros(head: string, frac: string) returns (f: string)
    requires head != [] && head[|head| - 1] == '.' && AllDigits(frac)
    ensures RStripChar(head + frac, '0') == head + f
    ensures |f| <= |frac| && frac == f + Zeros(|frac| - |f|) && AllDigits(f)
    ensures f == [] || f[|f| - 1] != '0'
  {
    RStripCharKeepsPrefix(head, frac, '0');
    f := RStripChar(frac, '0');
    assert frac == f + Zeros(|frac| - |f|) by {
      assert forall k | |f| <= k < |frac| :: frac[k] == '0';
    }
    assert AllDigits(f) by {
      forall k | 0 <= k < |f| ensures IsDigit(f[k]) {
        assert f[k] == frac[k];
      }
    }
  }

  /** `rstrip('.')` removes the point only when no digit follows it. */
  lemma StripPoint(w: string, f: string)
    requires w != [] && IsDigit(w[|w| - 1]) && AllDigits(f)
    ensures RStripChar(w + ("." + f), '.') == if f == [] then w else w + ("." + f)
  {
    RStripCharKeepsPrefix(w, "." + f, '.');
    if f == [] {
      assert RStripChar(".", '.') == [];
      assert w + [] == w;
    } else {
      assert ("." + f)[|"." + f| - 1] == f[|f| - 1];
      assert RStripChar("." + f, '.') == "." + f;
    }
  }

  /** Dropping trailing zeros after the point keeps the value. */
  lemma DroppedZerosSameValue(y: Dec, intpart: string, frac: string, f: string)
    requires AllDigits(intpart) && AllDigits(frac) && AllDigits(f)
    requires |f| <= |frac| && frac == f + Zeros(|frac| - |f|)
    requires y.exp == -|frac| && AllDigits(intpart + frac) && DigitsValue(intpart + frac) == y.coef
    ensures AllDigits(intpart + f)
    ensures SameValue(Dec(y.neg, DigitsValue(intpart + f), -|f|), y)
  {
    var z := |frac| - |f|;
    assert intpart + frac == (intpart + f) + Zeros(z);
    TrailingZerosValue(intpart + f, z);
    var v := DigitsValue(intpart + f);
    var e: int := -|f|;
    assert y == Dec(y.neg, Scale(v, z), e - z);
    ScaledSameValue(y.neg, v, z, e);
    assert Dec(y.neg, v, e) == Dec(y.neg, DigitsValue(intpart + f), -|f|);
  }

  /** A coefficient of at most p digits, or exactly 10^p, survives rounding to p digits unchanged in value. */
  lemma RoundSigExact(r: Dec, p: nat, mode: Rounding)
    requires p >= 1 && r.coef != 0
    requires NumDigits(r.coef) <= p || r.coef == Pow10(p)
    ensures SameValue(RoundSig(r, p, mode), r)
  {
    if NumDigits(r.coef) <= p {
      RoundSigShortExact(r, p, mode);
    } else {
      RoundSigTenPowerExact(r, p, mode);
    }
  }

  lemma RoundSigShortExact(r: Dec, p: nat, mode: Rounding)
    requires p >= 1 && r.coef != 0 && NumDigits(r.coef) <= p
    ensures SameValue(RoundSig(r, p, mode), r)
  {
    var k := p - NumDigits(r.coef);
    RoundSigPads(r, p, mode);
    ScaledSameValue(r.neg, r.coef, k, r.exp);
  }

  lemma RoundSigTenPowerExact(r: Dec, p: nat, mode: Rounding)
    requires p >= 1 && r.coef == Pow10(p)
    ensures SameValue(RoundSig(r, p, mode), r)
  {
    RoundSigTenPower(r, p, mode);
    var c := Pow10(p - 1);
    var e := r.exp + 1;
    assert Pow10(1) == 10;
    assert Scale(c, 1) == Pow10(p);
    ScaledSameValue(r.neg, c, 1, e);
    assert r == Dec(r.neg, Scale(c, 1), e - 1);
  }

  /**
   * `format(r, ".2e").replace('e', 'E')` for a nonzero r of at most three
   * digits (or exactly 1000): a sign, one digit, a point, two digits, `E`
   * and the signed exponent; it reads back as r rounded to three digits,
   * which has r's value.
   */
  lemma ScientificReadsBack(r: Dec) returns (mantissa: string, k: int)
    requires r.coef != 0 && r.coef <= 1000
    ensures ReplaceChar(SciString(r, 2), 'e', 'E') == mantissa + "E" + ExpString(k)
    ensures |mantissa| == (if r.neg then 5 else 4) && mantissa[|mantissa| - 3] == '.'
    ensures var s := ReplaceChar(SciString(r, 2), 'e', 'E');
            ReadNumber(s) == Some(Finite(RoundSig(r, 3, HalfEven)))
    ensures SameValue(RoundSig(r, 3, HalfEven), r)
  {
    var y := RoundSig(r, 3, HalfEven);
    RoundSigShape(r, 3, HalfEven);
    mantissa, k := ScientificLayoutReadsBack(y);
    assert Pow10(3) == 1000;
    if r.coef < 1000 {
      NumDigitsBelow(r.coef, 3);
    }
    RoundSigExact(r, 3, HalfEven);
  }

  /** A nonzero value of three digits in 'e' format with two places, mark upper-cased, reads back as itself. */
  lemma ScientificLayoutReadsBack(y: Dec) returns (mantissa: string, k: int)
    requires y.coef != 0 && NumDigits(y.coef) == 3
    ensures ReplaceChar(SciLayout(y, 2), 'e', 'E') == mantissa + "E" + ExpString(k)
    ensures |mantissa| == (if y.neg then 5 else 4) && mantissa[|mantissa| - 3] == '.'
    ensures ReadNumber(ReplaceChar(SciLayout(y, 2), 'e', 'E')) == Some(Finite(y))
  {
    var sign, digits, text;
    sign, digits, mantissa, k, text := ScientificMarkText(y);
    ReadScientificDigits(sign, digits, k);
    assert y == Dec(sign == "-", DigitsValue(digits), k - 2);
  }

  /** `format(y, ".2e").replace('e', 'E')` for a nonzero y of three digits, piece by piece. */
  lemma ScientificMarkText(y: Dec) returns (sign: string, digits: string, mantissa: string, k: int, text: string)
    requires y.coef != 0 && NumDigits(y.coef) == 3
    ensures sign == (if y.neg then "-" else "")
    ensures digits == NatToString(y.coef) && |digits| == 3 && k == Adjusted(y) && k - 2 == y.exp
    ensures mantissa == sign + (digits[..1] + "." + digits[1..])
    ensures text == ReplaceChar(SciLayout(y, 2), 'e', 'E')
    ensures text == mantissa + "E" + ExpString(k)
    ensures text == sign + (digits[..1] + "." + digits[1..] + "E" + ExpString(k))
  {
    sign, digits, mantissa, k := ScientificText(y);
    var x := ExpString(k);
    ReplaceMark(mantissa, x);
    text := mantissa + "E" + x;
  }

  /** Three digits written as `d.dd`, the mark `E` and an exponent k read back as the digits times 10^(k-2). */
  lemma ReadScientificDigits(sign: string, digits: string, k: int)
    requires sign == "" || sign == "-"
    requires |digits| == 3 && AllDigits(digits)
    ensures ReadNumber(sign + (digits[..1] + "." + digits[1..] + "E" + ExpString(k)))
            == Some(Finite(Dec(sign == "-", DigitsValue(digits), k - 2)))
  {
    ReadScientific(sign, digits[..1], digits[1..], k);
    assert digits[..1] + digits[1..] == digits;
  }

  /** The pieces of `format(y, ".2e")` for a nonzero y of three digits. */
  lemma ScientificText(y: Dec) returns (sign: string, digits: string, mantissa: string, k: int)
    requires y.coef != 0 && NumDigits(y.coef) == 3
    ensures sign == (if y.neg then "-" else "")
    ensures digits == NatToString(y.coef) && |digits| == 3 && k == Adjusted(y) && k - 2 == y.exp
    ensures mantissa == sign + (digits[..1] + "." + digits[1..])
    ensures 'e' !in mantissa && 'e' !in ExpString(k)
    ensures SciLayout(y, 2) == mantissa + "e" + ExpString(k)
  {
    digits := NatToString(y.coef);
    sign := if y.neg then "-" else "";
    mantissa := SciLayoutParts(y, 2);
    k := Adjusted(y);
  }

  /** `.replace('e', 'E')` turns only the exponent mark into `E`. */
  lemma ReplaceMark(m: string, x: string)
    requires 'e' !in m && 'e' !in x
    ensures ReplaceChar(m + "e" + x, 'e', 'E') == m + "E" + x
  {
    var sci := m + "e" + x;
    var s := ReplaceChar(sci, 'e', 'E');
    forall j | 0 <= j < |s| ensures s[j] == (m + "E" + x)[j] {
      if j < |m| {
        assert sci[j] == m[j];
      } else if j > |m| {
        assert sci[j] == x[j - |m| - 1];
      }
    }
  }
}
