/**
 * `format_number` and `format_text`: a token read from a data file becomes
 * a number with three significant digits, written as a plain decimal for
 * magnitudes from about 0.1 to 1000 and in scientific notation otherwise;
 * text that is not a number passes through.
 */
module NumberFormat {
  import opened Wrappers
  import opened Text
  import opened Decimal
  import opened DecimalText

  // ---------------------------------------------------------------------
  // The exponent

  /**
   * `base, exponent = f"{abs(d):.3e}".split('e')` followed by
   * `int(exponent)`; None where either step raises ValueError.
   */
  function ExponentOf(d: Dec): Option<int>
  {
    var parts := SplitOn(SciString(Abs(d), 3), 'e');
    if |parts| == 2 then ParseInt(parts[1]) else None
  }

  /**
   * The exponent `format(y, ".3e")` writes: that of y's leading digit
   * after rounding to four digits, or for a zero its exponent plus 3.
   */
  function SciExponent(y: Dec): int
  {
    if y.coef == 0 then y.exp + 3 else Adjusted(RoundSig(y, 4, HalfEven))
  }

  /** The split and the integer parse never fail: the exponent is the one the text was written with. */
  lemma ExponentOfAbs(d: Dec)
    ensures ExponentOf(d) == Some(SciExponent(Abs(d)))
  {
    var y := Abs(d);
    var z := RoundSig(y, 4, HalfEven);
    if y.coef != 0 {
      RoundSigShape(y, 4, HalfEven);
    }
    var m := SciLayoutSplit(z, 3);
    var k := SciExponent(y);
    assert SplitOn(SciString(y, 3), 'e') == [m, ExpString(k)];
    ExpStringReadsBack(k);
  }

  /**
   * For a nonzero d of ordinary size (at least 10^Emin) the exponent is that
   * of d's leading digit, or one more when rounding |d| to ten and then to
   * four digits carries into a new leading digit.
   */
  lemma ExponentNear(d: Dec)
    requires d.coef != 0 && Adjusted(d) >= Emin
    ensures SciExponent(Abs(d)) == Adjusted(d) || SciExponent(Abs(d)) == Adjusted(d) + 1
  {
    var y := Abs(d);
    AbsNormal(d);
    if Adjusted(y) == Adjusted(d) {
      RoundSigShape(y, 4, HalfEven);
    } else {
      RoundSigOfPower(y, Prec - 1, 4, HalfEven);
    }
  }

  /** `abs()` of a nonzero d of ordinary size keeps its leading place, or carries to exactly 10^(Prec-1) units. */
  lemma AbsNormal(d: Dec)
    requires d.coef != 0 && Adjusted(d) >= Emin
    ensures Abs(d).coef != 0
    ensures || Adjusted(Abs(d)) == Adjusted(d)
            || (Adjusted(Abs(d)) == Adjusted(d) + 1 && Abs(d).coef == Pow10(Prec - 1))
  {
    FixShape(Dec(false, d.coef, d.exp), Prec);
  }

  /**
   * A nonzero d below 10^Emin gets an exponent far below -1: `abs()` rounds
   * it at exponent Etiny, to zero or to a value still below 10^(Emin+1).
   */
  lemma ExponentTiny(d: Dec)
    requires d.coef != 0 && Adjusted(d) < Emin
    ensures SciExponent(Abs(d)) <= Emin + 1
  {
    var y := Abs(d);
    AbsBelowEmin(d);
    if y.coef != 0 {
      RoundSigShape(y, 4, HalfEven);
    }
  }

  /** An exponent of Emin + 2 or more puts d's leading digit at that place or one below it. */
  lemma ExponentPlace(d: Dec)
    requires d.coef != 0 && SciExponent(Abs(d)) >= Emin + 2
    ensures Adjusted(d) == SciExponent(Abs(d)) || Adjusted(d) == SciExponent(Abs(d)) - 1
  {
    if Adjusted(d) < Emin {
      ExponentTiny(d);
    } else {
      ExponentNear(d);
    }
  }

  // ---------------------------------------------------------------------
  // format_number and format_text

  /** The error path: text with an exponent mark comes back as it is, other text stripped. */
  function Unparsed(value: string): string
  {
    if 'E' in value || 'e' in value then value else Strip(value)
  }

  /**
   * `format_number(value)` for a string value, or None where it raises
   * decimal.InvalidOperation (which `except (ValueError,
   * ZeroDivisionError)` does not catch).  `float(value.strip())` and
   * `Decimal(value)` both read ReadNumber of the stripped text; float()'s
   * overflow to infinity is FloatFinite, and `Decimal(value)` raises where
   * the value does not satisfy Converts.
   */
  function FormatNumber(value: string): Option<string>
  {
    match ReadNumber(Strip(value))
    case None => Some(Unparsed(value))
    case Some(Infinite) => Some(value)
    case Some(NotANumber) => Some(value)
    case Some(Finite(d)) =>
      if !FloatFinite(d) then Some(value)
      else if !Converts(d) then None
      else if d.coef == 0 then Some("0.00")
      else match ExponentOf(d)
        case None => Some(Unparsed(value))
        case Some(e) => FormatAtExponent(d, e)
  }

  /** The branches on the exponent e of a nonzero d. */
  function FormatAtExponent(d: Dec, e: int): Option<string>
  {
    if -1 <= e <= 2 then
      var places: nat := 3 - (e + 1);
      if places > 0 then
        var q: nat := if places < 10 then places else 10;
        match Quantize(d, -(q as int), HalfUp)
        case None => None
        case Some(r) => Some(PlainText(r, places))
      else Some(IntToString(Trunc(d)))
    else
      match Quantize(d, e - 2, HalfUp)
      case None => None
      case Some(r) => Some(SciText(r))
  }

  /** `f"{r:.2e}".replace('e', 'E')` */
  function SciText(r: Dec): string
  {
    ReplaceChar(SciString(r, 2), 'e', 'E')
  }

  /** `format_text(text)`: format_number, or the stripped text when it raises. */
  function FormatText(text: string): string
  {
    match FormatNumber(text)
    case Some(s) => s
    case None => Strip(text)
  }

  // ---------------------------------------------------------------------
  // What format_number promises

  /**
   * Text float() rejects comes back unchanged when it holds an exponent
   * mark and stripped otherwise; inf, nan and numbers too large for a
   * float come back exactly as given; a value `Decimal()` refuses raises;
   * any other zero, of either sign, is "0.00".
   */
  lemma FormatNumberPassThrough(value: string)
    ensures ReadNumber(Strip(value)).None? ==>
              FormatNumber(value) == Some(if 'E' in value || 'e' in value then value else Strip(value))
    ensures ReadNumber(Strip(value)) == Some(Infinite) || ReadNumber(Strip(value)) == Some(NotANumber) ==>
              FormatNumber(value) == Some(value)
    ensures ReadNumber(Strip(value)).Some? && ReadNumber(Strip(value)).value.Finite? ==>
              var d := ReadNumber(Strip(value)).value.value;
              (!FloatFinite(d) ==> FormatNumber(value) == Some(value))
              && (FloatFinite(d) && !Converts(d) ==> FormatNumber(value).None?)
              && (FloatFinite(d) && Converts(d) && d.coef == 0 ==> FormatNumber(value) == Some("0.00"))
  {
  }

  /** A finite nonzero number is formatted by the exponent `f"{abs(d):.3e}"` writes. */
  lemma FormatNumberFinite(value: string, d: Dec)
    requires ReadNumber(Strip(value)) == Some(Finite(d)) && FloatFinite(d) && Converts(d) && d.coef != 0
    ensures FormatNumber(value) == FormatAtExponent(d, SciExponent(Abs(d)))
  {
    ExponentOfAbs(d);
  }

  /**
   * Exponents -1, 0 and 1 give a plain decimal: d rounded half-up to 2 - e
   * places (so to three significant digits, a coefficient of at most
   * 1000), written without an exponent, with the zeros it ends in and then
   * a bare point stripped.  TrimmedFixedReadsBack states what that text is:
   * it reads back as exactly the rounded value and ends in a digit, a
   * nonzero one when it has a point.
   */
  lemma FormatNumberPlain(value: string, d: Dec, e: int)
    requires ReadNumber(Strip(value)) == Some(Finite(d)) && FloatFinite(d) && Converts(d) && d.coef != 0
    requires SciExponent(Abs(d)) == e && -1 <= e <= 1
    ensures var r := Rescale(d, e - 2, HalfUp);
            && r.coef <= 1000 && r.coef != 0
            && FormatNumber(value) == Some(PlainText(r, 2 - e))
  {
    ExponentPlace(d);
    var r := PlainBranch(d, e);
    FormatNumberFinite(value, d);
  }

  /** On the plain branch quantize succeeds, with a nonzero coefficient of at most 1000. */
  lemma PlainBranch(d: Dec, e: int) returns (r: Dec)
    requires d.coef != 0 && -1 <= e <= 1 && (Adjusted(d) == e || Adjusted(d) == e - 1)
    ensures r == Rescale(d, e - 2, HalfUp) && r.coef <= 1000 && r.coef != 0
    ensures FormatAtExponent(d, e) == Some(PlainText(r, 2 - e))
  {
    var t := e - 2;
    QuantizeSucceeds(d, t, HalfUp);
    r := Rescale(d, t, HalfUp);
    PlainAtExponent(d, e, r);
    RescaleThreeDigits(d, t, HalfUp);
    RescaleNonzero(d, t, HalfUp);
  }

  lemma PlainAtExponent(d: Dec, e: int, r: Dec)
    requires -1 <= e <= 1 && Quantize(d, e - 2, HalfUp) == Some(r)
    ensures FormatAtExponent(d, e) == Some(PlainText(r, 2 - e))
  {
  }

  /**
   * Exponent 2 gives `int(d)`: the integer part, truncated toward zero and
   * not rounded, which reads back with int().
   */
  lemma FormatNumberWhole(value: string, d: Dec)
    requires ReadNumber(Strip(value)) == Some(Finite(d)) && FloatFinite(d) && Converts(d) && d.coef != 0
    requires SciExponent(Abs(d)) == 2
    ensures FormatNumber(value) == Some(IntToString(Trunc(d)))
    ensures ParseInt(IntToString(Trunc(d))) == Some(Trunc(d))
    ensures d.exp < 0 ==> Scale(TruncMagnitude(d), -d.exp) <= d.coef < Scale(TruncMagnitude(d) + 1, -d.exp)
    ensures Trunc(d) != 0 ==> (Trunc(d) < 0 <==> d.neg)
  {
    FormatNumberFinite(value, d);
    ParseIntToString(Trunc(d));
    TruncTowardZero(d);
  }

  /**
   * Any other exponent of a d of ordinary size gives scientific notation:
   * d quantized half-up to 10^(e-2) (three significant digits, a
   * coefficient of at most 1000), written as one digit, a point, two
   * digits, `E` and a signed exponent, which reads back as that value.
   */
  lemma FormatNumberScientific(value: string, d: Dec, e: int)
    requires ReadNumber(Strip(value)) == Some(Finite(d)) && FloatFinite(d) && Converts(d) && d.coef != 0
    requires SciExponent(Abs(d)) == e && (e < -1 || e > 2)
    requires Adjusted(d) >= Emin
    ensures var r := Rescale(d, e - 2, HalfUp);
            && r.coef <= 1000 && r.coef != 0
            && FormatNumber(value) == Some(SciText(r))
            && var s := SciText(r);
            && (exists mantissa: string, k: int ::
                  && s == mantissa + "E" + ExpString(k)
                  && |mantissa| == (if d.neg then 5 else 4) && mantissa[|mantissa| - 3] == '.')
            && ReadNumber(s).Some? && ReadNumber(s).value.Finite?
            && SameValue(ReadNumber(s).value.value, r)
  {
    ExponentNear(d);
    assert Adjusted(d) <= 308;
    var r := ScientificBranch(d, e);
    FormatNumberFinite(value, d);
    var mantissa, k := ScientificReadsBack(r);
  }

  /** On the scientific branch, for d of ordinary size, quantize succeeds with a nonzero coefficient of at most 1000. */
  lemma ScientificBranch(d: Dec, e: int) returns (r: Dec)
    requires d.coef != 0 && Emin <= Adjusted(d) <= 308 && (Adjusted(d) == e || Adjusted(d) == e - 1)
    requires e < -1 || e > 2
    ensures r == Rescale(d, e - 2, HalfUp) && r.coef <= 1000 && r.coef != 0 && r.neg == d.neg
    ensures FormatAtExponent(d, e) == Some(SciText(r))
  {
    var t := e - 2;
    QuantizeSucceeds(d, t, HalfUp);
    r := Rescale(d, t, HalfUp);
    SciAtExponent(d, e, r);
    RescaleThreeDigits(d, t, HalfUp);
    RescaleNonzero(d, t, HalfUp);
  }

  lemma SciAtExponent(d: Dec, e: int, r: Dec)
    requires (e < -1 || e > 2) && Quantize(d, e - 2, HalfUp) == Some(r)
    ensures FormatAtExponent(d, e) == Some(SciText(r))
  {
  }

  /**
   * format_number raises only where `Decimal(value)` refuses a value float()
   * accepts, or for a nonzero number below 10^Emin (far smaller than any
   * float), where quantize's target exponent falls below Etiny.
   */
  lemma FormatNumberRaises(value: string)
    ensures FormatNumber(value).None? ==> MayRaise(value)
  {
    var n := ReadNumber(Strip(value));
    if n.Some? && n.value.Finite? {
      var d := n.value.value;
      if FloatFinite(d) && Converts(d) && d.coef != 0 && Adjusted(d) >= Emin {
        FormatNumberFinite(value, d);
        ExponentNear(d);
        var e := SciExponent(Abs(d));
        if -1 <= e <= 1 {
          var r := PlainBranch(d, e);
        } else if e < -1 || e > 2 {
          assert Adjusted(d) <= 308;
          var r := ScientificBranch(d, e);
        }
      }
    }
  }

  /**
   * The stripped text reads as a number float() accepts that `Decimal()`
   * refuses, or as a nonzero number below 10^Emin, far smaller than any
   * float.
   */
  predicate MayRaise(value: string) {
    && ReadNumber(Strip(value)).Some? && ReadNumber(Strip(value)).value.Finite?
    && var d := ReadNumber(Strip(value)).value.value;
    FloatFinite(d) && (!Converts(d) || (d.coef != 0 && Adjusted(d) < Emin))
  }

  /**
   * format_text never fails.  For every text outside MayRaise it is exactly
   * format_number's result; only inside it can format_number raise, and
   * then the stripped text comes back.
   */
  lemma FormatTextTotal(text: string)
    ensures !MayRaise(text) ==> FormatNumber(text).Some? && FormatText(text) == FormatNumber(text).value
    ensures FormatNumber(text).None? ==> MayRaise(text) && FormatText(text) == Strip(text)
  {
    FormatNumberRaises(text);
  }
}
