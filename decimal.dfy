/**
 * The part of Python's `decimal.Decimal` arithmetic that `format_number`
 * uses: exact finite decimals, rounding to a given exponent (`quantize`,
 * `_rescale`), rounding to a number of significant digits (`_round`, and
 * `_fix` under the context precision that `format_number` sets to 10), and
 * `int()`.  Values are exact; nothing here is a binary float.
 */
module Decimal {
  import opened Wrappers

  /**
   * A finite decimal.Decimal: (-1)^neg * coef * 10^exp.  As in Python the
   * coefficient keeps its trailing zeros (1.50 is Dec(false, 150, -2)) and a
   * zero keeps its sign.
   */
  datatype Dec = Dec(neg: bool, coef: nat, exp: int)

  /** HalfUp is decimal.ROUND_HALF_UP (ties away from zero); HalfEven is the default context's rounding. */
  datatype Rounding = HalfUp | HalfEven

  /** The context `format_number` works in: `getcontext().prec = 10`, other fields at Python's defaults. */
  const Prec: nat := 10
  const Emax: int := 999999
  const Emin: int := -999999
  const Etiny: int := Emin - Prec + 1

  /**
   * The widest context of the C implementation of `decimal`, which
   * `Decimal(string)` converts under.  The conversion must be exact: where
   * it would round or clamp, it raises InvalidOperation instead.
   */
  const MaxPrec: nat := 999999999999999999
  const MaxEmax: int := 999999999999999999
  const MinEtiny: int := -1999999999999999997

  /**
   * `Decimal(string)` accepts x: at most MaxPrec digits, an exponent not
   * below MinEtiny (else rounded, or a zero clamped), and an adjusted
   * exponent not above MaxEmax (else overflow, or a zero clamped).
   */
  predicate Converts(x: Dec)
  {
    NumDigits(x.coef) <= MaxPrec && x.exp >= MinEtiny && Adjusted(x) <= MaxEmax
  }

  // ---------------------------------------------------------------------
  // Powers of ten and digit counts

  function Pow10(k: nat): (r: nat)
    ensures r >= 1
  {
    if k == 0 then 1 else 10 * Pow10(k - 1)
  }

  lemma {:induction false} Pow10Increasing(a: nat, b: nat)
    requires a < b
    ensures Pow10(a) * 10 <= Pow10(b)
    decreases b
  {
    if a + 1 < b {
      Pow10Increasing(a, b - 1);
    }
  }

  lemma Pow10Monotone(a: nat, b: nat)
    requires a <= b
    ensures Pow10(a) <= Pow10(b)
  {
    if a < b {
      Pow10Increasing(a, b);
    }
  }

  /** The number of decimal digits of n, `len(str(n))`. */
  function NumDigits(n: nat): (d: nat)
    ensures d >= 1
    ensures n < Pow10(d)
    ensures n >= 1 ==> Pow10(d - 1) <= n
  {
    if n < 10 then 1 else 1 + NumDigits(n / 10)
  }

  /** n followed by k zeros, n * 10^k. */
  function Scale(n: nat, k: nat): nat
  {
    if k == 0 then n else 10 * Scale(n, k - 1)
  }

  /** n with its last k digits dropped, n / 10^k rounded down. */
  function Shift(n: nat, k: nat): (m: nat)
    ensures Scale(m, k) <= n < Scale(m + 1, k)
  {
    if k == 0 then n else Shift(n / 10, k - 1)
  }

  /** Scaling distributes over a sum. */
  lemma {:induction false} ScaleAdd(a: nat, b: nat, k: nat)
    ensures Scale(a + b, k) == Scale(a, k) + Scale(b, k)
  {
    if k > 0 {
      ScaleAdd(a, b, k - 1);
    }
  }

  /** 10^a followed by b zeros is 10^(a+b). */
  lemma {:induction false} ScalePow(a: nat, b: nat)
    ensures Scale(Pow10(a), b) == Pow10(a + b)
  {
    if b > 0 {
      ScalePow(a, b - 1);
    }
  }

  /** Scaling is strictly increasing in the number scaled. */
  lemma {:induction false} ScaleStrict(a: nat, b: nat, k: nat)
    requires a < b
    ensures Scale(a, k) < Scale(b, k)
  {
    if k > 0 {
      ScaleStrict(a, b, k - 1);
    }
  }

  /** Scaling preserves and reflects the order of the numbers scaled. */
  lemma ScaleOrder(a: nat, b: nat, k: nat)
    ensures a < b <==> Scale(a, k) < Scale(b, k)
    ensures a <= b <==> Scale(a, k) <= Scale(b, k)
  {
    if a < b {
      ScaleStrict(a, b, k);
    } else if b < a {
      ScaleStrict(b, a, k);
    }
  }

  /** Dropping k digits from a number below b * 10^k leaves less than b. */
  lemma ShiftBelow(n: nat, k: nat, b: nat)
    requires n < Scale(b, k)
    ensures Shift(n, k) < b
  {
    ScaleOrder(b, Shift(n, k), k);
  }

  /** Dropping k digits from a number at least b * 10^k leaves at least b. */
  lemma ShiftAtLeast(n: nat, k: nat, b: nat)
    requires Scale(b, k) <= n
    ensures b <= Shift(n, k)
  {
    ScaleOrder(Shift(n, k) + 1, b, k);
  }

  /** Dropping k zeros that are there gives back the number. */
  lemma ShiftScale(c: nat, k: nat)
    ensures Shift(Scale(c, k), k) == c
  {
    ShiftBelow(Scale(c, k), k, c + 1) by {
      ScaleOrder(c, c + 1, k);
    }
    ShiftAtLeast(Scale(c, k), k, c);
  }

  /** A number of d digits followed by k zeros has d + k digits. */
  lemma {:induction false} ScaleBounds(n: nat, d: nat, k: nat)
    requires d >= 1 && Pow10(d - 1) <= n < Pow10(d)
    ensures Pow10(d + k - 1) <= Scale(n, k) < Pow10(d + k)
  {
    if k > 0 {
      ScaleBounds(n, d, k - 1);
    }
  }

  /** A number of d digits with k < d digits dropped has d - k digits. */
  lemma ShiftBounds(n: nat, d: nat, k: nat)
    requires k < d && Pow10(d - 1) <= n < Pow10(d)
    ensures Pow10(d - k - 1) <= Shift(n, k) < Pow10(d - k)
  {
    ScalePow(d - k - 1, k);
    ScalePow(d - k, k);
    ShiftAtLeast(n, k, Pow10(d - k - 1));
    ShiftBelow(n, k, Pow10(d - k));
  }

  /** A number between 10^(j-1) and 10^j has exactly j digits. */
  lemma NumDigitsBetween(n: nat, j: nat)
    requires j >= 1 && Pow10(j - 1) <= n < Pow10(j)
    ensures NumDigits(n) == j
  {
    var d := NumDigits(n);
    if d < j {
      Pow10Monotone(d, j - 1);
    } else if d > j {
      Pow10Monotone(j, d - 1);
    }
  }

  /** Appending k zeros adds k digits. */
  lemma NumDigitsShift(n: nat, k: nat)
    requires n >= 1
    ensures NumDigits(Scale(n, k)) == NumDigits(n) + k
  {
    var d := NumDigits(n);
    ScaleBounds(n, d, k);
    NumDigitsBetween(Scale(n, k), d + k);
  }

  /** The adjusted exponent of x, `x.adjusted()`: the exponent of its leading digit. */
  function Adjusted(x: Dec): int
  {
    x.exp + NumDigits(x.coef) - 1
  }

  // ---------------------------------------------------------------------
  // Rounding

  /**
   * n / 10^k rounded to a whole number: to the nearer neighbour, with a tie
   * going away from zero under HalfUp and to the even neighbour under
   * HalfEven (ShiftRoundIsNearest states this).
   */
  function ShiftRound(n: nat, k: nat, mode: Rounding): (q: nat)
    ensures Shift(n, k) <= q <= Shift(n, k) + 1
  {
    var down := Shift(n, k);
    var rest := n - Scale(down, k);
    var p := Pow10(k);
    if 2 * rest > p || (2 * rest == p && (mode == HalfUp || down % 2 == 1)) then down + 1 else down
  }

  /**
   * ShiftRound(n, k) is a nearest whole number to n / 10^k; a tie is never
   * rounded toward zero under HalfUp and always lands on an even number
   * under HalfEven.
   */
  lemma ShiftRoundIsNearest(n: nat, k: nat, mode: Rounding)
    ensures var q, p := ShiftRound(n, k, mode), Pow10(k);
            2 * n <= 2 * Scale(q, k) + p && 2 * Scale(q, k) <= 2 * n + p
    ensures var q, p := ShiftRound(n, k, mode), Pow10(k);
            mode == HalfUp ==> 2 * n != 2 * Scale(q, k) + p
    ensures var q, p := ShiftRound(n, k, mode), Pow10(k);
            mode == HalfEven && (2 * n == 2 * Scale(q, k) + p || 2 * Scale(q, k) == 2 * n + p) ==> q % 2 == 0
  {
    var lo, p := ShiftRoundCases(n, k, mode);
  }

  /** The two outcomes of ShiftRound, each with the condition that chose it. */
  lemma ShiftRoundCases(n: nat, k: nat, mode: Rounding) returns (lo: nat, p: nat)
    ensures p == Pow10(k) && lo == Scale(Shift(n, k), k) && lo <= n < lo + p
    ensures var q := ShiftRound(n, k, mode);
            || (Scale(q, k) == lo && (2 * (n - lo) < p || (2 * (n - lo) == p && mode == HalfEven && q % 2 == 0)))
            || (Scale(q, k) == lo + p && (2 * (n - lo) > p || (2 * (n - lo) == p && (mode == HalfUp || q % 2 == 0))))
  {
    var down := Shift(n, k);
    lo, p := Scale(down, k), Pow10(k);
    ScaleAdd(down, 1, k);
    ScalePow(0, k);
    assert Scale(down + 1, k) == lo + p;
    var q := ShiftRound(n, k, mode);
    if 2 * (n - lo) > p || (2 * (n - lo) == p && (mode == HalfUp || down % 2 == 1)) {
      assert q == down + 1;
    } else {
      assert q == down;
    }
  }

  /** Python's `x._rescale(t, mode)`: x as a multiple of 10^t, rounded by mode when digits are dropped. */
  function Rescale(x: Dec, t: int, mode: Rounding): (r: Dec)
    ensures r.neg == x.neg && r.exp == t
  {
    if x.exp >= t then Dec(x.neg, Scale(x.coef, x.exp - t), t)
    else Dec(x.neg, ShiftRound(x.coef, t - x.exp, mode), t)
  }

  /**
   * Python's `x.quantize(Decimal(10^t), rounding=mode)` in the context above,
   * or None where it raises InvalidOperation (a target exponent outside
   * [Etiny, Emax], or a result with more than Prec digits).
   */
  function Quantize(x: Dec, t: int, mode: Rounding): Option<Dec>
  {
    if !(Etiny <= t <= Emax) then None
    else if x.coef == 0 then Some(Dec(x.neg, 0, t))
    else if Adjusted(x) > Emax || Adjusted(x) - t + 1 > Prec then None
    else
      var r := Rescale(x, t, mode);
      if Adjusted(r) > Emax || NumDigits(r.coef) > Prec then None else Some(r)
  }

  /** Python's `x._round(p, mode)`: x rounded to p significant digits (zeros unchanged). */
  function RoundSig(x: Dec, p: nat, mode: Rounding): Dec
    requires p >= 1
  {
    if x.coef == 0 then x
    else
      var a := Rescale(x, Adjusted(x) + 1 - p, mode);
      if Adjusted(a) != Adjusted(x) then Rescale(a, Adjusted(a) + 1 - p, mode) else a
  }

  /**
   * Python's `x._fix(context)` with a precision of p digits: a zero gets
   * its exponent clamped into [Etiny, Emax]; a nonzero x is rounded
   * half-even to at most p digits, and never to an exponent below Etiny
   * (so a value far below 10^Emin loses digits, down to zero).  The
   * overflow branch (an exponent above Emax - p + 1) is not part of this
   * model: every value that reaches it here is below 10^309.
   */
  function Fix(x: Dec, p: nat): Dec
    requires p >= 1
  {
    if x.coef == 0 then
      Dec(x.neg, 0, if x.exp < Etiny then Etiny else if x.exp > Emax then Emax else x.exp)
    else
      var low := x.exp + NumDigits(x.coef) - p;
      var t := if low < Etiny then Etiny else low;
      if x.exp >= t then x
      else
        var a := Rescale(x, t, HalfEven);
        if NumDigits(a.coef) > p then Dec(a.neg, a.coef / 10, t + 1) else a
  }

  /** Python's `abs(x)` in the context above. */
  function Abs(x: Dec): Dec
  {
    Fix(Dec(false, x.coef, x.exp), Prec)
  }

  /** Python's `int(x)`: x truncated toward zero. */
  function Trunc(x: Dec): int
  {
    var m := if x.exp >= 0 then Scale(x.coef, x.exp) else Shift(x.coef, -x.exp);
    if x.neg then -m else m
  }

  // ---------------------------------------------------------------------
  // Values

  /** x's signed value counted in units of 10^m, for m no larger than x's exponent. */
  function Units(x: Dec, m: int): int
    requires m <= x.exp
  {
    var u: int := Scale(x.coef, x.exp - m);
    if x.neg then -u else u
  }

  /** Numeric equality of two decimals, Python's `==` on Decimal (so -0 == 0). */
  predicate SameValue(x: Dec, y: Dec)
  {
    var m := if x.exp <= y.exp then x.exp else y.exp;
    Units(x, m) == Units(y, m)
  }

  /** Appending k zeros to the coefficient while lowering the exponent by k keeps the value. */
  lemma ScaledSameValue(neg: bool, c: nat, k: nat, e: int)
    ensures SameValue(Dec(neg, Scale(c, k), e - k), Dec(neg, c, e))
    ensures SameValue(Dec(neg, c, e), Dec(neg, Scale(c, k), e - k))
  {
    var x, y := Dec(neg, Scale(c, k), e - k), Dec(neg, c, e);
    assert Units(x, e - k) == Units(y, e - k) by {
      assert Scale(Scale(c, k), 0) == Scale(c, k);
    }
  }

  // ---------------------------------------------------------------------
  // Properties of rounding

  /** Rescaling to the exponent a value already has changes nothing. */
  lemma RescaleSameExponent(x: Dec, mode: Rounding)
    ensures Rescale(x, x.exp, mode) == x
  {
  }

  /** The magnitude of `int(x)`. */
  function TruncMagnitude(x: Dec): nat
  {
    if Trunc(x) < 0 then -Trunc(x) else Trunc(x)
  }

  /**
   * int(x) truncates toward zero: its magnitude m satisfies
   * m <= |x| < m + 1, and it is never of the opposite sign.
   */
  lemma TruncTowardZero(x: Dec)
    ensures x.exp >= 0 ==> Trunc(x) == Units(x, 0)
    ensures x.exp < 0 ==> Scale(TruncMagnitude(x), -x.exp) <= x.coef < Scale(TruncMagnitude(x) + 1, -x.exp)
    ensures Trunc(x) > 0 ==> !x.neg
    ensures Trunc(x) < 0 ==> x.neg
  {
    if x.exp < 0 {
      assert TruncMagnitude(x) == Shift(x.coef, -x.exp);
    }
  }

  /** Bounds on n / 10^k rounded, for an n of D digits and k < D. */
  lemma ShiftRoundDigits(n: nat, k: nat, mode: Rounding)
    requires k < NumDigits(n) && n >= 1
    ensures var p := NumDigits(n) - k;
            Pow10(p - 1) <= ShiftRound(n, k, mode) <= Pow10(p)
  {
    ShiftBounds(n, NumDigits(n), k);
  }

  /** The two steps of `_round`: the second applies only when the first carried into a new leading digit. */
  lemma RoundSigSteps(x: Dec, p: nat, mode: Rounding)
    requires p >= 1 && x.coef != 0
    ensures var a := Rescale(x, Adjusted(x) + 1 - p, mode);
            RoundSig(x, p, mode) == if Adjusted(a) == Adjusted(x) then a else Rescale(a, Adjusted(a) + 1 - p, mode)
  {
  }

  /**
   * Rounding a nonzero x to p significant digits leaves exactly p digits and
   * moves the leading digit up by at most one place.
   */
  lemma RoundSigShape(x: Dec, p: nat, mode: Rounding)
    requires p >= 1 && x.coef != 0
    ensures NumDigits(RoundSig(x, p, mode).coef) == p
    ensures RoundSig(x, p, mode).coef != 0
    ensures Adjusted(x) <= Adjusted(RoundSig(x, p, mode)) <= Adjusted(x) + 1
    ensures RoundSig(x, p, mode).neg == x.neg
  {
    var a := RescaleToDigits(x, p, mode);
    RoundSigSteps(x, p, mode);
    if a.coef == Pow10(p) {
      RoundSigCarry(a, p, mode);
      assert Adjusted(a) + 1 - p == a.exp + 1;
    }
  }

  /**
   * Rounding a nonzero x to the exponent that leaves p digits (the first
   * step of both `_round` and `_fix`) gives p digits with the same leading
   * place, or 10^p (a carry out of the leading digit) one place up.
   */
  lemma RescaleToDigits(x: Dec, p: nat, mode: Rounding) returns (a: Dec)
    requires p >= 1 && x.coef != 0
    ensures a == Rescale(x, Adjusted(x) + 1 - p, mode)
    ensures a.neg == x.neg && a.coef != 0
    ensures a.coef == Pow10(p) ==> NumDigits(a.coef) == p + 1 && Adjusted(a) == Adjusted(x) + 1
    ensures a.coef != Pow10(p) ==> NumDigits(a.coef) == p && Adjusted(a) == Adjusted(x)
  {
    var t := Adjusted(x) + 1 - p;
    a := Rescale(x, t, mode);
    if x.exp >= t {
      NumDigitsShift(x.coef, x.exp - t);
    } else {
      var k := t - x.exp;
      ShiftRoundDigits(x.coef, k, mode);
      if a.coef == Pow10(p) {
        NumDigitsBetween(a.coef, p + 1);
      } else {
        NumDigitsBetween(a.coef, p);
      }
    }
  }

  /** Rounding 10^p to p digits gives 10^(p-1), one exponent up: a coefficient of p digits. */
  lemma RoundSigCarry(a: Dec, p: nat, mode: Rounding)
    requires p >= 1 && a.coef == Pow10(p)
    ensures var b := Rescale(a, a.exp + 1, mode);
            b.coef == Pow10(p - 1) && NumDigits(b.coef) == p
  {
    var c := Pow10(p - 1);
    assert a.coef == Scale(c, 1);
    ShiftRoundExact(c, 1, mode);
    NumDigitsBetween(c, p);
  }

  /**
   * In the normal range `_fix` keeps a nonzero value nonzero, leaves at
   * most p digits and keeps its leading digit where it was, unless rounding
   * carries out of it, in which case the result is exactly 10^(p-1) units
   * one place up.
   */
  lemma FixShape(x: Dec, p: nat)
    requires p >= 1 && x.coef != 0 && x.exp + NumDigits(x.coef) - p >= Etiny
    ensures Fix(x, p).coef != 0
    ensures NumDigits(Fix(x, p).coef) <= p
    ensures Fix(x, p).neg == x.neg
    ensures || Adjusted(Fix(x, p)) == Adjusted(x)
            || (Adjusted(Fix(x, p)) == Adjusted(x) + 1 && Fix(x, p).coef == Pow10(p - 1))
  {
    if NumDigits(x.coef) <= p {
      assert Fix(x, p) == x;
    } else {
      var a := RescaleToDigits(x, p, HalfEven);
      assert Fix(x, p) == if NumDigits(a.coef) > p then Dec(a.neg, a.coef / 10, a.exp + 1) else a;
      if a.coef == Pow10(p) {
        FixCarry(a, p);
      }
    }
  }

  /** 10^p with its last zero dropped has p digits. */
  lemma FixCarry(a: Dec, p: nat)
    requires p >= 1 && a.coef == Pow10(p)
    ensures a.coef / 10 == Pow10(p - 1) && NumDigits(a.coef / 10) == p
  {
    NumDigitsBetween(Pow10(p - 1), p);
  }

  /**
   * Quantizing to 10^t a nonzero x whose leading digit is at most two places
   * above t gives a coefficient of at most 1000, i.e. at most three
   * significant digits after rounding (1000 only when rounding carries).
   */
  lemma RescaleThreeDigits(x: Dec, t: int, mode: Rounding)
    requires x.coef != 0 && Adjusted(x) <= t + 2
    ensures Rescale(x, t, mode).coef <= 1000
  {
    var d := NumDigits(x.coef);
    assert Pow10(3) == 1000;
    if x.exp >= t {
      var k := x.exp - t;
      ScaleBounds(x.coef, d, k);
      Pow10Monotone(d + k, 3);
    } else {
      var k := t - x.exp;
      Pow10Monotone(d, k + 3);
      ScalePow(3, k);
      ShiftBelow(x.coef, k, 1000);
    }
  }

  /**
   * Under the bounds `format_number` establishes, quantize raises nothing and
   * is the plain rescale.
   */
  lemma QuantizeSucceeds(x: Dec, t: int, mode: Rounding)
    requires x.coef != 0
    requires Etiny <= t <= Adjusted(x) <= t + 2
    requires Adjusted(x) <= 308
    ensures Quantize(x, t, mode) == Some(Rescale(x, t, mode))
  {
    var r := Rescale(x, t, mode);
    RescaleThreeDigits(x, t, mode);
    assert Pow10(4) == 10000;
    if r.coef == 0 {
      assert NumDigits(r.coef) == 1;
    } else {
      NumDigitsBelow(r.coef, 4);
    }
  }

  lemma NumDigitsBelow(n: nat, j: nat)
    requires 1 <= n < Pow10(j) && j >= 1
    ensures NumDigits(n) <= j
  {
    if NumDigits(n) > j {
      Pow10Monotone(j, NumDigits(n) - 1);
    }
  }

  /** Rounding a short coefficient to p digits only appends zeros. */
  lemma RoundSigPads(x: Dec, p: nat, mode: Rounding)
    requires p >= 1 && x.coef != 0 && NumDigits(x.coef) <= p
    ensures var k := p - NumDigits(x.coef);
            RoundSig(x, p, mode) == Dec(x.neg, Scale(x.coef, k), x.exp - k)
  {
    var k := p - NumDigits(x.coef);
    var a := Rescale(x, Adjusted(x) + 1 - p, mode);
    assert a == Dec(x.neg, Scale(x.coef, k), x.exp - k);
    NumDigitsShift(x.coef, k);
    assert Adjusted(a) == Adjusted(x);
  }

  /** Rounding 10^p to p digits drops one zero and raises the exponent by one. */
  lemma RoundSigTenPower(x: Dec, p: nat, mode: Rounding)
    requires p >= 1 && x.coef == Pow10(p)
    ensures RoundSig(x, p, mode) == Dec(x.neg, Pow10(p - 1), x.exp + 1)
  {
    NumDigitsBetween(Pow10(p), p + 1);
    NumDigitsBetween(Pow10(p - 1), p);
    var a := Rescale(x, Adjusted(x) + 1 - p, mode);
    assert Adjusted(x) + 1 - p == x.exp + 1;
    assert Pow10(p) == Scale(Pow10(p - 1), 1);
    ShiftRoundExact(Pow10(p - 1), 1, mode);
    assert a == Dec(x.neg, Pow10(p - 1), x.exp + 1);
    assert Adjusted(a) == Adjusted(x);
    RoundSigSteps(x, p, mode);
  }

  /**
   * A coefficient that is a power of ten with at least p digits rounds to p
   * digits without a carry: the leading digit stays where it is.
   */
  lemma RoundSigOfPower(x: Dec, q: nat, p: nat, mode: Rounding)
    requires p >= 1 && q + 1 >= p && x.coef == Pow10(q)
    ensures Adjusted(RoundSig(x, p, mode)) == Adjusted(x)
  {
    NumDigitsPow(q);
    var t := x.exp + q + 1 - p;
    assert t == Adjusted(x) + 1 - p;
    var a := Rescale(x, t, mode);
    PowerRescale(x, q, p, mode);
    NumDigitsPow(p - 1);
    assert Adjusted(a) == Adjusted(x);
    RoundSigSteps(x, p, mode);
  }

  /** 10^j has j + 1 digits. */
  lemma NumDigitsPow(j: nat)
    ensures NumDigits(Pow10(j)) == j + 1
  {
    Pow10Increasing(j, j + 1);
    NumDigitsBetween(Pow10(j), j + 1);
  }

  /** 10^q rescaled to keep p <= q + 1 digits is exactly 10^(p-1). */
  lemma PowerRescale(x: Dec, q: nat, p: nat, mode: Rounding)
    requires p >= 1 && q + 1 >= p && x.coef == Pow10(q)
    ensures Rescale(x, x.exp + q + 1 - p, mode).coef == Pow10(p - 1)
  {
    var k: nat := q + 1 - p;
    ScalePow(p - 1, k);
    if k > 0 {
      ShiftRoundExact(Pow10(p - 1), k, mode);
    }
  }

  /** Rescaling to an exponent at or below the leading digit keeps a nonzero value nonzero. */
  lemma RescaleNonzero(x: Dec, t: int, mode: Rounding)
    requires x.coef != 0 && Adjusted(x) >= t
    ensures Rescale(x, t, mode).coef != 0
  {
    if x.exp < t {
      ShiftRoundDigits(x.coef, t - x.exp, mode);
    } else {
      ScaleOrder(0, x.coef, x.exp - t);
    }
  }

  /** Dropping k zeros that are there rounds nothing. */
  lemma ShiftRoundExact(c: nat, k: nat, mode: Rounding)
    ensures ShiftRound(Scale(c, k), k, mode) == c
  {
    ShiftScale(c, k);
  }

  /**
   * Rescaling to a coarser exponent t lands on a nearest multiple of 10^t:
   * in units of x's own exponent the result is within half a step of x,
   * and under HalfUp a tie never goes toward zero.
   */
  lemma RescaleIsNearest(x: Dec, t: int, mode: Rounding)
    requires x.exp < t
    ensures var r, k := Rescale(x, t, mode), t - x.exp;
            && 2 * x.coef <= 2 * Scale(r.coef, k) + Pow10(k)
            && 2 * Scale(r.coef, k) <= 2 * x.coef + Pow10(k)
            && (mode == HalfUp ==> 2 * x.coef != 2 * Scale(r.coef, k) + Pow10(k))
  {
    ShiftRoundIsNearest(x.coef, t - x.exp, mode);
  }

  /**
   * Below 10^Emin, `abs()` in the context keeps no digit above 10^(Emin+1):
   * it either rounds the value to zero at exponent Etiny or leaves a
   * nonzero value whose leading digit is at most one place above x's, so
   * at or below Emin.
   */
  lemma AbsBelowEmin(x: Dec)
    requires x.coef != 0 && Adjusted(x) < Emin
    ensures Abs(x).coef == 0 ==> Abs(x).exp == Etiny
    ensures Abs(x).coef != 0 ==> Adjusted(Abs(x)) <= Emin
  {
    var y := Dec(false, x.coef, x.exp);
    if x.exp < Etiny {
      var k: nat := Etiny - x.exp;
      RoundedTinyDigits(x.coef, k, HalfEven);
      assert Abs(x) == Rescale(y, Etiny, HalfEven);
    } else {
      assert Abs(x) == y;
    }
  }

  /** Dropping k digits from a number of fewer than k + Prec digits leaves at most Prec. */
  lemma RoundedTinyDigits(c: nat, k: nat, mode: Rounding)
    requires c >= 1 && NumDigits(c) < k + Prec
    ensures ShiftRound(c, k, mode) != 0 ==> NumDigits(ShiftRound(c, k, mode)) <= Prec
  {
    var d := NumDigits(c);
    var q := ShiftRound(c, k, mode);
    if d >= k {
      var j: nat := d - k;
      ScalePow(j, k);
      ShiftBelow(c, k, Pow10(j));
      Pow10Increasing(j, Prec);
      if q != 0 {
        NumDigitsAtMost(q, j);
      }
    } else {
      Pow10Monotone(d, k);
      ScalePow(0, k);
      ShiftBelow(c, k, 1);
    }
  }

  lemma NumDigitsAtMost(n: nat, j: nat)
    requires 1 <= n <= Pow10(j)
    ensures NumDigits(n) <= j + 1
  {
    Pow10Increasing(j, j + 1);
    NumDigitsBelow(n, j + 1);
  }
}
