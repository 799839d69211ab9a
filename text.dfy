/**
 * Strings with the meaning Python's `str` gives them in the tool: `strip()`,
 * `split()`, `split(sep)`, `sep.join(...)`, `p in s`, `rstrip(c)`, `lower()`,
 * string comparison, `str(n)` and `int(s)`.  A Python string is a sequence of
 * code points, so it is modelled as `seq<char>` with Dafny's Unicode chars.
 */
module Text {
  import opened Wrappers

  // ---------------------------------------------------------------------
  // Characters

  /** The characters for which Python's `str.isspace()` holds. */
  predicate IsSpace(c: char) {
    || ('\t' <= c <= '\r')
    || ('\U{1C}' <= c <= ' ')
    || c == '\U{85}' || c == '\U{A0}' || c == '\U{1680}'
    || ('\U{2000}' <= c <= '\U{200A}')
    || c == '\U{2028}' || c == '\U{2029}' || c == '\U{202F}' || c == '\U{205F}' || c == '\U{3000}'
  }

  predicate IsDigit(c: char) { '0' <= c <= '9' }

  predicate AllDigits(s: string) { forall i | 0 <= i < |s| :: IsDigit(s[i]) }

  function DigitValue(c: char): (d: nat)
    requires IsDigit(c)
    ensures d < 10
  {
    c as int - '0' as int
  }

  function DigitChar(d: nat): (c: char)
    requires d < 10
    ensures IsDigit(c) && DigitValue(c) == d
  {
    ('0' as int + d) as char
  }

  /** Lower-cases ASCII letters and leaves every other character alone. */
  function AsciiLower(c: char): (l: char)
    ensures 'A' <= c <= 'Z' ==> l as int == c as int + 32
    ensures !('A' <= c <= 'Z') ==> l == c
  {
    if 'A' <= c <= 'Z' then (c as int + 32) as char else c
  }

  function LowerAscii(s: string): (r: string)
    ensures |r| == |s| && forall i | 0 <= i < |s| :: r[i] == AsciiLower(s[i])
  {
    seq(|s|, i requires 0 <= i < |s| => AsciiLower(s[i]))
  }

  // ---------------------------------------------------------------------
  // Decimal digits: str(n) and int(s)

  /** The number a string of decimal digits denotes, most significant digit first. */
  function DigitsValue(s: string): nat
    requires AllDigits(s)
  {
    if s == [] then 0 else 10 * DigitsValue(s[..|s| - 1]) + DigitValue(s[|s| - 1])
  }

  /** Python's `str(n)` for a natural number: its digits without leading zeros. */
  function NatToString(n: nat): (s: string)
    ensures |s| >= 1 && AllDigits(s)
    ensures DigitsValue(s) == n
    ensures s[0] == '0' ==> n == 0
  {
    if n < 10 then [DigitChar(n)]
    else
      var s := NatToString(n / 10) + [DigitChar(n % 10)];
      assert s[..|s| - 1] == NatToString(n / 10);
      s
  }

  /** Python's `str(i)` for an integer. */
  function IntToString(i: int): (s: string)
  {
    if i < 0 then "-" + NatToString(-i) else NatToString(i)
  }

  /** Python's digit groups: digits, optionally split by single underscores, as in `1_000`. */
  predicate IsDigitPart(s: string) {
    && s != [] && IsDigit(s[0]) && IsDigit(s[|s| - 1])
    && (forall i | 0 <= i < |s| :: IsDigit(s[i]) || s[i] == '_')
    && (forall i | 0 <= i < |s| - 1 :: s[i] == '_' ==> s[i + 1] != '_')
  }

  /** The digits of a digit group, underscores removed. */
  function DropUnderscores(s: string): (r: string)
    ensures |r| <= |s|
    ensures (forall i | 0 <= i < |s| :: IsDigit(s[i]) || s[i] == '_') ==> AllDigits(r)
    ensures AllDigits(s) ==> r == s
  {
    if s == [] then [] else (if s[0] == '_' then [] else [s[0]]) + DropUnderscores(s[1..])
  }

  /**
   * An optional sign and a digit group, as in `-12` or `+1_0`: the integer
   * it denotes, or None for any other text.
   */
  function ParseSigned(s: string): Option<int>
  {
    if s != [] && (s[0] == '+' || s[0] == '-') then
      if IsDigitPart(s[1..]) then
        var n: int := DigitsValue(DropUnderscores(s[1..]));
        Some(if s[0] == '-' then -n else n)
      else None
    else if IsDigitPart(s) then Some(DigitsValue(DropUnderscores(s)))
    else None
  }

  /** Python's `int(s)` in base 10, or None where it raises ValueError. */
  function ParseInt(s: string): Option<int>
  {
    ParseSigned(Strip(s))
  }

  /** A sign and nonempty digits read back as the signed number they spell. */
  lemma ParseSignedDigits(sign: char, digits: string)
    requires sign == '+' || sign == '-'
    requires digits != [] && AllDigits(digits)
    ensures var n: int := DigitsValue(digits);
            ParseSigned([sign] + digits) == Some(if sign == '-' then -n else n)
  {
    NoSpaceDigits(digits);
    assert ([sign] + digits)[1..] == digits;
  }

  /** `int(str(i)) == i`. */
  lemma ParseIntToString(i: int)
    ensures ParseInt(IntToString(i)) == Some(i)
  {
    var s := IntToString(i);
    var d := NatToString(if i < 0 then -i else i);
    NoSpaceDigits(d);
    if i < 0 {
      assert s == "-" + d;
      assert !IsSpace(s[0]);
      StripUnpadded(s);
      ParseSignedDigits('-', d);
    } else {
      StripUnpadded(s);
    }
  }

  lemma NoSpaceDigits(s: string)
    requires AllDigits(s)
    ensures forall k | 0 <= k < |s| :: !IsSpace(s[k])
    ensures IsDigitPart(s) <==> s != []
  {
  }

  // ---------------------------------------------------------------------
  // strip()

  predicate AllSpace(s: string) { forall k | 0 <= k < |s| :: IsSpace(s[k]) }

  /** The number of whitespace characters s starts with. */
  function LeadingSpace(s: string): (i: nat)
    ensures i <= |s|
    ensures AllSpace(s[..i])
    ensures i < |s| ==> !IsSpace(s[i])
  {
    if s != [] && IsSpace(s[0]) then 1 + LeadingSpace(s[1..]) else 0
  }

  /** The position where the whitespace s ends with begins. */
  function TrailingSpace(s: string): (j: nat)
    ensures j <= |s|
    ensures AllSpace(s[j..])
    ensures 0 < j ==> !IsSpace(s[j - 1])
  {
    if s != [] && IsSpace(s[|s| - 1]) then TrailingSpace(s[..|s| - 1]) else |s|
  }

  /**
   * Python's `s.strip()`: s without the whitespace it starts and ends with.
   * The result is the part of s after its leading whitespace, everything
   * after the result is whitespace, and the result neither starts nor ends
   * with whitespace.
   */
  function Strip(s: string): (r: string)
    ensures LeadingSpace(s) + |r| <= |s| && r == s[LeadingSpace(s)..LeadingSpace(s) + |r|]
    ensures AllSpace(s[LeadingSpace(s) + |r|..])
    ensures r == [] || (!IsSpace(r[0]) && !IsSpace(r[|r| - 1]))
  {
    var i, j := LeadingSpace(s), TrailingSpace(s);
    if i < j then s[i..j] else []
  }

  /** A string that neither starts nor ends with whitespace is its own strip(). */
  lemma StripUnpadded(s: string)
    requires s == [] || (!IsSpace(s[0]) && !IsSpace(s[|s| - 1]))
    ensures Strip(s) == s
  {
    if s != [] {
      assert LeadingSpace(s) == 0;
      assert TrailingSpace(s) == |s|;
    }
  }

  /** Stripping twice strips nothing more. */
  lemma StripIdempotent(s: string)
    ensures Strip(Strip(s)) == Strip(s)
  {
    StripUnpadded(Strip(s));
  }

  // ---------------------------------------------------------------------
  // rstrip(c)

  /** Python's `s.rstrip(c)` for a single character c. */
  function RStripChar(s: string, c: char): (r: string)
    ensures |r| <= |s| && r == s[..|r|]
    ensures r == [] || r[|r| - 1] != c
    ensures forall k | |r| <= k < |s| :: s[k] == c
  {
    if s != [] && s[|s| - 1] == c then RStripChar(s[..|s| - 1], c) else s
  }

  /** rstrip(c) stops at the first character that is not c: a prefix ending in another character survives. */
  lemma {:induction false} RStripCharKeepsPrefix(a: string, b: string, c: char)
    requires a != [] && a[|a| - 1] != c
    ensures RStripChar(a + b, c) == a + RStripChar(b, c)
    decreases |b|
  {
    if b == [] {
      assert a + b == a;
    } else if b[|b| - 1] == c {
      assert (a + b)[..|a + b| - 1] == a + b[..|b| - 1];
      RStripCharKeepsPrefix(a, b[..|b| - 1], c);
    }
  }

  /** Python's `s.replace(a, b)` for single characters a and b. */
  function ReplaceChar(s: string, a: char, b: char): (r: string)
    ensures |r| == |s| && forall i | 0 <= i < |s| :: r[i] == (if s[i] == a then b else s[i])
  {
    seq(|s|, i requires 0 <= i < |s| => if s[i] == a then b else s[i])
  }

  // ---------------------------------------------------------------------
  // split() on whitespace

  /** The length of the run of non-whitespace characters s starts with. */
  function WordLength(s: string): (n: nat)
    ensures n <= |s|
    ensures NoSpace(s[..n])
    ensures n < |s| ==> IsSpace(s[n])
  {
    if s != [] && !IsSpace(s[0]) then 1 + WordLength(s[1..]) else 0
  }

  predicate NoSpace(w: string) { forall k | 0 <= k < |w| :: !IsSpace(w[k]) }

  /** Python's `s.split()`: the maximal runs of non-whitespace characters, in order. */
  function SplitWhitespace(s: string): (words: seq<string>)
    ensures forall k | 0 <= k < |words| :: words[k] != [] && NoSpace(words[k])
    decreases |s|
  {
    var i := LeadingSpace(s);
    if i == |s| then []
    else
      var t := s[i..];
      var n := WordLength(t);
      assert n >= 1 by { assert t[0] == s[i]; }
      [t[..n]] + SplitWhitespace(t[n..])
  }

  /** s with its whitespace characters removed. */
  function DropSpace(s: string): string
  {
    if s == [] then [] else (if IsSpace(s[0]) then [] else [s[0]]) + DropSpace(s[1..])
  }

  function Concat(parts: seq<string>): string
  {
    if parts == [] then [] else parts[0] + Concat(parts[1..])
  }

  lemma {:induction false} DropSpaceAppend(a: string, b: string)
    ensures DropSpace(a + b) == DropSpace(a) + DropSpace(b)
    decreases |a|
  {
    if a == [] {
      assert a + b == b;
    } else {
      var head := if IsSpace(a[0]) then [] else [a[0]];
      assert (a + b)[0] == a[0];
      assert (a + b)[1..] == a[1..] + b;
      assert DropSpace(a + b) == head + DropSpace(a[1..] + b);
      DropSpaceAppend(a[1..], b);
    }
  }

  lemma {:induction false} DropSpaceOfSpaces(s: string)
    requires AllSpace(s)
    ensures DropSpace(s) == []
    decreases |s|
  {
    if s != [] {
      DropSpaceOfSpaces(s[1..]);
    }
  }

  lemma {:induction false} DropSpaceOfWord(s: string)
    requires NoSpace(s)
    ensures DropSpace(s) == s
    decreases |s|
  {
    if s != [] {
      DropSpaceOfWord(s[1..]);
    }
  }

  /** The words of `split()` together hold every non-whitespace character of s, in order. */
  lemma {:induction false} SplitWhitespaceKeepsText(s: string)
    ensures Concat(SplitWhitespace(s)) == DropSpace(s)
    decreases |s|
  {
    var i := LeadingSpace(s);
    DropSpaceOfSpaces(s[..i]);
    if i == |s| {
      assert s == s[..i];
    } else {
      var w, rest := FirstWord(s);
      SplitWhitespaceKeepsText(rest);
      ConcatCons(w, SplitWhitespace(rest));
      DropSpaceOfWord(w);
      DropSpaceOfThree(s[..i], w, rest);
    }
  }

  /** How `split()` takes the first word off a string that has one. */
  lemma FirstWord(s: string) returns (w: string, rest: string)
    requires LeadingSpace(s) < |s|
    ensures s == s[..LeadingSpace(s)] + w + rest
    ensures w != [] && NoSpace(w)
    ensures SplitWhitespace(s) == [w] + SplitWhitespace(rest)
  {
    var i := LeadingSpace(s);
    var t := s[i..];
    var n := WordLength(t);
    w, rest := t[..n], t[n..];
    assert s == s[..i] + w + rest by {
      assert t == w + rest;
      assert s == s[..i] + t;
    }
  }

  lemma ConcatCons(w: string, parts: seq<string>)
    ensures Concat([w] + parts) == w + Concat(parts)
  {
    assert ([w] + parts)[1..] == parts;
  }

  lemma DropSpaceOfThree(spaces: string, w: string, rest: string)
    requires DropSpace(spaces) == [] && DropSpace(w) == w
    ensures DropSpace(spaces + w + rest) == w + DropSpace(rest)
  {
    DropSpaceAppend(spaces + w, rest);
    DropSpaceAppend(spaces, w);
  }

  // ---------------------------------------------------------------------
  // split(sep) and sep.join(parts)

  /** The position of the first c in s, or |s| when s has none. */
  function FindChar(s: string, c: char): (i: nat)
    ensures i <= |s|
    ensures forall k | 0 <= k < i :: s[k] != c
    ensures i < |s| ==> s[i] == c
  {
    if s == [] || s[0] == c then 0 else 1 + FindChar(s[1..], c)
  }

  /** Python's `s.split(sep)` for a one-character separator. */
  function SplitOn(s: string, sep: char): (parts: seq<string>)
    ensures |parts| >= 1
    ensures forall k | 0 <= k < |parts| :: sep !in parts[k]
    decreases |s|
  {
    var i := FindChar(s, sep);
    if i == |s| then [s] else [s[..i]] + SplitOn(s[i + 1..], sep)
  }

  /** Python's `sep.join(parts)`. */
  function Join(parts: seq<string>, sep: string): string
  {
    if parts == [] then []
    else if |parts| == 1 then parts[0]
    else parts[0] + sep + Join(parts[1..], sep)
  }

  /** Joining the pieces of `s.split(sep)` with sep gives back s. */
  lemma {:induction false} JoinSplitOn(s: string, sep: char)
    ensures Join(SplitOn(s, sep), [sep]) == s
    decreases |s|
  {
    var i := FindChar(s, sep);
    if i < |s| {
      var head, tail := s[..i], s[i + 1..];
      JoinSplitOn(tail, sep);
      JoinCons(head, SplitOn(tail, sep), [sep]);
      assert s == head + [sep] + tail;
    }
  }

  lemma JoinCons(head: string, parts: seq<string>, sep: string)
    requires |parts| >= 1
    ensures Join([head] + parts, sep) == head + sep + Join(parts, sep)
  {
    assert ([head] + parts)[1..] == parts;
  }

  /** Splitting a join of separator-free pieces gives back the pieces. */
  lemma {:induction false} SplitOnJoin(parts: seq<string>, sep: char)
    requires |parts| >= 1
    requires forall k | 0 <= k < |parts| :: sep !in parts[k]
    ensures SplitOn(Join(parts, [sep]), sep) == parts
    decreases |parts|
  {
    var s := Join(parts, [sep]);
    if |parts| == 1 {
      assert s == parts[0] && parts == [parts[0]];
      FindCharAbsent(parts[0], sep);
      assert SplitOn(s, sep) == [s];
    } else {
      var rest := Join(parts[1..], [sep]);
      assert s == parts[0] + ([sep] + rest);
      FindCharAt(parts[0], [sep] + rest, sep);
      assert FindChar(s, sep) == |parts[0]|;
      assert s[|parts[0]| + 1..] == rest;
      assert s[..|parts[0]|] == parts[0];
      SplitOnJoin(parts[1..], sep);
      assert SplitOn(s, sep) == [parts[0]] + SplitOn(rest, sep);
      assert parts == [parts[0]] + parts[1..];
    }
  }

  lemma FindCharAbsent(s: string, c: char)
    requires c !in s
    ensures FindChar(s, c) == |s|
  {
  }

  lemma FindCharAt(a: string, b: string, c: char)
    requires c !in a && b != [] && b[0] == c
    ensures FindChar(a + b, c) == |a|
  {
    assert forall k | 0 <= k < |a| :: (a + b)[k] == a[k] && a[k] in a;
    assert (a + b)[|a|] == c;
  }

  // ---------------------------------------------------------------------
  // Substrings

  predicate IsPrefix(p: string, s: string) { |p| <= |s| && s[..|p|] == p }

  /** Python's `p in s` for two strings. */
  predicate Contains(s: string, p: string)
    decreases |s|
  {
    IsPrefix(p, s) || (s != [] && Contains(s[1..], p))
  }

  /** p occurs in s starting at position i. */
  predicate OccursAt(s: string, p: string, i: int) {
    0 <= i <= |s| - |p| && s[i..i + |p|] == p
  }

  /** `p in s` holds exactly when p occurs in s at some position. */
  lemma {:induction false} ContainsAt(s: string, p: string)
    ensures Contains(s, p) <==> exists i :: OccursAt(s, p, i)
    decreases |s|
  {
    if s == [] {
      if Contains(s, p) {
        assert OccursAt(s, p, 0);
      }
      if exists i :: OccursAt(s, p, i) {
        var i :| OccursAt(s, p, i);
        assert IsPrefix(p, s);
      }
    } else {
      ContainsAt(s[1..], p);
      if exists i :: OccursAt(s, p, i) {
        var i :| OccursAt(s, p, i);
        if i > 0 {
          assert OccursAt(s[1..], p, i - 1);
        } else {
          assert IsPrefix(p, s);
        }
      }
      if Contains(s, p) {
        if IsPrefix(p, s) {
          assert OccursAt(s, p, 0);
        } else {
          var i :| OccursAt(s[1..], p, i);
          assert OccursAt(s, p, i + 1);
        }
      }
    }
  }

  // ---------------------------------------------------------------------
  // Ordering of strings

  /** Python's `a <= b` on strings: code point by code point, a proper prefix first. */
  predicate LessEq(a: string, b: string)
    decreases |a|
  {
    a == [] || (b != [] && (a[0] < b[0] || (a[0] == b[0] && LessEq(a[1..], b[1..]))))
  }

  lemma {:induction false} LessEqTotal(a: string, b: string)
    ensures LessEq(a, b) || LessEq(b, a)
    decreases |a|
  {
    if a != [] && b != [] && a[0] == b[0] {
      LessEqTotal(a[1..], b[1..]);
    }
  }

  lemma {:induction false} LessEqTransitive(a: string, b: string, c: string)
    requires LessEq(a, b) && LessEq(b, c)
    ensures LessEq(a, c)
    decreases |a|
  {
    if a != [] && a[0] == b[0] && b[0] == c[0] {
      LessEqTransitive(a[1..], b[1..], c[1..]);
    }
  }

  lemma {:induction false} LessEqAntisymmetric(a: string, b: string)
    requires LessEq(a, b) && LessEq(b, a)
    ensures a == b
    decreases |a|
  {
    if a != [] {
      LessEqAntisymmetric(a[1..], b[1..]);
      assert a == [a[0]] + a[1..] && b == [b[0]] + b[1..];
    }
  }

  /**
   * The first element of `sorted(names)`: the least name under Python's
   * string order.
   */
  function Least(names: seq<string>): (m: string)
    requires |names| > 0
    ensures m in names
    ensures forall k | 0 <= k < |names| :: LessEq(m, names[k])
  {
    if |names| == 1 then
      assert LessEq(names[0], names[0]) by { LessEqReflexive(names[0]); }
      names[0]
    else
      var rest := Least(names[1..]);
      LessEqTotal(names[0], rest);
      LessEqReflexive(names[0]);
      var m := if LessEq(names[0], rest) then names[0] else rest;
      assert forall k | 1 <= k < |names| :: LessEq(rest, names[k]) by {
        forall k | 1 <= k < |names| ensures LessEq(rest, names[k]) {
          assert names[k] == names[1..][k - 1];
        }
      }
      forall k | 0 <= k < |names| ensures LessEq(m, names[k]) {
        if k > 0 && m == names[0] {
          LessEqTransitive(m, rest, names[k]);
        }
      }
      m
  }

  lemma {:induction false} LessEqReflexive(a: string)
    ensures LessEq(a, a)
    decreases |a|
  {
    if a != [] {
      LessEqReflexive(a[1..]);
    }
  }
}
