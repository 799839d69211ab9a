/**
 * Reading the requested line of the chosen file and the requested columns
 * of that line.  The line comes from the first encoding, in a fixed order,
 * that both decodes the file and yields enough lines; failing all of them,
 * from a lossy UTF-8 reading split on line feeds.  The columns are a
 * comma-separated list of 1-based indices into the line's whitespace
 * words; indices that fall outside are skipped.
 */
module LineExtractor {
  import opened Wrappers
  import opened Text
  import opened NumberFormat

  datatype Encoding = Utf8 | Gbk | Gb2312 | Utf16 | Latin1

  /** The order in which the encodings are tried. */
  const Encodings: seq<Encoding> := [Utf8, Gbk, Gb2312, Utf16, Latin1]

  /**
   * `open(path, 'r', encoding=enc).readlines()`: the lines of the file
   * under an encoding, or None where opening or decoding fails.  The
   * decoding tables are not modelled; a reader is any such function.
   */
  type LineReader = Encoding -> Option<seq<string>>

  /** `open(path, 'rb').read().decode('utf-8', errors='ignore')`, or None where opening fails. */
  type LossyText = Option<string>

  /** Why a text entry produced no text. */
  datatype Failure =
    | NoKeywordFile(keyword: string)   // no file matches the keyword
    | NoTextFile                       // no keyword and no candidate file
    | FileMissing(name: string)        // the resolved name is not in the directory
    | LineMissing(line: int)           // the line number is out of range everywhere
    | ReadFailed                       // the file cannot be opened for the lossy reading
    | BadColumns                       // a piece of the column list is not an integer

  // ---------------------------------------------------------------------
  // The line

  /** Line n (1-based) exists among these lines. */
  predicate HasLine(lines: seq<string>, n: int) {
    0 <= n - 1 < |lines|
  }

  /** Some decoding under enc that has line n. */
  predicate Fits(read: LineReader, enc: Encoding, n: int) {
    read(enc).Some? && HasLine(read(enc).value, n)
  }

  /** The first encoding of encs that fits gives the stripped line; None when none fits. */
  function ChainLine(read: LineReader, encs: seq<Encoding>, n: int): Option<string>
  {
    if encs == [] then None
    else if Fits(read, encs[0], n) then Some(Strip(read(encs[0]).value[n - 1]))
    else ChainLine(read, encs[1..], n)
  }

  /** The lossy reading split on `'\n'`, with line n stripped, or why there is none. */
  function FallbackLine(lossy: LossyText, n: int): Result<string, Failure>
  {
    match lossy
    case None => Err(ReadFailed)
    case Some(text) =>
      var lines := SplitOn(text, '\n');
      if HasLine(lines, n) then Ok(Strip(lines[n - 1])) else Err(LineMissing(n))
  }

  /** The line a text entry reads: the encoding chain, then the lossy reading. */
  function LineOf(read: LineReader, lossy: LossyText, n: int): Result<string, Failure>
  {
    match ChainLine(read, Encodings, n)
    case Some(line) => Ok(line)
    case None => FallbackLine(lossy, n)
  }

  /** The encoding loop, which stops at the first encoding that has the line, then the fallback. */
  method SelectLine(read: LineReader, lossy: LossyText, n: int) returns (r: Result<string, Failure>)
    ensures r == LineOf(read, lossy, n)
  {
    var encodings := Encodings;
    var i := 0;
    while i < |encodings|
      invariant 0 <= i <= |encodings|
      invariant ChainLine(read, encodings[i..], n) == ChainLine(read, Encodings, n)
    {
      ChainLineStep(read, encodings, i, n);
      var decoded := read(encodings[i]);
      if decoded.Some? {
        var lines := decoded.value;
        var index := n - 1;
        if 0 <= index < |lines| {
          return Ok(Strip(lines[index]));
        }
      }
      i := i + 1;
    }
    r := FallbackLine(lossy, n);
  }

  lemma ChainLineStep(read: LineReader, encs: seq<Encoding>, i: nat, n: int)
    requires i < |encs|
    ensures ChainLine(read, encs[i..], n)
            == if Fits(read, encs[i], n) then Some(Strip(read(encs[i]).value[n - 1]))
               else ChainLine(read, encs[i + 1..], n)
  {
    assert encs[i..][0] == encs[i] && encs[i..][1..] == encs[i + 1..];
  }

  /**
   * The chain finds nothing exactly when no encoding fits, and otherwise
   * takes the line from the earliest encoding that fits: one that decodes
   * but has too few lines is passed over like one that does not decode.
   */
  lemma {:induction false} ChainLineIsFirst(read: LineReader, encs: seq<Encoding>, n: int)
    ensures ChainLine(read, encs, n).None? <==> forall k | 0 <= k < |encs| :: !Fits(read, encs[k], n)
    ensures forall k | 0 <= k < |encs| && Fits(read, encs[k], n)
                       && (forall j | 0 <= j < k :: !Fits(read, encs[j], n))
              :: ChainLine(read, encs, n) == Some(Strip(read(encs[k]).value[n - 1]))
    decreases |encs|
  {
    if encs != [] {
      var rest := encs[1..];
      ChainLineIsFirst(read, rest, n);
      assert forall k | 1 <= k < |encs| :: encs[k] == rest[k - 1];
      if !Fits(read, encs[0], n) {
        forall k | 0 <= k < |encs| && Fits(read, encs[k], n)
                   && (forall j | 0 <= j < k :: !Fits(read, encs[j], n))
          ensures ChainLine(read, encs, n) == Some(Strip(read(encs[k]).value[n - 1]))
        {
          assert forall j | 0 <= j < k - 1 :: !Fits(read, rest[j], n) by {
            forall j | 0 <= j < k - 1 ensures !Fits(read, rest[j], n) {
              assert rest[j] == encs[j + 1];
            }
          }
          assert Fits(read, rest[k - 1], n);
        }
      }
    }
  }

  /**
   * A line number below 1 never reads a line; otherwise a line that is
   * read is stripped, and the only failures are a missing line and a file
   * that cannot be opened.
   */
  lemma LineOfOutcomes(read: LineReader, lossy: LossyText, n: int)
    ensures n < 1 ==> LineOf(read, lossy, n).Err?
    ensures LineOf(read, lossy, n).Ok? ==> Strip(LineOf(read, lossy, n).value) == LineOf(read, lossy, n).value
    ensures LineOf(read, lossy, n).Err? ==>
              LineOf(read, lossy, n).error == (if lossy.None? then ReadFailed else LineMissing(n))
  {
    ChainLineIsFirst(read, Encodings, n);
    match ChainLine(read, Encodings, n)
    case Some(line) =>
      var k :| 0 <= k < |Encodings| && Fits(read, Encodings[k], n);
      StripIdempotent(read(Encodings[k]).value[n - 1]);
      ChainLineStripped(read, Encodings, n);
    case None =>
      if lossy.Some? {
        var lines := SplitOn(lossy.value, '\n');
        if HasLine(lines, n) {
          StripIdempotent(lines[n - 1]);
        }
      }
  }

  lemma {:induction false} ChainLineStripped(read: LineReader, encs: seq<Encoding>, n: int)
    ensures ChainLine(read, encs, n).Some? ==> Strip(ChainLine(read, encs, n).value) == ChainLine(read, encs, n).value
    decreases |encs|
  {
    if encs != [] {
      if Fits(read, encs[0], n) {
        StripIdempotent(read(encs[0]).value[n - 1]);
      } else {
        ChainLineStripped(read, encs[1..], n);
      }
    }
  }

  /** How many times c occurs in s. */
  function Occurrences(s: string, c: char): nat
  {
    if s == [] then 0 else (if s[0] == c then 1 else 0) + Occurrences(s[1..], c)
  }

  lemma {:induction false} OccurrencesAppend(a: string, b: string, c: char)
    ensures Occurrences(a + b, c) == Occurrences(a, c) + Occurrences(b, c)
    decreases |a|
  {
    if a == [] {
      assert a + b == b;
    } else {
      assert (a + b)[0] == a[0] && (a + b)[1..] == a[1..] + b;
      OccurrencesAppend(a[1..], b, c);
    }
  }

  lemma {:induction false} OccurrencesAbsent(s: string, c: char)
    requires c !in s
    ensures Occurrences(s, c) == 0
    decreases |s|
  {
    if s != [] {
      assert s[1..] == s[1..] && forall k | 0 <= k < |s[1..]| :: s[1..][k] == s[k + 1];
      OccurrencesAbsent(s[1..], c);
    }
  }

  /**
   * The fallback's `split('\n')` has one more piece than the text has line
   * feeds, so a text that ends in a line feed has an empty last piece that
   * `readlines()` does not count as a line.
   */
  lemma {:induction false} SplitLinesCount(text: string)
    ensures |SplitOn(text, '\n')| == Occurrences(text, '\n') + 1
    decreases |text|
  {
    var i := FindChar(text, '\n');
    if i == |text| {
      assert text[..i] == text;
      OccurrencesAbsent(text, '\n');
    } else {
      var head, tail := text[..i], text[i + 1..];
      assert '\n' !in head;
      OccurrencesAbsent(head, '\n');
      assert text == head + ("\n" + tail);
      OccurrencesAppend(head, "\n" + tail, '\n');
      assert ("\n" + tail)[1..] == tail;
      SplitLinesCount(tail);
    }
  }

  // ---------------------------------------------------------------------
  // The columns

  /** Every piece parses. */
  predicate AllParse(pieces: seq<string>, parse: string -> Option<int>) {
    forall k | 0 <= k < |pieces| :: parse(pieces[k]).Some?
  }

  /**
   * `[parse(x) for x in pieces]`, or None when some piece does not parse;
   * with `ParseInt`, the list comprehension `[int(x.strip()) for x in pieces]`.
   */
  function ParseAll(pieces: seq<string>, parse: string -> Option<int>): Option<seq<int>>
  {
    if pieces == [] then Some([])
    else
      var head, tail := parse(pieces[0]), ParseAll(pieces[1..], parse);
      if head.Some? && tail.Some? then Some([head.value] + tail.value) else None
  }

  /**
   * The list parses exactly when every piece is an integer, and then it
   * holds those integers, one per piece, in order.
   */
  lemma {:induction false} ParseAllMeans(pieces: seq<string>, parse: string -> Option<int>)
    ensures ParseAll(pieces, parse).Some? <==> AllParse(pieces, parse)
    ensures ParseAll(pieces, parse).Some? ==>
              |ParseAll(pieces, parse).value| == |pieces|
              && forall k | 0 <= k < |pieces| :: parse(pieces[k]) == Some(ParseAll(pieces, parse).value[k])
    decreases |pieces|
  {
    if pieces != [] {
      var tail := pieces[1..];
      ParseAllMeans(tail, parse);
      assert forall k | 1 <= k < |pieces| :: pieces[k] == tail[k - 1];
    }
  }

  /** The column list `file_cols_str.split(',')`, parsed. */
  function ParseColumns(spec: string): Option<seq<int>>
  {
    ParseAll(SplitOn(spec, ','), ParseInt)
  }

  /** An empty column list is not an integer: it fails rather than selecting no column. */
  lemma EmptyColumnsFail()
    ensures ParseColumns("") == None
  {
    assert FindChar("", ',') == 0;
    assert SplitOn("", ',') == [""];
    assert Strip("") == [];
  }

  /** Column c (1-based) is one of the words. */
  predicate InRange(words: seq<string>, c: int) {
    1 <= c <= |words|
  }

  /** The words the columns pick, in column order, duplicates kept, out-of-range columns skipped. */
  function Picked(words: seq<string>, cols: seq<int>): (values: seq<string>)
    ensures |values| <= |cols|
    ensures forall k | 0 <= k < |values| :: values[k] in words
  {
    if cols == [] then []
    else
      var c := cols[|cols| - 1];
      Picked(words, cols[..|cols| - 1]) + (if InRange(words, c) then [words[c - 1]] else [])
  }

  /** The loop appending to `col_values`. */
  method ExtractColumns(line: string, cols: seq<int>) returns (values: seq<string>)
    ensures values == Picked(SplitWhitespace(line), cols)
  {
    values := [];
    var i := 0;
    while i < |cols|
      invariant 0 <= i <= |cols|
      invariant values == Picked(SplitWhitespace(line), cols[..i])
    {
      assert cols[..i + 1][..i] == cols[..i];
      var index := cols[i] - 1;
      if 0 <= index < |SplitWhitespace(line)| {
        var words := SplitWhitespace(line);
        values := values + [words[index]];
      }
      i := i + 1;
    }
    assert cols[..i] == cols;
  }

  /**
   * Nothing is picked exactly when every column is out of range; when
   * every column is in range, column k picks word cols[k].
   */
  lemma {:induction false} PickedMeans(words: seq<string>, cols: seq<int>)
    ensures Picked(words, cols) == [] <==> forall k | 0 <= k < |cols| :: !InRange(words, cols[k])
    ensures (forall k | 0 <= k < |cols| :: InRange(words, cols[k])) ==>
              |Picked(words, cols)| == |cols|
              && forall k | 0 <= k < |cols| :: Picked(words, cols)[k] == words[cols[k] - 1]
    decreases |cols|
  {
    if cols != [] {
      var init := cols[..|cols| - 1];
      PickedMeans(words, init);
      assert forall k | 0 <= k < |init| :: init[k] == cols[k];
    }
  }

  /** `[format_text(val) for val in col_values]` */
  function FormatEach(values: seq<string>): (r: seq<string>)
    ensures |r| == |values| && forall k | 0 <= k < |values| :: r[k] == FormatText(values[k])
  {
    seq(|values|, k requires 0 <= k < |values| => FormatText(values[k]))
  }

  /** The text of the entry: the whole line formatted when no column was picked, else the picked values formatted and joined with `/`. */
  function Compose(line: string, values: seq<string>): string
  {
    if values == [] then FormatText(line) else Join(FormatEach(values), "/")
  }

  /** The columns of a line, or BadColumns when the list does not parse. */
  function ColumnsText(line: string, spec: string): Result<string, Failure>
  {
    match ParseColumns(spec)
    case None => Err(BadColumns)
    case Some(cols) => Ok(Compose(line, Picked(SplitWhitespace(line), cols)))
  }

  /**
   * What the joined text holds: when no formatted value contains `/`,
   * splitting it on `/` gives back the formatted values, one per picked
   * column.
   */
  lemma ComposeSplitsBack(line: string, values: seq<string>)
    requires values != []
    requires forall k | 0 <= k < |values| :: '/' !in FormatText(values[k])
    ensures SplitOn(Compose(line, values), '/') == FormatEach(values)
  {
    SplitOnJoin(FormatEach(values), '/');
  }

  /**
   * The column text fails, with BadColumns, exactly when some piece of the
   * comma-separated list is not an integer.
   */
  lemma ColumnsTextFails(line: string, spec: string)
    ensures ColumnsText(line, spec).Err? <==> !AllParse(SplitOn(spec, ','), ParseInt)
    ensures ColumnsText(line, spec).Err? ==> ColumnsText(line, spec).error == BadColumns
  {
    ParseAllMeans(SplitOn(spec, ','), ParseInt);
  }

  /**
   * A column list that parses gives the whole line formatted when no
   * column is in range, and otherwise the formatted words of the in-range
   * columns joined with `/`.
   */
  lemma ColumnsTextValue(line: string, spec: string)
    requires ParseColumns(spec).Some?
    ensures var cols := ParseColumns(spec).value;
            var words := SplitWhitespace(line);
            ColumnsText(line, spec)
            == Ok(if forall k | 0 <= k < |cols| :: !InRange(words, cols[k]) then FormatText(line)
                  else Join(FormatEach(Picked(words, cols)), "/"))
  {
    var cols, words := ParseColumns(spec).value, SplitWhitespace(line);
    PickedMeans(words, cols);
    assert ColumnsText(line, spec) == Ok(Compose(line, Picked(words, cols)));
  }
}
