/**
 * One text entry from start to finish: resolve the file in the work
 * directory, read the requested line, pick the requested columns and
 * format them; and the loop over all text entries that gathers the
 * texts to place and the error messages to show.
 */
module TextEntry {
  import opened Wrappers
  import opened Text
  import opened FileResolver
  import opened LineExtractor

  /** What a text entry asks for: a file keyword, a 1-based line number and a column list. */
  datatype Config = Config(keyword: string, lineNumber: int, columns: string)

  /** `open(path, 'r', encoding=enc).readlines()` on a file's bytes, or None when decoding fails. */
  type Decoder = (Encoding, seq<byte>) -> Option<seq<string>>

  /** `bytes.decode('utf-8', errors='ignore')`, which never fails. */
  type LossyDecoder = seq<byte> -> string

  /** The first entry of the listing with this name, the one its path names. */
  function Lookup(listing: seq<Entry>, name: string): (e: Option<Entry>)
    ensures e.Some? ==> e.value in listing && e.value.name == name
    ensures e.None? <==> forall k | 0 <= k < |listing| :: listing[k].name != name
  {
    if listing == [] then None
    else if listing[0].name == name then Some(listing[0])
    else Lookup(listing[1..], name)
  }

  /** Whether `open(path)` succeeds: a directory, a dangling link or an unreadable file cannot be opened. */
  predicate Opens(entry: Entry) {
    entry.IsFile() && entry.readable
  }

  /** Reading an entry under an encoding. */
  function ReaderOf(entry: Entry, decode: Decoder): LineReader
  {
    enc => if Opens(entry) then decode(enc, entry.content) else None
  }

  /** The lossy reading of an entry. */
  function LossyOf(entry: Entry, lossy: LossyDecoder): LossyText
  {
    if Opens(entry) then Some(lossy(entry.content)) else None
  }

  /** Why the entry failed when resolving finds no file. */
  function NotFound(keyword: string): Failure
  {
    if Strip(keyword) != [] then NoKeywordFile(Strip(keyword)) else NoTextFile
  }

  /** The text one entry places on the slide, or why it places none. */
  function EntryText(listing: seq<Entry>, config: Config, decode: Decoder, lossy: LossyDecoder): Result<string, Failure>
  {
    match Resolution(listing, config.keyword)
    case None => Err(NotFound(config.keyword))
    case Some(name) =>
      match Lookup(listing, name)
      case None => Err(FileMissing(name))
      case Some(entry) =>
        if !entry.Exists() then Err(FileMissing(name))
        else match LineOf(ReaderOf(entry, decode), LossyOf(entry, lossy), config.lineNumber)
          case Err(f) => Err(f)
          case Ok(line) => ColumnsText(line, config.columns)
  }

  /** One entry, step by step as the generating loop runs it. */
  method FillEntry(listing: seq<Entry>, config: Config, decode: Decoder, lossy: LossyDecoder)
    returns (r: Result<string, Failure>)
    ensures r == EntryText(listing, config, decode, lossy)
  {
    var matched := Resolve(listing, config.keyword);
    if matched.None? {
      return Err(NotFound(config.keyword));
    }
    var entry := Lookup(listing, matched.value);
    if entry.None? || !entry.value.Exists() {
      return Err(FileMissing(matched.value));
    }
    var line := SelectLine(ReaderOf(entry.value, decode), LossyOf(entry.value, lossy), config.lineNumber);
    if line.Err? {
      return Err(line.error);
    }
    var cols := ParseColumns(config.columns);
    if cols.None? {
      return Err(BadColumns);
    }
    var values := ExtractColumns(line.value, cols.value);
    r := Ok(Compose(line.value, values));
  }

  /**
   * A resolved name is always in the listing; whether its path exists is
   * up to what the entry leads to.
   */
  lemma ResolvedListed(listing: seq<Entry>, keyword: string)
    ensures Resolution(listing, keyword).Some? ==> Lookup(listing, Resolution(listing, keyword).value).Some?
  {
    if Resolution(listing, keyword).Some? {
      var name := Resolution(listing, keyword).value;
      if Strip(keyword) != [] {
        KeywordChoice(listing, keyword);
      } else {
        NoKeywordChoice(listing, keyword);
        NamesMembers(listing, NameTest, name);
        NamesMembers(listing, SniffedAsText, name);
      }
    }
  }

  /**
   * With distinct names, the entry a name stands for is the one carrying it.
   */
  lemma {:induction false} LookupFinds(listing: seq<Entry>, i: nat)
    requires DistinctNames(listing) && i < |listing|
    ensures Lookup(listing, listing[i].name) == Some(listing[i])
    decreases |listing|
  {
    if i > 0 {
      var rest := listing[1..];
      assert rest[i - 1] == listing[i];
      LookupFinds(rest, i - 1);
    }
  }

  /**
   * The keyword pass and the content pass test `isfile`, so the file they
   * choose exists and is a regular file: only the name pass, which asks
   * nothing of the entry, can choose a dangling link or a directory.
   */
  lemma ChosenByTestIsFile(listing: seq<Entry>, keyword: string)
    requires DistinctNames(listing)
    requires Resolution(listing, keyword).Some?
    requires Strip(keyword) != [] || ByName(listing) == []
    ensures Lookup(listing, Resolution(listing, keyword).value).Some?
    ensures Lookup(listing, Resolution(listing, keyword).value).value.IsFile()
  {
    var name := Resolution(listing, keyword).value;
    if Strip(keyword) != [] {
      KeywordChoice(listing, keyword);
      var i :| 0 <= i < |listing| && listing[i].name == name && KeywordHit(listing[i], Strip(keyword));
      LookupFinds(listing, i);
    } else {
      NoKeywordChoice(listing, keyword);
      var i :| 0 <= i < |listing| && listing[i].name == name && SniffedAsText(listing[i]);
      LookupFinds(listing, i);
    }
  }

  /**
   * A listed name whose path leads nowhere, the least one named as text,
   * fails the existence check: `找不到文件 data.txt`.
   */
  lemma DanglingIsMissing(decode: Decoder, lossy: LossyDecoder)
    ensures EntryText([Entry("data.txt", Dangling, false, [])], Config("", 1, "1"), decode, lossy)
            == Err(FileMissing("data.txt"))
  {
    var listing := [Entry("data.txt", Dangling, false, [])];
    TxtNamed();
    assert ByName(listing) == ["data.txt"] by {
      assert listing[..0] == [];
    }
    assert Resolution(listing, "") == Some("data.txt") by {
      StripUnpadded("");
    }
  }

  /** `data.txt` carries the `.txt` extension. */
  lemma TxtNamed()
    ensures NamedAsText("data.txt")
  {
    var name := "data.txt";
    assert LowerAscii(name) == name;
    assert LastIndex(name, '.') == 4 by {
      assert name[..|name| - 1] == "data.tx";
      assert "data.tx"[..6] == "data.t";
      assert "data.t"[..5] == "data.";
    }
    assert name[0] != '.';
    assert Extension(name) == ".txt";
  }

  /**
   * The failures of an entry, in the order the steps can raise them: no
   * file (naming the stripped keyword when there is one), then the
   * existence check, which fails exactly when the chosen name's path leads
   * nowhere, then the line, then the column list.
   */
  lemma EntryTextFailures(listing: seq<Entry>, config: Config, decode: Decoder, lossy: LossyDecoder)
    ensures Resolution(listing, config.keyword).None? ==>
              EntryText(listing, config, decode, lossy)
              == Err(if Strip(config.keyword) != [] then NoKeywordFile(Strip(config.keyword)) else NoTextFile)
    ensures (EntryText(listing, config, decode, lossy).Err? && EntryText(listing, config, decode, lossy).error.FileMissing?)
            <==> && Resolution(listing, config.keyword).Some?
                 && Lookup(listing, Resolution(listing, config.keyword).value).Some?
                 && !Lookup(listing, Resolution(listing, config.keyword).value).value.Exists()
    ensures config.lineNumber < 1 ==> EntryText(listing, config, decode, lossy).Err?
  {
    ResolvedListed(listing, config.keyword);
    var r := Resolution(listing, config.keyword);
    if r.Some? {
      var entry := Lookup(listing, r.value).value;
      var reader, text := ReaderOf(entry, decode), LossyOf(entry, lossy);
      LineOfOutcomes(reader, text, config.lineNumber);
      if LineOf(reader, text, config.lineNumber).Ok? {
        ColumnsTextFails(LineOf(reader, text, config.lineNumber).value, config.columns);
      }
    }
  }

  /**
   * A chosen entry that exists but cannot be opened fails with ReadFailed:
   * a file without read permission, or a directory that the extension pass
   * collects, say one named `notes.txt`.
   */
  lemma UnopenedFails(listing: seq<Entry>, config: Config, decode: Decoder, lossy: LossyDecoder)
    requires Resolution(listing, config.keyword).Some?
    requires Lookup(listing, Resolution(listing, config.keyword).value).Some?
    requires Lookup(listing, Resolution(listing, config.keyword).value).value.Exists()
    requires !Opens(Lookup(listing, Resolution(listing, config.keyword).value).value)
    ensures EntryText(listing, config, decode, lossy) == Err(ReadFailed)
  {
    var entry := Lookup(listing, Resolution(listing, config.keyword).value).value;
    var reader := ReaderOf(entry, decode);
    ChainLineIsFirst(reader, Encodings, config.lineNumber);
    assert forall k | 0 <= k < |Encodings| :: !Fits(reader, Encodings[k], config.lineNumber);
  }

  // ---------------------------------------------------------------------
  // Error messages

  /** The head of every message of entry `index` (0-based): its 1-based number. */
  function Label(index: nat): string
  {
    "文本" + NatToString(index + 1) + ": "
  }

  /** What went wrong, in the words the tool shows; exception texts are not part of it. */
  function Reason(f: Failure): string
  {
    match f
    case NoKeywordFile(keyword) => "找不到包含关键词'" + keyword + "'的文件"
    case NoTextFile => "找不到文本文件"
    case FileMissing(name) => "找不到文件 " + name
    case LineMissing(n) => MissingLine(IntToString(n))
    case ReadFailed => "读取文件失败"
    case BadColumns => "解析列号失败"
  }

  /** The reason given for a missing line, around the line number's digits. */
  function MissingLine(digits: string): string
  {
    "第" + digits + "行不存在"
  }

  /** The message shown for entry `index` when it fails. */
  function Message(index: nat, f: Failure): string
  {
    Label(index) + Reason(f)
  }

  /**
   * A message starts with the entry's label: the 1-based entry number in
   * decimal (which reads back as that number, by `ParseIntToString`).
   */
  lemma MessageLabel(index: nat, f: Failure)
    ensures var digits := NatToString(index + 1);
            Message(index, f)[..2 + |digits|] == "文本" + digits && DigitsValue(digits) == index + 1
  {
    var digits := NatToString(index + 1);
    assert Message(index, f) == "文本" + digits + ": " + Reason(f);
    Infix4("文本", digits, ": ", Reason(f));
  }

  /**
   * A missing line's message carries, right after the label and `第`, the
   * line number as `str` writes it (which reads back as that number, by
   * `ParseIntToString`).
   */
  lemma MissingLineMessage(index: nat, n: int)
    ensures var at := |Label(index)| + 1;
            Message(index, LineMissing(n))[at..at + |IntToString(n)|] == IntToString(n)
  {
    var line := IntToString(n);
    assert Message(index, LineMissing(n)) == Label(index) + MissingLine(line);
    LabelledInfix(Label(index), line);
  }

  lemma LabelledInfix(head: string, digits: string)
    ensures (head + MissingLine(digits))[|head| + 1..|head| + 1 + |digits|] == digits
  {
    Infix(head + "第", digits, "行不存在");
    assert head + MissingLine(digits) == (head + "第") + digits + "行不存在";
  }

  lemma Infix4<T>(a: seq<T>, b: seq<T>, c: seq<T>, d: seq<T>)
    ensures (a + b + c + d)[..|a| + |b|] == a + b
  {
    assert a + b + c + d == (a + b) + (c + d);
  }

  lemma Infix<T>(a: seq<T>, b: seq<T>, c: seq<T>)
    ensures (a + b + c)[..|a| + |b|] == a + b && (a + b + c)[|a|..|a| + |b|] == b
  {
  }

  // ---------------------------------------------------------------------
  // All entries

  /** What each entry gives, in entry order. */
  function Outcomes(listing: seq<Entry>, configs: seq<Config>, decode: Decoder, lossy: LossyDecoder)
    : (results: seq<Result<string, Failure>>)
    ensures |results| == |configs|
  {
    seq(|configs|, k requires 0 <= k < |configs| => EntryText(listing, configs[k], decode, lossy))
  }

  /** The texts placed, in entry order. */
  function Texts(results: seq<Result<string, Failure>>): seq<string>
  {
    if results == [] then []
    else
      var r := results[|results| - 1];
      Texts(results[..|results| - 1]) + (if r.Ok? then [r.value] else [])
  }

  /** The error messages, in entry order, each labelled with its entry's position. */
  function Errors(results: seq<Result<string, Failure>>): seq<string>
  {
    if results == [] then []
    else
      var init, r := results[..|results| - 1], results[|results| - 1];
      Errors(init) + (if r.Err? then [Message(|init|, r.error)] else [])
  }

  /** The loop over the text entries, which appends a text or an error for each. */
  method FillAll(listing: seq<Entry>, configs: seq<Config>, decode: Decoder, lossy: LossyDecoder)
    returns (texts: seq<string>, errors: seq<string>)
    ensures texts == Texts(Outcomes(listing, configs, decode, lossy))
    ensures errors == Errors(Outcomes(listing, configs, decode, lossy))
  {
    ghost var results := Outcomes(listing, configs, decode, lossy);
    texts, errors := [], [];
    var i := 0;
    while i < |configs|
      invariant 0 <= i <= |configs|
      invariant texts == Texts(results[..i])
      invariant errors == Errors(results[..i])
    {
      var r := FillEntry(listing, configs[i], decode, lossy);
      assert r == results[i];
      Step(results, i);
      if r.Ok? {
        texts := texts + [r.value];
      } else {
        errors := errors + [Message(i, r.error)];
      }
      i := i + 1;
    }
    assert results[..i] == results;
  }

  lemma Step(results: seq<Result<string, Failure>>, i: nat)
    requires i < |results|
    ensures var r := results[i];
            Texts(results[..i + 1]) == Texts(results[..i]) + (if r.Ok? then [r.value] else [])
            && Errors(results[..i + 1]) == Errors(results[..i]) + (if r.Err? then [Message(i, r.error)] else [])
  {
    assert results[..i + 1][..i] == results[..i];
  }

  /**
   * Every entry gives exactly one of a text and an error message, and
   * there are no messages exactly when every entry succeeds.
   */
  lemma {:induction false} EveryEntryAccounted(results: seq<Result<string, Failure>>)
    ensures |Texts(results)| + |Errors(results)| == |results|
    ensures Errors(results) == [] <==> forall k | 0 <= k < |results| :: results[k].Ok?
    decreases |results|
  {
    if results != [] {
      var init := results[..|results| - 1];
      EveryEntryAccounted(init);
      assert forall k | 0 <= k < |init| :: init[k] == results[k];
    }
  }
}
