/**
 * Choosing the data file of one text entry from the working directory's
 * listing.  With a keyword, the first regular file whose name contains it;
 * without one, the least name among those that look like text by their
 * name, or failing that by their first 100 bytes.
 */
module FileResolver {
  import opened Wrappers
  import opened Text

  newtype byte = b: int | 0 <= b < 256

  /**
   * What an entry's path leads to once symbolic links are followed: a
   * regular file, something else that exists (a directory, say), or
   * nothing at all (a dangling link or a link loop, which the listing
   * still names).
   */
  datatype Kind = RegularFile | NotRegular | Dangling

  /**
   * One entry of the listing, in listing order: its name, what its path
   * leads to, whether opening it for reading succeeds (permissions, or a
   * file removed after the listing), and the bytes it holds (read only
   * when it is a readable regular file).
   */
  datatype Entry = Entry(name: string, kind: Kind, readable: bool, content: seq<byte>)
  {
    /** `os.path.isfile` */
    predicate IsFile() { kind.RegularFile? }

    /** `os.path.exists` */
    predicate Exists() { !kind.Dangling? }
  }

  /** The names of a directory listing are distinct. */
  predicate DistinctNames(listing: seq<Entry>) {
    forall i, j | 0 <= i < j < |listing| :: listing[i].name != listing[j].name
  }

  // ---------------------------------------------------------------------
  // With a keyword

  predicate KeywordHit(e: Entry, keyword: string) {
    Contains(e.name, keyword) && e.IsFile()
  }

  /** The name of the first entry, in listing order, that is a keyword hit. */
  function FirstHit(listing: seq<Entry>, keyword: string): Option<string>
  {
    if listing == [] then None
    else if KeywordHit(listing[0], keyword) then Some(listing[0].name)
    else FirstHit(listing[1..], keyword)
  }

  /** The search loop: stops at the first hit. */
  method FindByKeyword(listing: seq<Entry>, keyword: string) returns (found: Option<string>)
    ensures found == FirstHit(listing, keyword)
  {
    var i := 0;
    while i < |listing|
      invariant 0 <= i <= |listing|
      invariant FirstHit(listing[i..], keyword) == FirstHit(listing, keyword)
    {
      assert listing[i..][0] == listing[i] && listing[i..][1..] == listing[i + 1..];
      if Contains(listing[i].name, keyword) && listing[i].IsFile() {
        return Some(listing[i].name);
      }
      i := i + 1;
    }
    return None;
  }

  /**
   * FirstHit finds nothing exactly when no entry is a hit, and otherwise
   * names the earliest hit.
   */
  lemma {:induction false} FirstHitIsFirst(listing: seq<Entry>, keyword: string)
    ensures FirstHit(listing, keyword).None?
            <==> forall i | 0 <= i < |listing| :: !KeywordHit(listing[i], keyword)
    ensures forall i | 0 <= i < |listing| && KeywordHit(listing[i], keyword)
                       && (forall j | 0 <= j < i :: !KeywordHit(listing[j], keyword))
              :: FirstHit(listing, keyword) == Some(listing[i].name)
    decreases |listing|
  {
    if listing != [] {
      var rest := listing[1..];
      FirstHitIsFirst(rest, keyword);
      assert forall i | 1 <= i < |listing| :: listing[i] == rest[i - 1];
      if !KeywordHit(listing[0], keyword) {
        forall i | 0 <= i < |listing| && KeywordHit(listing[i], keyword)
                   && (forall j | 0 <= j < i :: !KeywordHit(listing[j], keyword))
          ensures FirstHit(listing, keyword) == Some(listing[i].name)
        {
          assert forall j | 0 <= j < i - 1 :: !KeywordHit(rest[j], keyword) by {
            forall j | 0 <= j < i - 1 ensures !KeywordHit(rest[j], keyword) {
              assert rest[j] == listing[j + 1];
            }
          }
          assert KeywordHit(rest[i - 1], keyword);
        }
      }
    }
  }

  // ---------------------------------------------------------------------
  // Without a keyword, first pass: by name

  const TextExtensions: seq<string> := [".txt", ".csv", ".log", ".dat", ".json", ".xml"]

  /** The position of the last occurrence of c in s, or -1. */
  function LastIndex(s: string, c: char): (i: int)
    ensures -1 <= i < |s|
    ensures i >= 0 ==> s[i] == c
    ensures forall k | i < k < |s| :: s[k] != c
  {
    if s == [] then -1
    else if s[|s| - 1] == c then |s| - 1
    else LastIndex(s[..|s| - 1], c)
  }

  /**
   * `os.path.splitext(name)[1]` for a name without a directory part: from
   * the last point to the end, unless only points come before that point
   * (as in `.profile`), in which case there is no extension.
   */
  function Extension(name: string): (ext: string)
    ensures |ext| <= |name| && (ext == [] || (ext[0] == '.' && ext == name[|name| - |ext|..]))
    ensures forall k | 0 < k < |ext| :: ext[k] != '.'
  {
    var d := LastIndex(name, '.');
    if d > 0 && exists k | 0 <= k < d :: name[k] != '.' then name[d..] else []
  }

  /** `os.path.splitext(name.lower())[1] in text_extensions`. */
  predicate HasTextExtension(name: string) {
    Extension(LowerAscii(name)) in TextExtensions
  }

  /** The length of the run of ASCII digits t ends with. */
  function DigitRun(t: string): (n: nat)
    ensures n <= |t|
    ensures AllDigits(t[|t| - n..])
    ensures n < |t| ==> !IsDigit(t[|t| - n - 1])
  {
    if t != [] && IsDigit(t[|t| - 1]) then
      var n := DigitRun(t[..|t| - 1]);
      DigitRunStep(t[..|t| - 1], t[|t| - 1], n);
      assert t[..|t| - 1] + [t[|t| - 1]] == t;
      n + 1
    else 0
  }

  lemma DigitRunStep(init: string, c: char, n: nat)
    requires n <= |init| && AllDigits(init[|init| - n..]) && IsDigit(c)
    requires n < |init| ==> !IsDigit(init[|init| - n - 1])
    ensures var t := init + [c];
            AllDigits(t[|t| - (n + 1)..]) && (n + 1 < |t| ==> !IsDigit(t[|t| - (n + 1) - 1]))
  {
    var t := init + [c];
    assert t[|t| - (n + 1)..] == init[|init| - n..] + [c];
    if n + 1 < |t| {
      assert t[|t| - (n + 1) - 1] == init[|init| - n - 1];
    }
  }

  /** t ends with a point, `o` and at least one digit. */
  predicate EndsWithJobNumber(t: string) {
    var n := DigitRun(t);
    n >= 1 && n + 2 <= |t| && t[|t| - n - 2] == '.' && t[|t| - n - 1] == 'o'
  }

  /**
   * `re.search(r'\.o\d+$', name)`: `$` matches at the end or just before a
   * final newline.
   */
  predicate JobSuffix(name: string) {
    || EndsWithJobNumber(name)
    || (name != [] && name[|name| - 1] == '\n' && EndsWithJobNumber(name[..|name| - 1]))
  }

  predicate SplitsAsJob(t: string, stem: string, digits: string) {
    t == stem + ".o" + digits && digits != [] && AllDigits(digits)
  }

  /** The run-length test is the regular expression: some stem, `.o`, then digits to the end. */
  lemma JobNumberMeans(t: string)
    ensures EndsWithJobNumber(t) <==> exists stem, digits :: SplitsAsJob(t, stem, digits)
  {
    if EndsWithJobNumber(t) {
      var n := DigitRun(t);
      var stem, digits := t[..|t| - n - 2], t[|t| - n..];
      assert t == stem + ".o" + digits;
      assert SplitsAsJob(t, stem, digits);
    }
    if exists stem, digits :: SplitsAsJob(t, stem, digits) {
      var stem, digits :| SplitsAsJob(t, stem, digits);
      DigitRunAfter(stem + ".o", digits);
    }
  }

  /** Digits after a text that ends in a non-digit make up the whole run. */
  lemma {:induction false} DigitRunAfter(head: string, digits: string)
    requires head != [] && !IsDigit(head[|head| - 1]) && AllDigits(digits)
    ensures DigitRun(head + digits) == |digits|
    decreases |digits|
  {
    var t := head + digits;
    if digits == [] {
      assert t == head;
    } else {
      assert t[..|t| - 1] == head + digits[..|digits| - 1];
      DigitRunAfter(head, digits[..|digits| - 1]);
    }
  }

  /** The first pass's test on a name. */
  predicate NamedAsText(name: string) {
    HasTextExtension(name) || JobSuffix(name)
  }

  /** The names of the entries that pass keep, in listing order. */
  function Names(listing: seq<Entry>, keep: Entry -> bool): (names: seq<string>)
    ensures |names| <= |listing|
  {
    if listing == [] then []
    else
      var last := listing[|listing| - 1];
      Names(listing[..|listing| - 1], keep) + (if keep(last) then [last.name] else [])
  }

  /** A name is collected exactly when some entry carrying it passes keep. */
  lemma {:induction false} NamesMembers(listing: seq<Entry>, keep: Entry -> bool, name: string)
    ensures name in Names(listing, keep)
            <==> exists i | 0 <= i < |listing| :: listing[i].name == name && keep(listing[i])
    decreases |listing|
  {
    if listing != [] {
      var init := listing[..|listing| - 1];
      NamesMembers(init, keep, name);
      assert forall i | 0 <= i < |init| :: init[i] == listing[i];
      if exists i | 0 <= i < |listing| :: listing[i].name == name && keep(listing[i]) {
        var i :| 0 <= i < |listing| && listing[i].name == name && keep(listing[i]);
        if i < |init| {
          assert init[i].name == name && keep(init[i]);
        }
      }
    }
  }

  predicate NameTest(e: Entry) {
    NamedAsText(e.name)
  }

  /** The names the first pass collects, in listing order; whether an entry is a file is not asked. */
  function ByName(listing: seq<Entry>): seq<string>
  {
    Names(listing, NameTest)
  }

  method CollectByName(listing: seq<Entry>) returns (names: seq<string>)
    ensures names == ByName(listing)
  {
    names := [];
    var i := 0;
    while i < |listing|
      invariant 0 <= i <= |listing|
      invariant names == Names(listing[..i], NameTest)
    {
      assert listing[..i + 1][..i] == listing[..i];
      var name := listing[i].name;
      if HasTextExtension(name) {
        names := names + [name];
      } else if JobSuffix(name) {
        names := names + [name];
      }
      i := i + 1;
    }
    assert listing[..i] == listing;
  }

  // ---------------------------------------------------------------------
  // Without a keyword, second pass: by content

  /** `f.read(100)`: the first 100 bytes, or all of a shorter file. */
  function Chunk(content: seq<byte>): (chunk: seq<byte>)
    ensures |chunk| <= |content| && |chunk| <= 100 && chunk == content[..|chunk|]
    ensures |content| >= 100 ==> |chunk| == 100
  {
    if |content| <= 100 then content else content[..100]
  }

  /** A printable byte, a tab, a line feed or a carriage return. */
  predicate IsTextByte(b: byte) {
    b >= 32 || b == 9 || b == 10 || b == 13
  }

  /** How many bytes of the chunk are text bytes. */
  function TextBytes(chunk: seq<byte>): (n: nat)
    ensures n <= |chunk|
  {
    if chunk == [] then 0
    else TextBytes(chunk[..|chunk| - 1]) + (if IsTextByte(chunk[|chunk| - 1]) then 1 else 0)
  }

  /**
   * `text_chars / max(len(chunk), 1) > 0.7`.  The float quotient is above
   * 0.7 exactly when 10 * text_chars > 7 * len: a quotient k / n with
   * n <= 100 is never strictly between 0.7 and its nearest double.
   */
  predicate LooksLikeText(chunk: seq<byte>) {
    10 * TextBytes(chunk) > 7 * (if |chunk| == 0 then 1 else |chunk|)
  }

  /** The counting loop over the chunk. */
  method CountTextBytes(chunk: seq<byte>) returns (n: nat)
    ensures n == TextBytes(chunk)
  {
    n := 0;
    var i := 0;
    while i < |chunk|
      invariant 0 <= i <= |chunk|
      invariant n == TextBytes(chunk[..i])
    {
      assert chunk[..i + 1][..i] == chunk[..i];
      var b := chunk[i];
      if b >= 32 || b == 9 || b == 10 || b == 13 {
        n := n + 1;
      }
      i := i + 1;
    }
    assert chunk[..i] == chunk;
  }

  /** Text that is nothing but text bytes: every byte counts. */
  lemma {:induction false} AllTextBytes(chunk: seq<byte>)
    requires forall k | 0 <= k < |chunk| :: IsTextByte(chunk[k])
    ensures TextBytes(chunk) == |chunk|
    decreases |chunk|
  {
    if chunk != [] {
      AllTextBytes(chunk[..|chunk| - 1]);
    }
  }

  /**
   * The 70% test: an empty chunk never passes, a non-empty chunk of text
   * bytes always does, and a chunk with at least 30% other bytes never does.
   */
  lemma LooksLikeTextBounds(chunk: seq<byte>)
    ensures chunk == [] ==> !LooksLikeText(chunk)
    ensures (forall k | 0 <= k < |chunk| :: IsTextByte(chunk[k])) ==> (LooksLikeText(chunk) <==> chunk != [])
    ensures 10 * (|chunk| - TextBytes(chunk)) >= 3 * |chunk| ==> !LooksLikeText(chunk)
  {
    if forall k | 0 <= k < |chunk| :: IsTextByte(chunk[k]) {
      AllTextBytes(chunk);
    }
  }

  /** The second pass's test on an entry; a file that cannot be opened is skipped. */
  predicate SniffedAsText(e: Entry) {
    e.IsFile() && !JobSuffix(e.name) && e.readable && LooksLikeText(Chunk(e.content))
  }

  /** The names the second pass collects, in listing order. */
  function BySniffing(listing: seq<Entry>): seq<string>
  {
    Names(listing, SniffedAsText)
  }

  method CollectBySniffing(listing: seq<Entry>) returns (names: seq<string>)
    ensures names == BySniffing(listing)
  {
    names := [];
    var i := 0;
    while i < |listing|
      invariant 0 <= i <= |listing|
      invariant names == Names(listing[..i], SniffedAsText)
    {
      assert listing[..i + 1][..i] == listing[..i];
      var e := listing[i];
      if e.IsFile() && !JobSuffix(e.name) && e.readable {
        var chunk := Chunk(e.content);
        var textChars := CountTextBytes(chunk);
        var len := if |chunk| == 0 then 1 else |chunk|;
        if 10 * textChars > 7 * len {
          names := names + [e.name];
        }
      }
      i := i + 1;
    }
    assert listing[..i] == listing;
  }

  // ---------------------------------------------------------------------
  // The whole rule

  /** The candidates without a keyword: the first pass, or the second when the first found nothing. */
  function Candidates(listing: seq<Entry>): seq<string>
  {
    var byName := ByName(listing);
    if byName != [] then byName else BySniffing(listing)
  }

  /**
   * The file chosen for a text entry: the keyword is stripped first; a
   * non-empty keyword picks the first hit, an empty one the least
   * candidate (the head of the sorted list).
   */
  function Resolution(listing: seq<Entry>, keyword: string): Option<string>
  {
    var kw := Strip(keyword);
    if kw != [] then FirstHit(listing, kw)
    else
      var names := Candidates(listing);
      if names == [] then None else Some(Least(names))
  }

  method Resolve(listing: seq<Entry>, keyword: string) returns (found: Option<string>)
    ensures found == Resolution(listing, keyword)
  {
    var kw := Strip(keyword);
    if kw != [] {
      found := FindByKeyword(listing, kw);
    } else {
      var names := CollectByName(listing);
      if names == [] {
        names := CollectBySniffing(listing);
      }
      found := if names == [] then None else Some(Least(names));
    }
  }

  /**
   * Without a keyword the chosen name is carried by an entry of the listing
   * that passes the name test, or, only when no name passes it, the
   * content test; it is no greater than any other such name; and nothing
   * is chosen only when no entry passes the test that applies.
   */
  lemma NoKeywordChoice(listing: seq<Entry>, keyword: string)
    requires Strip(keyword) == []
    ensures Resolution(listing, keyword).None? <==> Candidates(listing) == []
    ensures Resolution(listing, keyword).Some? ==>
              var m := Resolution(listing, keyword).value;
              && (forall c | c in Candidates(listing) :: LessEq(m, c))
              && (if ByName(listing) != []
                  then NamedAsText(m) && exists i | 0 <= i < |listing| :: listing[i].name == m
                  else exists i | 0 <= i < |listing| :: listing[i].name == m && SniffedAsText(listing[i]))
  {
    var names := Candidates(listing);
    if names != [] {
      var m := Least(names);
      forall c | c in names ensures LessEq(m, c) {
        var k :| 0 <= k < |names| && names[k] == c;
      }
      NamesMembers(listing, NameTest, m);
      NamesMembers(listing, SniffedAsText, m);
    }
  }

  /**
   * With a keyword, the chosen name belongs to a regular file whose name
   * contains the stripped keyword, and no earlier entry is one.
   */
  lemma KeywordChoice(listing: seq<Entry>, keyword: string)
    requires Strip(keyword) != []
    ensures Resolution(listing, keyword).None?
            <==> forall i | 0 <= i < |listing| :: !KeywordHit(listing[i], Strip(keyword))
    ensures Resolution(listing, keyword).Some? ==>
              exists i | 0 <= i < |listing| ::
                && listing[i].name == Resolution(listing, keyword).value
                && KeywordHit(listing[i], Strip(keyword))
                && forall j | 0 <= j < i :: !KeywordHit(listing[j], Strip(keyword))
  {
    var kw := Strip(keyword);
    FirstHitIsFirst(listing, kw);
    if FirstHit(listing, kw).Some? {
      var i := EarliestHit(listing, kw);
    }
  }

  /** Where some entry is a hit, there is an earliest one. */
  lemma EarliestHit(listing: seq<Entry>, keyword: string) returns (i: nat)
    requires exists k | 0 <= k < |listing| :: KeywordHit(listing[k], keyword)
    ensures i < |listing| && KeywordHit(listing[i], keyword)
    ensures forall j | 0 <= j < i :: !KeywordHit(listing[j], keyword)
  {
    i := 0;
    while !KeywordHit(listing[i], keyword)
      invariant i < |listing|
      invariant forall j | 0 <= j < i :: !KeywordHit(listing[j], keyword)
      invariant exists k | i <= k < |listing| :: KeywordHit(listing[k], keyword)
      decreases |listing| - i
    {
      i := i + 1;
    }
  }
}
