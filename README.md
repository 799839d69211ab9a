# PPT image inserter: number formatting, data-file resolution and layout modes

A Dafny model of the core of `ppt_image_inserter_gui.py`, a desktop tool that
builds PowerPoint slides from images and from values read out of text data
files in a working directory. The model covers four parts of the tool.

- **Number formatting** (`format_number`, `format_text`). A token becomes a
  number with three significant digits. Magnitudes from about 0.1 to 1000 are
  written as plain decimals, everything else in scientific notation with an
  upper-case `E`. Text that is not a number passes through.
  - Python's `decimal` arithmetic is modelled exactly as the function uses it
    (module `Decimal`), and so are its `f`/`e` renderings (module `DecimalText`).
    This covers the context with precision 10, `abs()`, `quantize` with
    ROUND_HALF_UP, `int()` and `float()`'s overflow to infinity. It also covers
    the limits of `Decimal(value)` in the C implementation (`Decimal.Converts`),
    which refuses a value it would have to round or clamp (an exponent below
    -1999999999999999997, a zero with an exponent above 999999999999999999).
- **Data-file resolution** (module `FileResolver`). Each text entry picks its
  data file from the directory listing.
  - With a keyword, it takes the first regular file whose name contains the
    keyword.
  - Without one, it takes the least name among the names that look like text
    (a text extension or a `.o<digits>` job suffix).
  - Failing that, it takes the least name among the regular files whose first
    100 bytes are more than 70% text bytes.
- **Line and column extraction** (modules `LineExtractor`, `TextEntry`).
  - **Reading the line.** The requested line is read under five encodings in
    turn. If none of them gives it, a lossy UTF-8 reading is tried. The line is
    stripped.
  - **Picking the columns.** The comma-separated column list is parsed. The
    whitespace-separated words it names are picked, each is formatted, and the
    results are joined with `/`. When no column is in range, the whole line is
    formatted instead.
  - **The loop over entries** gathers the placed texts and the labelled error
    messages.
- **Layout modes** (module `ModeStore`). Loading the saved modes upgrades old
  files and always provides the reserved mode `自定义`. Deleting and saving
  guard that name. The store is the class `ModeStore.Store`, whose `modes`
  map the methods update in place.

Loops in the source are methods with loop invariants. Each is proved equal to a
specification function, and the properties are proved about those functions:
- keyword search, the two collection passes, byte counting;
- the encoding chain, column picking;
- the loop over text entries;
- the mode upgrade loop.

## Model

| member | source | states |
|---|---|---|
| NumberFormat.FormatNumberPassThrough | ppt_image_inserter_gui.py:29-73 | text `float()` rejects comes back unchanged if it holds `E`/`e` and stripped otherwise (the `except` path); inf, nan and values too large for a float come back exactly as given; a float-sized value `Decimal()` refuses (an exponent below -1999999999999999997, a zero with an exponent above 999999999999999999) raises; every other zero gives `0.00` |
| NumberFormat.ExponentOfAbs | ppt_image_inserter_gui.py:46-48 | splitting `f"{abs(d):.3e}"` on `e` and `int()` of the second piece never fail, and give the exponent the text was written with |
| NumberFormat.ExponentNear | ppt_image_inserter_gui.py:36-48 | for a nonzero value of ordinary size the exponent is that of its leading digit, or one more when rounding to 10 and then 4 digits carries |
| NumberFormat.ExponentTiny | ppt_image_inserter_gui.py:36-48 | a nonzero value below 10^Emin gets an exponent at most Emin+1 |
| NumberFormat.ExponentPlace | ppt_image_inserter_gui.py:46-51 | an exponent of Emin+2 or more puts the value's leading digit at that place or one below |
| NumberFormat.AbsNormal | ppt_image_inserter_gui.py:36-46 | `abs()` in the precision-10 context keeps a nonzero value nonzero, at the same leading place unless it carries to exactly 10^9 units one place up |
| NumberFormat.FormatNumberFinite | ppt_image_inserter_gui.py:42-51 | a finite nonzero number that `Decimal()` accepts is formatted by the branch its `.3e` exponent selects (the Plain, Whole and Scientific rows assume the same) |
| NumberFormat.FormatNumberPlain | ppt_image_inserter_gui.py:51-56 | exponents -1..1: the value quantized half-up to 2-e places, a nonzero coefficient of at most 1000 (three significant digits), rendered by `PlainText` |
| NumberFormat.PlainBranch | ppt_image_inserter_gui.py:53-56 | on the plain branch `quantize` never raises and the rounded coefficient is nonzero and at most 1000 |
| NumberFormat.FormatNumberWhole | ppt_image_inserter_gui.py:57-58 | exponent 2 gives `str(int(d))`: truncation toward zero (bounds on the magnitude, sign kept), which `int()` reads back |
| NumberFormat.FormatNumberScientific | ppt_image_inserter_gui.py:59-63 | other exponents, for a value of at least 10^Emin: value quantized half-up to 10^(e-2), written `d.dd` + `E` + signed exponent, reading back as the rounded value |
| NumberFormat.ScientificBranch | ppt_image_inserter_gui.py:59-63 | on the scientific branch `quantize` never raises for a value of ordinary size; coefficient nonzero, at most 1000, sign kept |
| NumberFormat.FormatNumberRaises | ppt_image_inserter_gui.py:39-62 | `format_number` raises only where `Decimal(value)` refuses a float-sized value (InvalidOperation at line 39) or for a nonzero number below 10^Emin (InvalidOperation from `quantize`) |
| NumberFormat.FormatTextTotal | ppt_image_inserter_gui.py:85-92 | `format_text` never fails; for every text outside `MayRaise` (a float-sized value `Decimal()` refuses, or a nonzero number below 10^Emin) it is exactly `format_number`'s result, and only inside it can `format_number` raise, giving the stripped text |
| Decimal.ShiftRoundIsNearest | ppt_image_inserter_gui.py:55 | rounding picks a nearest whole number; under ROUND_HALF_UP a tie never goes toward zero, under half-even it lands on an even number |
| Decimal.RescaleIsNearest | ppt_image_inserter_gui.py:55 | rescaling to a coarser exponent lands within half a step of the value, ties away from zero under ROUND_HALF_UP |
| Decimal.QuantizeSucceeds | ppt_image_inserter_gui.py:55 | `quantize` raises nothing when the target exponent is within two places of the leading digit and in range |
| Decimal.RescaleThreeDigits | ppt_image_inserter_gui.py:62 | quantizing two places below the leading digit leaves a coefficient of at most 1000 |
| Decimal.TruncTowardZero | ppt_image_inserter_gui.py:58 | `int(d)` truncates toward zero: magnitude m with m <= abs(d) < m+1, sign never opposite |
| Decimal.RoundSigShape | ppt_image_inserter_gui.py:46 | rounding to p significant digits leaves exactly p digits, and the leading digit moves up at most one place |
| Decimal.FixShape | ppt_image_inserter_gui.py:36 | the precision-10 context keeps a nonzero value nonzero, with at most 10 digits and the same leading place unless rounding carries |
| Decimal.AbsBelowEmin | ppt_image_inserter_gui.py:36-46 | below 10^Emin `abs()` rounds to zero at Etiny or keeps the leading digit at or below Emin |
| DecimalText.ExpStringReadsBack | ppt_image_inserter_gui.py:47-48 | the signed exponent text reads back with `int()` as the exponent |
| DecimalText.TrimmedFixedReadsBack | ppt_image_inserter_gui.py:56 | `f"{r:.tf}".rstrip('0').rstrip('.')` reads back as exactly r's value and ends in a digit, a nonzero one when it has a point |
| DecimalText.ScientificReadsBack | ppt_image_inserter_gui.py:63 | `f"{r:.2e}".replace('e','E')` is a mantissa `d.dd` (sign-aware length), `E` and the exponent, and reads back as r's value |
| Text.ParseIntToString | ppt_image_inserter_gui.py:58 | `int(str(i)) == i` |
| Text.Strip | ppt_image_inserter_gui.py:29 | `strip()` is the part after the leading whitespace, only whitespace follows it, and it starts and ends with non-whitespace |
| Text.StripIdempotent | ppt_image_inserter_gui.py:1404 | stripping a stripped line changes nothing |
| Text.RStripChar | ppt_image_inserter_gui.py:56 | `rstrip(c)` is a prefix that does not end in c, and only c's were removed |
| Text.ContainsAt | ppt_image_inserter_gui.py:1328 | `keyword in filename` holds exactly when the keyword occurs at some position |
| Text.SplitWhitespaceKeepsText | ppt_image_inserter_gui.py:1438 | the words of `split()` hold every non-whitespace character of the line, in order |
| Text.SplitOnJoin | ppt_image_inserter_gui.py:1453 | splitting a join of separator-free pieces gives the pieces back |
| Text.JoinSplitOn | ppt_image_inserter_gui.py:1418 | joining the pieces of `split(sep)` with sep gives the text back |
| Text.Least | ppt_image_inserter_gui.py:1376-1378 | the head of `sorted(names)`: a member no greater than any name |
| Text.LessEqTotal | ppt_image_inserter_gui.py:1376 | Python's string order is total |
| Text.LessEqTransitive | ppt_image_inserter_gui.py:1376 | Python's string order is transitive |
| Text.LessEqAntisymmetric | ppt_image_inserter_gui.py:1376 | Python's string order is antisymmetric |
| FileResolver.FindByKeyword | ppt_image_inserter_gui.py:1326-1332 | the keyword loop returns the first hit |
| FileResolver.FirstHitIsFirst | ppt_image_inserter_gui.py:1327-1332 | nothing is found iff no entry is a regular file whose name contains the keyword; otherwise the earliest such entry is found |
| FileResolver.Extension | ppt_image_inserter_gui.py:1343 | `splitext`'s extension is a suffix starting at the last point, with no further point |
| FileResolver.JobNumberMeans | ppt_image_inserter_gui.py:1346 | the digit-run test equals `\.o\d+$`: some stem, `.o`, then one or more digits to the end |
| FileResolver.DigitRunAfter | ppt_image_inserter_gui.py:1346 | digits after a non-digit form the whole trailing digit run |
| FileResolver.NamesMembers | ppt_image_inserter_gui.py:1338-1369 | a name is collected exactly when some entry carrying it passes the pass's test |
| FileResolver.CollectByName | ppt_image_inserter_gui.py:1341-1347 | the first pass's loop collects the names with a text extension or job suffix, in listing order |
| FileResolver.Chunk | ppt_image_inserter_gui.py:1362 | `f.read(100)`: a prefix of at most 100 bytes, exactly 100 when the file is that long |
| FileResolver.CountTextBytes | ppt_image_inserter_gui.py:1364-1367 | the loop counts the bytes >= 32 or in {9, 10, 13} |
| FileResolver.AllTextBytes | ppt_image_inserter_gui.py:1364-1367 | a chunk of text bytes only counts all of them |
| FileResolver.LooksLikeTextBounds | ppt_image_inserter_gui.py:1368 | an empty chunk never looks like text; an all-text chunk does iff nonempty; 30% or more non-text bytes never does |
| FileResolver.CollectBySniffing | ppt_image_inserter_gui.py:1352-1373 | the second pass's loop collects regular files without a job suffix whose chunk looks like text |
| FileResolver.Resolve | ppt_image_inserter_gui.py:1320-1378 | the resolver's steps compute `Resolution` |
| FileResolver.NoKeywordChoice | ppt_image_inserter_gui.py:1336-1378 | no keyword: nothing chosen iff no candidates; the choice is least and comes from the name pass, or from the content pass only when the name pass is empty |
| FileResolver.KeywordChoice | ppt_image_inserter_gui.py:1320-1332 | keyword: nothing chosen iff no regular file contains the stripped keyword; else the earliest such file |
| LineExtractor.SelectLine | ppt_image_inserter_gui.py:1394-1427 | the encoding loop and fallback compute `LineOf` |
| LineExtractor.ChainLineIsFirst | ppt_image_inserter_gui.py:1395-1412 | the chain fails iff no encoding both decodes and has the line; else it takes the line from the earliest that does |
| LineExtractor.LineOfOutcomes | ppt_image_inserter_gui.py:1402-1427 | a line number below 1 never reads; a line read is stripped; failure is ReadFailed iff the file cannot be opened, else the line is missing |
| LineExtractor.ChainLineStripped | ppt_image_inserter_gui.py:1404 | a line found by the chain is stripped |
| LineExtractor.SplitLinesCount | ppt_image_inserter_gui.py:1418 | `split('\n')` has one piece more than the text has line feeds |
| LineExtractor.ParseAllMeans | ppt_image_inserter_gui.py:1433 | the list parses iff every piece parses, and holds one integer per piece, in order |
| LineExtractor.EmptyColumnsFail | ppt_image_inserter_gui.py:1433 | an empty column list fails to parse instead of selecting nothing |
| LineExtractor.Picked | ppt_image_inserter_gui.py:1434-1440 | at most one value per column, each a word of the line |
| LineExtractor.ExtractColumns | ppt_image_inserter_gui.py:1431-1440 | the column loop computes `Picked` of the line's words |
| LineExtractor.PickedMeans | ppt_image_inserter_gui.py:1434-1440 | nothing picked iff every column is out of range; with all columns in range, column k picks word cols[k] |
| LineExtractor.ComposeSplitsBack | ppt_image_inserter_gui.py:1450-1453 | splitting the joined text on `/` gives back the formatted values when none contains `/` |
| LineExtractor.ColumnsTextFails | ppt_image_inserter_gui.py:1432-1443 | the columns fail, with BadColumns, iff some comma piece is not an integer |
| LineExtractor.ColumnsTextValue | ppt_image_inserter_gui.py:1445-1453 | no column in range gives the formatted line; otherwise the formatted in-range words joined with `/` |
| TextEntry.Lookup | ppt_image_inserter_gui.py:1387 | the entry the joined path names carries the name; None iff no entry does (whether the path exists is the entry's `Exists`) |
| TextEntry.LookupFinds | ppt_image_inserter_gui.py:1387 | with the distinct names of a directory listing, a name's path leads to the entry carrying it |
| TextEntry.FillEntry | ppt_image_inserter_gui.py:1318-1453 | one entry's steps compute `EntryText` |
| TextEntry.ResolvedListed | ppt_image_inserter_gui.py:1323-1387 | a resolved name is always in the listing |
| TextEntry.ChosenByTestIsFile | ppt_image_inserter_gui.py:1326-1371 | the keyword pass and the content pass choose a regular file (they test `isfile`), so only the name pass can choose a dangling link or a directory |
| TextEntry.DanglingIsMissing | ppt_image_inserter_gui.py:1341-1392 | a dangling link `data.txt`, chosen by the name pass, fails the existence check with `找不到文件 data.txt` |
| TextEntry.EntryTextFailures | ppt_image_inserter_gui.py:1380-1392 | no file gives the keyword or no-text-file error; the existence error happens exactly when the chosen name's path leads nowhere; a line number below 1 fails |
| TextEntry.UnopenedFails | ppt_image_inserter_gui.py:1394-1427 | a chosen entry that exists but cannot be opened (a file without read permission, or a directory the name pass collected) fails every encoding and the lossy open, giving ReadFailed |
| TextEntry.MessageLabel | ppt_image_inserter_gui.py:1382-1442 | each message starts with `文本` and the 1-based entry number |
| TextEntry.MissingLineMessage | ppt_image_inserter_gui.py:1423 | a missing-line message carries `str(line_number)` after the label and `第` |
| TextEntry.FillAll | ppt_image_inserter_gui.py:1314-1453 | the loop's texts and messages are `Texts`/`Errors` of the per-entry outcomes |
| TextEntry.EveryEntryAccounted | ppt_image_inserter_gui.py:1314-1453 | each entry gives one text or one message; no messages iff every entry succeeds |
| ModeStore.WithDefaultsMeans | ppt_image_inserter_gui.py:247-253 | the upgrade adds exactly the three fields with their defaults and keeps every field present |
| ModeStore.WithReserved | ppt_image_inserter_gui.py:242-243 | the names are the file's plus `自定义` |
| ModeStore.AddDefaults | ppt_image_inserter_gui.py:247-253 | the three assignments compute `WithDefaults` |
| ModeStore.UpgradeAll | ppt_image_inserter_gui.py:245-253 | the upgrade loop with the corrected upgrade of the Findings row: it succeeds iff every mode is an object, with every mode upgraded |
| ModeStore.LoadModes | ppt_image_inserter_gui.py:225-257 | the corrected loader of the Findings row computes `Loaded`, which agrees with the loader as written except on the list or string modes of that row (`AsWrittenAgrees`) |
| ModeStore.LoadedNormalized | ppt_image_inserter_gui.py:225-257 | whatever the file holds, `自定义` is present and every mode is an upgraded object |
| ModeStore.LoadedNames | ppt_image_inserter_gui.py:241-254 | a file that loads keeps its names and adds only `自定义`, the default mode when missing |
| ModeStore.LoadedKeepsFields | ppt_image_inserter_gui.py:245-254 | a file that loads keeps every field its modes had |
| ModeStore.LoadFailsToDefaults | ppt_image_inserter_gui.py:237-257 | under the corrected loader of the Findings row, a missing file, a non-object file or a non-object mode gives exactly the default map |
| ModeStore.LoadIdempotent | ppt_image_inserter_gui.py:225-257 | loading what the corrected loader loaded changes nothing |
| ModeStore.ListModePassesAsWritten | ppt_image_inserter_gui.py:245-253 | as written, a list mode naming the three fields loads unchanged and not upgraded |
| ModeStore.AsWrittenAgrees | ppt_image_inserter_gui.py:237-257 | the load as written and the corrected load give the same map for every file in which no mode is a list or string passing the three field tests |
| ModeStore.NormalizeModeCorrects | ppt_image_inserter_gui.py:245-256 | the corrected upgrade agrees on objects, rejects everything else, and yields upgraded modes |
| ModeStore.SaveNameMeans | ppt_image_inserter_gui.py:1081-1122 | a save goes through iff the stripped name is nonempty, not `自定义`, and there is a layout; it stores under the stripped name |
| ModeStore.SavedModeMeans | ppt_image_inserter_gui.py:1124-1154 | a saved mode is already upgraded, keeps its layouts, stores page-1 (or 0) and has a null template iff none is set |
| ModeStore.Store.constructor | ppt_image_inserter_gui.py:225-257 | the store starts as the map of the corrected loader of the Findings row, valid |
| ModeStore.Store.Deletable | ppt_image_inserter_gui.py:807 | every mode except `自定义` is offered |
| ModeStore.Store.Delete | ppt_image_inserter_gui.py:847-850 | exactly that mode is removed; `自定义` untouched; the store stays valid |
| ModeStore.Store.Save | ppt_image_inserter_gui.py:1080-1157 | the result is `SaveName`; on success the mode is stored under the name, else nothing changes; `自定义` untouched; still valid |

## Left out

- **Graphical and presentation work.** Tk widgets, dialogs, slide and picture
  placement and `save_custom_modes`' disk write are not part of this model.
  - The template page chosen in `askinteger` becomes the parameter `page`.
  - The presentation's slide count is not modelled.
- **Reading files.** Directory listing order, file contents and the decoders
  are parameters.
  - The five encodings' decoding tables and lossy UTF-8 decoding are abstract
    functions.
  - `os.listdir` failures are not modelled: the "搜索文件失败" message and the
    empty pass-1 list.
  - What an entry's path leads to (a regular file, something else, or
    nothing: a dangling link) and whether a file can be opened are fields of
    each entry, the same for every test and open of it; an entry that
    changes between two of them is not modelled.
- **Image and text layouts at save time.** Image layouts whose `float()`
  fails, and text configurations that raise, are not modelled; the layouts
  arrive as JSON values. The success and status messages other than the
  refusal hints are left out.
- **JSON parsing and key order.** Parsing is a parameter, with None for a
  missing or unparsable file. Maps have no key order, so the order of the
  mode list is not modelled.
- **Integer line number.** `config['line_number']` is taken to be an integer.
- **Digits.** Python's `\d` in a str pattern, `int()`, `float()` and
  `Decimal()` accept every Unicode decimal digit (category Nd, such as `١٢`).
  The model reads ASCII digits only. The next three lines name what that
  changes.
- FileResolver.JobNumberMeans: states the job-suffix test for ASCII digits
  only. A name like `job.o١٢` is a name-pass candidate in the tool but not in
  the model, and the content pass does not skip it.
- Text.ParseInt: reads ASCII digits only, so a column list `١` gives
  BadColumns in the model, while the tool picks column 1.
- DecimalText.ReadNumber: reads ASCII digits only, so `format_number('١٢٣')`
  returns the text unchanged in the model, while the tool gives `123`.
- **Lower case.** `lower()` is modelled on ASCII only. Of all non-ASCII
  characters, only U+0130 and U+212A lower to ASCII letters, and neither
  letter occurs in the extension list.
- TextEntry.MessageLabel: the messages leave out the exception text
  (`str(e)`) that the read-failure and column-parse messages append.
- Decimal.Fix: the overflow branch of `_fix` is not modelled. Every value that
  reaches it here is below 10^309.

Where the code and the tool's description disagree, the model follows the code:
- **Scientific exponent.** It is written without zero padding: `12345` gives
  `1.23E+4`, not `1.23E+04`.
- **Content-pass threshold.** The test is strictly more than 70% text bytes
  (`10 * text > 7 * len`), not 70% or more.
- **Missing columns.** Out-of-range columns are dropped, and the columns that
  remain are still joined. The whole line is used only when no column is in
  range.
- **Lossy fallback.** It runs whenever no encoding gave the line, including
  when every encoding decoded but the file had too few lines.
- **Directories and dangling links in the name pass.** The name pass does not
  ask whether an entry is a regular file, so a directory named like
  `notes.txt` can be chosen; it then fails with ReadFailed
  (`TextEntry.UnopenedFails`). A dangling link `data.txt` can be chosen too;
  it fails the existence check (`TextEntry.DanglingIsMissing`).

## Findings

| source | as written | input that shows it | evidently intended | confidence | as-written member | corrected member |
|---|---|---|---|---|---|---|
| ppt_image_inserter_gui.py:245-253 | the upgrade applies `in` and item assignment to each mode whatever its type; a list or string mode naming `template_file`, `slide_index` and `text_layouts` passes the `in` tests and is kept unchanged | a modes file `{"old": ["template_file", "slide_index", "text_layouts"]}` loads with `old` as that list, which has none of the three fields | every loaded mode is an object with the three fields, and a file that cannot be upgraded gives the default map | not executed | ModeStore.ListModePassesAsWritten | ModeStore.LoadedNormalized |
