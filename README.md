# app-utilities, modelled in Dafny

A model of the core of the Python package `app_utilities`, with proofs about that model:

- `loading.py`:
  - the environment-string parser `env_string_to_dict`;
  - the required-key check `check_keys_not_missing`;
  - the lookup and validation done by `load_config_from_path`.
- `numbers.py`: the dtype selectors `get_optimal_intype` and `get_optimal_uintype`.
- `path.py`:
  - the renaming loop of `prevent_directory_override`;
  - the tag scan of `get_excel_sheet_names`.

Modules:

- `Wrappers` (`wrappers.dfy`) holds `Option`, `Result` and `Outcome`.
- `Text` (`text.dfy`) holds substring occurrence, `str.join`, and the decimal rendering of a counter (`f'{n}'`).
- `PurePaths` (`purepaths.dfy`) holds pathlib's `suffix` rule. It is shared by the `.json` check and the renaming.
- `Loading` (`loading.dfy`) and `EnvExamples` (`env_examples.dfy`) cover the three operations of `loading.py`, and worked examples of the parser.
- `Numbers` (`numbers.dfy`) holds both selectors as written, and the selections their docstrings describe.
- `Paths` (`paths.dfy`) holds the candidate names and the search for the first free one. Its class `FileSystem` holds the set of existing paths, and its method `PreventDirectoryOverride` runs the source's `while` loop against that set.
- `Excel` (`excel.dfy`) covers the two regular expressions of `get_excel_sheet_names`. It works on the text of `xl/workbook.xml`.

## What the model says

### env_string_to_dict

`env_string_to_dict` runs four steps:

1. It removes every `"`.
2. It cuts the text with `str.splitlines`. That breaks at `\n`, `\r`, `\r\n`, `\v`, `\f`, `\x1c`–`\x1e`, `\x85`, U+2028 and U+2029, and a final break adds no empty line.
3. It drops the empty lines.
4. It splits each line with `re.split(r'[\s+]=[\s+]', line)` and hands the lists to `dict`.

`[\s+]` is one whitespace character or a `+`, so a separator is exactly three characters: one of those, `=`, and one of those. `FOO=bar` does not split at all. A dict element of any length other than 2 makes `dict` raise ValueError; the model returns `DictError(index, length)` in that case. A later line with the same key overwrites an earlier one.

The docstring's own example, `'\nFOO=bar\nBAZ=qux\n'`, is therefore rejected at its first line. `EnvExamples.EnvDocstringExampleIsRejected` proves this (see "## Findings").

### check_keys_not_missing

`check_keys_not_missing` has two outcomes:

- It passes exactly when the required keys are a subset of the mapping's keys.
- Otherwise it reports all missing keys together. The message ends in ` in <name>.`, or in `.` when the name is None or empty.

### load_config_from_path

`load_config_from_path` checks, in this order:

1. existence (`is_file`);
2. the `.json` suffix;
3. that the document decodes;
4. that the document is an object;
5. the first entry whose key parses to the requested UUID;
6. the required keys of that entry's record.

Keys that do not parse are skipped. The entries are tried in the order of the dict `msgspec` builds from the top-level object (`Loading.AsDict`). Each key stands where it first appears and holds the value it was given last, so with a repeated key the last record given for it is the one checked. For a document without repeated keys this is document order (`Loading.AsDictOfDistinct`).

### get_optimal_intype and get_optimal_uintype

`get_optimal_intype` compares only against upper bounds, each inclusive. `get_optimal_uintype` uses strict `<` for the four integer bounds and `<=` for float32. Neither checks the sign.

### prevent_directory_override

`prevent_directory_override` renames with `with_stem(f'{name} {n}')`, and `name` includes the suffix. So the counters accumulate and the suffix is added again:

- `output` → `output 0` → `output 0 1`;
- `a.txt` → `a.txt 0.txt`.

The suffix rule is the one of Python 3.8–3.13: a last dot at a position `0 < i < len(name) - 1`. Under that rule a name that does not end in `.` keeps its suffix through every renaming. `with_stem` raises ValueError on an existing path with an empty name, such as `Path('.')`, and the model reports that as `EmptyName`.

`mkdir(parents=True)` creates the path and every missing ancestor, so all of them are added to the set.

### get_excel_sheet_names

`get_excel_sheet_names` collects every stretch that starts at `<sheet ` and runs up to the next `>`. From each stretch it takes the text between the first `name="` and the next `"`.

The scan's matches come in the text's order without overlapping, and every `<sheet ` in the text lies inside one of them (`Excel.SpansInOrder`, `Excel.SpansCoverEveryOpen`). A `<sheet ` that occurs inside an earlier match is part of that match, not the start of another.

Because `re.findall` only ever returns non-empty stretches, `filter(None, ...)` changes nothing. A stretch with no `name="` makes `re.search` return None, and `.group` then raises AttributeError. The model reports that as `NoNameAttribute`.

XML entities are not decoded. A `>` inside an attribute value cuts the tag short.

The round trip `WorkbookRoundTrip` proves that sheet elements `<sheet name="N"/>` written in order are read back as exactly those names, in that order.

### Where the code and its description differ

The model follows the code:

- The numeric selectors check no sign, although the docstrings promise one (the unsigned selector's ValueError, and `-1e10 → int64`).
- The unsigned selector's docstring ends with two examples that call `get_optimal_intype`. One of them, `get_optimal_intype(1e10) → np.uint64`, disagrees with the code, which returns int64 (`Numbers.OptimalIntypeBoundaries`).

## Model

| member | source | states |
|---|---|---|
| Loading.RemoveQuotes | src/app_utilities/loading.py:47 | the result holds no `"` and keeps every other character with its multiplicity |
| Loading.RemoveQuotesAppend | src/app_utilities/loading.py:47 | removing quotes works piecewise over a concatenation, so the other characters keep their order |
| Loading.RemoveQuotesIdentity | src/app_utilities/loading.py:47 | a text without quotes is left unchanged |
| Loading.ScanLinesRoundTrip | src/app_utilities/loading.py:47 | the lines `splitlines` finds, rejoined with their endings, give back the text |
| Loading.ScanLinesWellFormed | src/app_utilities/loading.py:47 | every line found is free of breaks, and only the last line may lack an ending |
| Loading.UnlinesRoundTrip | src/app_utilities/loading.py:47 | well-formed lines, rejoined, are found again unchanged (a `\r` ending is not followed by a line starting with `\n`) |
| Loading.SplitLines | src/app_utilities/loading.py:47 | `splitlines` yields one break-free text per line found |
| Text.NonEmpty | src/app_utilities/loading.py:47 | `filter(None, ...)`, used here and on the sheet tags of path.py:77, keeps exactly the non-empty strings; a list with no empty string is kept whole |
| Text.NonEmptyAppend | src/app_utilities/loading.py:47 | filtering works piecewise over a concatenation, so the kept lines stay in their order |
| Loading.EnvLines | src/app_utilities/loading.py:47 | every line handed to the splitter is non-empty, quote-free and break-free |
| Loading.EnvLinesOfUnlines | src/app_utilities/loading.py:47 | a text made of quote-free lines yields those lines' non-empty texts, in order |
| Loading.EnvLinesOfTerminated | src/app_utilities/loading.py:47 | `"\n"`-ended quote-free texts are read back, less the empty ones |
| Loading.SplitPieces | src/app_utilities/loading.py:46 | `re.split` cuts the line into parts interleaved with three-character separators `[\s+]=[\s+]`; no part holds a match; each separator is the leftmost match after the previous one |
| Loading.SplitOnSeparator | src/app_utilities/loading.py:46 | `re.split` of one line gives at least one part; `SplitPieces` states the parts and separators |
| Loading.SplitEach | src/app_utilities/loading.py:45-46 | one element per line, in order, each that line's `re.split` |
| Loading.SplitPiecesCons | src/app_utilities/loading.py:46 | a head without a match, then a separator, is the first part, and the rest is split on its own |
| Loading.SplitPiecesNone | src/app_utilities/loading.py:46 | a line without a match is one part |
| Loading.AssignmentSplits | src/app_utilities/loading.py:46 | `key <sep> value`, with no other match, splits into the key and the value |
| Loading.DictFrom | src/app_utilities/loading.py:45 | `dict` succeeds iff every element has length 2; on failure it reports the first element that does not, with its length; on success the keys are the elements' first items and the last element with a key supplies its value |
| Loading.LinesToDict | src/app_utilities/loading.py:45-47 | the dict is built iff every line splits into exactly two parts; the first line that does not is reported; the keys are the lines' first parts |
| Loading.EnvStringToDict | src/app_utilities/loading.py:45-48 | `env_string_to_dict` is `LinesToDict` of `EnvLines`; those two state what it returns, and the `EnvExamples` lemmas work it out on concrete texts |
| Loading.LinesToDictLastLineWins | src/app_utilities/loading.py:45 | a key's value comes from the last line that carries that key |
| Loading.SplitOnEquals | src/app_utilities/loading.py:46 | corrected separator `\s*=\s*`: a line has one part more than it has `=`, and no part holds one |
| Loading.EqualsAssignmentSplits | src/app_utilities/loading.py:46 | with `\s*=\s*`, `key=value` splits into the key and the value, each trimmed of the whitespace next to `=` |
| Loading.IntendedEnvStringToDict | src/app_utilities/loading.py:45-48 | corrected parser: it succeeds iff every line holds exactly one `=`; the keys are the lines' first parts |
| EnvExamples.EnvDocstringExampleIsRejected | src/app_utilities/loading.py:37-42 | the docstring's example raises ValueError at its first line, which has length 1 |
| EnvExamples.EnvDocstringExampleIntended | src/app_utilities/loading.py:37-42 | with `\s*=\s*` the docstring's example yields `{'FOO': 'bar', 'BAZ': 'qux'}` |
| EnvExamples.EnvSpacedAssignmentsParse | src/app_utilities/loading.py:45-48 | `FOO = bar` and `BAZ+=+qux` parse into `{'FOO': 'bar', 'BAZ': 'qux'}` |
| EnvExamples.EnvLaterLineOverwrites | src/app_utilities/loading.py:45 | a repeated key keeps the later line's value |
| EnvExamples.EnvWhitespaceLineIsKept | src/app_utilities/loading.py:47 | a whitespace-only line is not dropped, and it makes `dict` fail at its position |
| Loading.ErrorSuffix | src/app_utilities/loading.py:76 | the suffix is ` in <name>.` for a non-empty name, and exactly `.` iff the name is None or empty |
| Loading.CheckKeysNotMissing | src/app_utilities/loading.py:69-77 | it passes iff the required keys are a subset of the keys; otherwise it reports exactly the set difference, which is non-empty, with the suffix |
| Loading.MissingKeysMessage | src/app_utilities/loading.py:75-77 | the message is exactly `missing keys `, then the missing keys joined by `, `, then the suffix; so it starts with `missing keys `, ends with the suffix and contains every missing key |
| PurePaths.Suffix | src/app_utilities/loading.py:138 | pathlib's `suffix`; `SuffixShape` and `JsonSuffixIff` state it |
| PurePaths.SuffixShape | src/app_utilities/loading.py:138 | a non-empty suffix is a proper ending of the name, a dot and at least one character with no further dot; it is empty iff the name ends in `.` or has no dot after its first character |
| PurePaths.JsonSuffixIff | src/app_utilities/loading.py:138 | the suffix is `.json` iff the name ends in `.json` and is longer than it |
| Loading.KeyIndex | src/app_utilities/loading.py:146 | the position of a key's first entry: no earlier entry has the key; it is past the end iff no entry has it |
| Loading.Insert | src/app_utilities/loading.py:144 | storing into a dict keeps the keys distinct and adds the key; a key already present keeps its place and takes the new value, every other entry is unchanged, and a new key goes last |
| Loading.AsDict | src/app_utilities/loading.py:144-146 | the dict made from an object's entries has distinct keys, and exactly the object's keys |
| Loading.AsDictOfDistinct | src/app_utilities/loading.py:144-146 | an object without repeated keys becomes a dict with the same entries in document order |
| Loading.AsDictKeepsLastEntry | src/app_utilities/loading.py:144-146 | the last entry given for a key is the one the dict holds |
| Loading.AsDictFirstAppearanceOrder | src/app_utilities/loading.py:144-146 | the dict's entries come in the order their keys first appear in the document |
| Loading.RepeatedKeyKeepsLastValue | src/app_utilities/loading.py:144-146 | a key given twice yields one entry holding the second value |
| Loading.FirstMatch | src/app_utilities/loading.py:146-155 | finds the first entry whose key parses to the target; every entry before it does not; None iff no entry does |
| Loading.NonMatchingEntryIsIgnored | src/app_utilities/loading.py:147-153 | inserting an entry whose key does not parse to the target, anywhere, does not change the record found |
| Loading.LaterEntriesAreIgnored | src/app_utilities/loading.py:152-153 | entries after the first match never change the lookup |
| Loading.CheckRecord | src/app_utilities/loading.py:157-163 | the record is returned unchanged iff it is a mapping with every required key; a non-mapping fails with AttributeError; otherwise the KeyError lists exactly the missing keys, with ` in config.` |
| Loading.LoadConfigFromPath | src/app_utilities/loading.py:130-163 | each failure (missing file, wrong suffix, undecodable or non-object document, UUID not found, missing keys) arises in the source's order; a success is the first matching record of the dict `msgspec` builds, a mapping with every required key |
| Numbers.OptimalIntype | src/app_utilities/numbers.py:39-50 | returns a tag of the signed chain; float64 iff the number exceeds the float32 maximum; int8 iff the number is at most 127 |
| Numbers.OptimalIntypeIntervals | src/app_utilities/numbers.py:39-50 | each signed tag is chosen on exactly its half-open interval |
| Numbers.OptimalIntypeBoundaries | src/app_utilities/numbers.py:29-50 | the tag at each bound and one past it, and the docstring's examples as the code decides them (`-1e10` gives int8) |
| Numbers.OptimalIntypeMonotone | src/app_utilities/numbers.py:39-50 | a larger number never gets an earlier tag |
| Numbers.OptimalUintype | src/app_utilities/numbers.py:91-102 | returns a tag of the unsigned chain; float64 iff the number exceeds the float32 maximum; uint8 iff the number is below 255 |
| Numbers.OptimalUintypeIntervals | src/app_utilities/numbers.py:91-102 | each unsigned tag is chosen on exactly its interval, closed below and open above |
| Numbers.OptimalUintypeBoundaries | src/app_utilities/numbers.py:81-102 | the tag just below and at each integer type's own maximum, which lands one tag higher; the docstring's two `get_optimal_uintype` examples (42 and 1000); and 1e40, which gets float64 |
| Numbers.OptimalUintypeMonotone | src/app_utilities/numbers.py:91-102 | a larger number never gets an earlier tag |
| Numbers.NegativesGetEightBits | src/app_utilities/numbers.py:39-40 | every negative number gets int8 from the signed selector and uint8 from the unsigned one |
| Numbers.FittingIntype | src/app_utilities/numbers.py:11-15 | corrected signed selection: the tag holds the number, and no earlier tag of the chain does |
| Numbers.FittingUintype | src/app_utilities/numbers.py:58-77 | corrected unsigned selection: an error iff the number is negative; otherwise the tag holds the number and no earlier tag does |
| Numbers.IntypeIgnoresLowerBound | src/app_utilities/numbers.py:33-40 | as written, `-1e10` gets int8, which cannot hold it; the corrected selection gives int64 |
| Numbers.UintypeExcludesEachMaximum | src/app_utilities/numbers.py:91-98 | as written, 255 gets uint16 and 2^64 - 1 gets float32, though uint8 and uint64 hold them |
| Numbers.UintypeAcceptsNegatives | src/app_utilities/numbers.py:74-77 | as written, a negative number gets uint8, which cannot hold it, where the docstring promises ValueError |
| Numbers.FittingAgreesOnNonNegatives | src/app_utilities/numbers.py:39-102 | on non-negative numbers the signed selections agree, and the unsigned ones agree away from the four integer maxima |
| Text.NatToString | src/app_utilities/path.py:41 | `str(n)` is never empty; `NatToStringDigits` and `NatToStringValue` state its digits and value |
| Text.NatToStringDigits | src/app_utilities/path.py:41 | the rendered counter is all decimal digits, without a leading zero |
| Text.NatToStringValue | src/app_utilities/path.py:41 | the rendered counter's digits denote the counter |
| Text.JoinContainsParts | src/app_utilities/loading.py:75 | every part occurs in the joined text |
| Text.Join | src/app_utilities/loading.py:75 | `sep.join` of no parts is empty and of one part is that part; `JoinIsWeave` and `JoinContainsParts` state the rest |
| Text.JoinIsWeave | src/app_utilities/loading.py:75 | the joined text is the parts in order with the separator between each two of them and nowhere else |
| Paths.Candidate | src/app_utilities/path.py:40-42 | the path after `k` renamings keeps the parent, and its name is at least `2k` characters longer |
| Paths.Renamed | src/app_utilities/path.py:41 | a renaming keeps the parent directory and lengthens the name by at least two characters |
| Paths.Ancestors | src/app_utilities/path.py:43 | the paths `mkdir(parents=True)` creates besides the path are exactly the directories above it: each proper prefix of its parent |
| Paths.FirstFreeIsFree | src/app_utilities/path.py:40-42 | the search stops at a candidate that does not exist, and every earlier candidate exists |
| Paths.FirstFreeBounded | src/app_utilities/path.py:40-42 | the search stops within as many renamings as there are existing paths |
| Paths.CandidateNamesGrow | src/app_utilities/path.py:40-42 | later candidates have strictly longer names |
| Paths.CandidatesDistinct | src/app_utilities/path.py:40-42 | no candidate is tried twice |
| Paths.StemmedKeepsSuffix | src/app_utilities/path.py:41 | appending ` <digits>` plus the suffix to a name that does not end in `.` keeps its suffix |
| Paths.RenamedKeepsSuffix | src/app_utilities/path.py:41 | one renaming keeps the suffix of a name that does not end in `.`, and the new name does not end in `.` either |
| Paths.ChainKeepsSuffix | src/app_utilities/path.py:40-42 | along any chain of renamings, every name keeps the first name's suffix |
| Paths.FreeName | src/app_utilities/path.py:39-44 | the name the loop settles on; `FreeNameIsFirstFree`, `FreeNameOfNewPath`, `FreeNameFailsOnlyOnEmptyName` and `FreeNameKeepsSuffix` state its result |
| Paths.FreeNameIsFirstFree | src/app_utilities/path.py:39-44 | the result does not exist, keeps the parent, and is the first candidate that does not exist, reached within as many renamings as there are existing paths |
| Paths.FreeNameOfNewPath | src/app_utilities/path.py:39-44 | a path that does not exist is returned as it is |
| Paths.FreeNameFailsOnlyOnEmptyName | src/app_utilities/path.py:41 | the only failure is an existing path with an empty name (`with_stem`'s ValueError) |
| Paths.FreeNameKeepsSuffix | src/app_utilities/path.py:39-44 | for a name that does not end in `.`, the result succeeds and has the same suffix |
| Paths.FileSystem.PreventDirectoryOverride | src/app_utilities/path.py:39-44 | the loop returns the first free candidate, or the empty-name error; it adds that path and its ancestors to the existing paths, and changes nothing on failure |
| Paths.OutputCandidates | src/app_utilities/path.py:39-42 | renaming `output` gives `output 0`, then `output 0 1` |
| Paths.OutputCalls | src/app_utilities/path.py:33-36 | the docstring's two calls, `output` then `output 0`, and a third call giving `output 0 1` |
| Excel.RunEndShape | src/app_utilities/path.py:75-77 | a `[^x]*` run holds no `x` and stops at an `x` or at the end |
| Excel.SheetTagsFrom | src/app_utilities/path.py:77 | `re.findall` from a start index; `SheetTagsFromShape`, `SheetTagIsSpan`, `SpansInOrder` and `SpansCoverEveryOpen` state what it returns |
| Excel.SheetTags | src/app_utilities/path.py:77 | `re.findall` over the whole text; `SheetTagsSkip`, `FilterKeepsSheetTags` and `SheetNamesIff` state its properties |
| Excel.SheetTagsFromShape | src/app_utilities/path.py:77 | every stretch found starts with `<sheet `, holds no `>`, occurs in the text, and is followed by `>` or by the end |
| Excel.SheetSpansFrom | src/app_utilities/path.py:77 | each match of `<sheet [^>]*` starts at a `<sheet ` at or after the scan's start, lies within the text, and ends where its run of non-`>` characters ends |
| Excel.SpansInOrder | src/app_utilities/path.py:77 | the matches come in order and do not overlap |
| Excel.SpansCoverEveryOpen | src/app_utilities/path.py:77 | every `<sheet ` from the scan's start on lies inside a match, so no tag is passed over |
| Excel.SheetTagsCount | src/app_utilities/path.py:77 | `findall` returns one string per match |
| Excel.SheetTagIsSpan | src/app_utilities/path.py:77 | the strings `findall` returns are the texts of the matches, in order |
| Excel.SheetTagsSkip | src/app_utilities/path.py:77 | text without `<sheet ` contributes no stretch |
| Excel.FilterKeepsSheetTags | src/app_utilities/path.py:77 | `filter(None, ...)` leaves the stretches unchanged |
| Excel.NameFrom | src/app_utilities/path.py:74-76 | the `name="` search from an index; `NameFromNone` and `NameFromSome` state when it fails and what it finds |
| Excel.NameFromSome | src/app_utilities/path.py:74-76 | a name found is the text after the leftmost `name="` up to the next `"` or the end of the tag |
| Excel.NameValue | src/app_utilities/path.py:74-76 | the name of one tag; `NameValueIff` and `SheetTagName` state its properties |
| Excel.NameFromNone | src/app_utilities/path.py:74-76 | the search fails iff `name="` occurs nowhere at or after the start |
| Excel.NameValueIff | src/app_utilities/path.py:74-76 | a stretch has no name iff it does not contain `name="`; a name holds no `"` |
| Excel.NamesOf | src/app_utilities/path.py:74-77 | the list comprehension over the tags; `NamesOfIff` states its result |
| Excel.NamesOfIff | src/app_utilities/path.py:74-77 | the names are read iff every stretch has one; they correspond one to one; a failure names the first stretch without one |
| Excel.GetExcelSheetNames | src/app_utilities/path.py:72-77 | `get_excel_sheet_names` on the workbook text; `SheetNamesIff`, `FramedRoundTrip` and `WorkbookRoundTrip` state its result |
| Excel.SheetNamesIff | src/app_utilities/path.py:74-77 | the sheet names are read iff every stretch contains `name="`; they are as many as the stretches and quote-free |
| Excel.SheetTagName | src/app_utilities/path.py:74-76 | the name of `<sheet name="N"/>` is N |
| Excel.ScanSheetElements | src/app_utilities/path.py:77 | written sheet elements are found as their tags, in order |
| Excel.NamesOfSheetTags | src/app_utilities/path.py:74-77 | the tags of written sheets give back their names |
| Excel.FramedRoundTrip | src/app_utilities/path.py:74-77 | sheet elements with names free of `"` and `>` are read back as exactly those names, between a head and a foot in which every `<` has a seventh character from it on and that character is not a space (so no `<sheet ` can start there, whatever follows) |
| Excel.WorkbookRoundTrip | src/app_utilities/path.py:74-77 | a `<sheets>` element of written sheets gives back their names in order |

## Left out

- File and environment I/O. `is_file()`, `open` with `read`, the zip read of `xl/workbook.xml` with its UTF-8 decoding, and `exists()` are inputs: the flag `isFile`, the decoded `document`, the XML text, and the set of existing paths.
- `msgspec.json.decode`: the decoded document is an input (None when decoding fails). Byte-level JSON is not modelled. The dict built from the top-level object is modelled (`Loading.AsDict`). Nested objects, including the returned record, keep their entries as decoded; the key check reads their set of keys, which is the same either way.
- Loading.EnvStringToDict: the result is a Dafny `map`, which has no order. The insertion order of the Python dict (keys in order of their first line) is not modelled.
- `uuid.UUID(...)` on a key: the parser is a function parameter (`parseUuid`), and a UUID is its 128-bit value.
- `Path(config_path)`: the conversion is not modelled; the model receives the final path component (`fileName`).
- `load_id_from_env`: it only reads an environment variable and parses a UUID, both of which are outside the model.
- The distinction between a directory and a file, and `mkdir` failures such as permissions or a path created concurrently between `exists()` and `mkdir()`. The file system is a set of paths, and creating a path inserts it and its ancestors.
- PurePaths.Suffix: follows the rule of Python 3.8–3.13. Later versions also accept a name ending in `.`.
- Loading.IsSpace: `\s` and `str.isspace` are taken as the fixed set of whitespace code points of current Unicode versions. Python reads that set from the Unicode database it ships with, and a change between versions is not modelled.
- Loading.MissingKeysMessage: the keys are strings. The `str()` of other hashable keys is not modelled, and the set's iteration order is a parameter.
- Numbers.OptimalIntype: numbers are exact reals. Float rounding is ignored, including the comparison of an integer with `3.4028235e+38`, which Python makes exactly. NaN, which fails every comparison and so gets float64, is not modelled.
- Numbers.OptimalUintype: same as `Numbers.OptimalIntype`, reals without rounding and without NaN.
- `beartype` run-time type checks, and the `datatypes.py` type aliases. The model's types play their role.
- `re.search(...)` returning a match object: only the `.group(0)[6:]` text is modelled.

## Findings

| source | as written | input that shows it | evidently intended | confidence | as-written member | corrected member |
|---|---|---|---|---|---|---|
| src/app_utilities/loading.py:46 | separator `[\s+]=[\s+]` demands one whitespace or `+` character on each side of `=` | the docstring's own `'\nFOO=bar\nBAZ=qux\n'`: `FOO=bar` is not split, and `dict` raises ValueError | `\s*=\s*`, so `KEY=VALUE` lines give `{'FOO': 'bar', 'BAZ': 'qux'}` | high, not executed | EnvExamples.EnvDocstringExampleIsRejected | Loading.IntendedEnvStringToDict |
| src/app_utilities/numbers.py:39-46 | only upper bounds are compared | `-1e10` gives int8 | int64, as the docstring says: the smallest type whose range holds the number | high, not executed | Numbers.IntypeIgnoresLowerBound | Numbers.FittingIntype |
| src/app_utilities/numbers.py:91-98 | strict `<` against each unsigned maximum | `255` gives uint16; `2**64 - 1` gives float32 | `<=`, so that each type's own maximum fits it | medium, not executed | Numbers.UintypeExcludesEachMaximum | Numbers.FittingUintype |
| src/app_utilities/numbers.py:74-77 | no sign check | `-1` gives uint8 | ValueError for a negative number | high, not executed | Numbers.UintypeAcceptsNegatives | Numbers.FittingUintype |
