# Copyright-header pre-commit hook, modelled in Dafny

`check_copyright.py` is a pre-commit hook. It puts a copyright block at the top
of each newly added C, C++ or Arduino source file. For each file it is given, it:

1. skips the file unless its extension, lower-cased, is `.c`, `.h`, `.cpp`,
   `.hpp` or `.ino`;
2. asks git for the staged status and skips the file unless the first record
   about it has an "added" status;
3. reads the bytes and picks `\r\n` when they contain a CR LF pair, else `\n`;
4. skips the file when the decoded text already carries the block;
5. builds the block from a template holding the file's base name, the date
   and the author;
6. sets any leading byte-order marks aside, inserts the block at the top or
   after a `#!` first line, and puts one mark back;
7. writes the file and stages it again.

The model follows the code, step by step, over Dafny values:

- `PyStr` holds the Python string operations the hook relies on, over
  `seq<char>`: `isspace`, `lstrip`, `rstrip`, `strip`, `lstrip(c)`, `find`,
  `split(sep, 1)`, `in`, `startswith`, ASCII `lower`, `str(n)` and
  `b"\r\n" in raw`. The scans (`lstrip`, `rstrip`, `find`, `rfind`, `in`,
  `str(n)`) are recursive functions with declarative contracts or lemmas
  (`ContainsIff` for `in`). `strip`, `startswith`, the lower-casing of one
  character and the reading of a decimal string are plain definitions.
- `PyPath` holds `os.path.basename` and the extension half of
  `os.path.splitext` for `/`-separated paths.
- `CheckCopyright` holds the hook itself:
  - `IsAddedInIndex` is a method with the record loop of `is_added_in_index`.
  - `DetectLineEnding`, `HasOurHeader`, `InsertAfterShebang` and
    `FormatDateHuman` model the four helpers of the same names.
  - `BuildHeader` models the template and its `.strip()`.
  - `InsertKeepingBom` models the byte-order-mark step.
  - `Rewrite` is the text pipeline of `process_file`.
  - `ProcessFile` is a method with the gates of `process_file` in their order.
- `CheckCopyrightProps` holds the properties: the declarative form of the
  detector, where the block lands and how to take it out again, the
  byte-order mark, what a second run does, how the staged status is decided,
  the extension gate, and that the date can be read back.
- `CheckCopyrightCorrected` holds a detector that looks where the hook
  writes. With it, a second run leaves every rewritten file alone (see
  Findings).

The header is stripped and then followed by exactly one newline, so no blank
line separates it from the original text.

## Model

| member | source | states |
|---|---|---|
| PyStr.LStrip | check_copyright.py:59 | `lstrip()` returns a suffix of the text. Every character it drops is Python whitespace, and what remains is empty or starts with non-whitespace. U+FEFF is not whitespace. |
| PyStr.RStrip | check_copyright.py:111 | `rstrip()` returns a prefix. Every dropped character is whitespace, and what remains is empty or ends in non-whitespace. |
| PyStr.LStripChar | check_copyright.py:117 | `lstrip("\ufeff")` drops exactly the leading run of marks. What remains is a suffix that is empty or does not start with a mark. |
| PyStr.ContainsIff | check_copyright.py:57 | The substring test holds exactly when the key occurs at some position of the text. |
| PyStr.Find | check_copyright.py:67 | `find("\n")` is -1 exactly when there is no `\n`. Otherwise it is an index holding `\n` with none before it. |
| PyStr.SplitOnce | check_copyright.py:39 | `split("\t", 1)` gives one part (the line) exactly when there is no tab. Otherwise it gives two parts around the first tab, and the first part has no tab. |
| PyStr.HasCrLf | check_copyright.py:49 | `b"\r\n" in raw` holds exactly when some byte CR is directly followed by LF. |
| PyStr.AsciiLower | check_copyright.py:83 | `lower()` keeps the length and lower-cases each character. |
| PyStr.DecimalString | check_copyright.py:79 | `str(n)` is a non-empty string of digits, with no leading zero unless n is 0. |
| PyStr.ParseDecimalString | check_copyright.py:79 | Reading the decimal string of n back gives n. |
| PyPath.Basename | check_copyright.py:110 | `basename` is the suffix after the last `/`. It holds no `/`, and a `/` stands right before it when it is not the whole path. |
| PyPath.Extension | check_copyright.py:83 | `splitext(path)[1]` is empty, or starts with its only dot. It is a proper suffix of the base name. `ExtensionOfPath` and `ExtensionEmptyIff` say which suffix. |
| PyPath.BasenameAfterDir | check_copyright.py:110 | A name without `/`, behind an empty directory or one ending in `/`, is its own base name. |
| PyPath.ExtensionOfPath | check_copyright.py:83 | For `dir + stem + ext`, with `dir` empty or ending in `/`, no `/` in the name, `ext` a dot followed by no other dot, and a stem that is not all dots, the extension is `ext`. |
| PyPath.ExtensionEmptyIff | check_copyright.py:83 | The extension is empty exactly when every dot of the base name has only dots before it: no dot at all, a leading dot as in `.c`, or a run of leading dots. |
| CheckCopyright.IsAddedStatus | check_copyright.py:41 | The status test on one record. `CheckCopyrightProps.IsAddedStatusIff` characterises it. |
| CheckCopyright.IsAddedInIndex | check_copyright.py:38-44 | The loop answers true exactly when the query succeeded and the first record naming the file has a status that, stripped and upper-cased, starts with `A`. It answers false on a failed query and when no record names the file. |
| CheckCopyright.DetectLineEnding | check_copyright.py:47-51 | The newline is `\r\n` or `\n`. It is `\r\n` exactly when the bytes hold an adjacent CR LF pair. |
| CheckCopyright.HasOurHeader | check_copyright.py:54-61 | The detector. `CheckCopyrightProps.HasOurHeaderIff` characterises it. |
| CheckCopyright.InsertAfterShebang | check_copyright.py:64-74 | The insertion. `CheckCopyrightProps.InsertionIsReversible` and `ShebangOnlyLineTerminated` say where the header lands and how to take it out again. |
| CheckCopyright.FormatDateHuman | check_copyright.py:77-79 | The human date. `CheckCopyrightProps.FormatDateRoundTrip` reads it back. |
| CheckCopyright.BuildHeader | check_copyright.py:11-17 | The formatted template, stripped, is the block from `/*` to `*/` with only the final newline dropped, whatever the three fields hold. |
| CheckCopyright.InsertKeepingBom | check_copyright.py:113-121 | The byte-order-mark step. `CheckCopyrightProps.BomKeptExactlyOnce` characterises it. |
| CheckCopyright.IsSupported | check_copyright.py:83-84 | The extension gate. `CheckCopyrightProps.ExtensionGate` and `NoExtensionRejected` characterise it. |
| CheckCopyright.Rewrite | check_copyright.py:104-121 | Nothing is written exactly when the detector finds the header. |
| CheckCopyright.ProcessFile | check_copyright.py:82-133 | The count is 1 exactly when text is written. Nothing is written for an unsupported extension, a file not added in the index, or a read error. Otherwise the written text is `Rewrite` of the file's bytes and text, with the base name of the path. |
| CheckCopyrightProps.HasOurHeaderIff | check_copyright.py:54-61 | The detector holds exactly when both key lines occur and `/*` opens at the first non-whitespace position. |
| CheckCopyrightProps.NotDetectedBehindOtherFirstChar | check_copyright.py:59 | A text whose first character is neither whitespace nor `/` (for instance U+FEFF or `#`) is never taken to carry the header. |
| CheckCopyrightProps.HeaderIsBlockComment | check_copyright.py:11-17 | The stripped header starts with `/*`, ends with `*/`, and is at least four characters long. |
| CheckCopyrightProps.HeaderCarriesCreatedOn | check_copyright.py:14 | The stripped header contains `Created on:`. |
| CheckCopyrightProps.HeaderCarriesAuthor | check_copyright.py:15 | The stripped header contains `Author: ` followed by the author. |
| CheckCopyrightProps.DetectedWithKeysUpFront | check_copyright.py:57-60 | A text that starts with a block holding both key lines and opening with `/*` is detected, whatever follows. |
| CheckCopyrightProps.HeaderDetectedAtStart | check_copyright.py:57-60 | A text that starts with the stripped header is detected, whatever follows. |
| CheckCopyrightProps.InsertionIsReversible | check_copyright.py:64-74 | The insertion point is 0, or just after the first `\n` of a `#!` file. The text before it is kept, and exactly `header + newline` is inserted there. The length grows by that much, and cutting the insertion out gives back the text. |
| CheckCopyrightProps.ShebangLineKept | check_copyright.py:66-72 | When a `#!` file has a `\n`, its first line, through that `\n`, is a verbatim prefix of the result and is still its first line. |
| CheckCopyrightProps.ShebangOnlyLineTerminated | check_copyright.py:68-70 | A `#!` file without `\n` becomes `text + newline + header + newline`, and its first line is then `text + newline`. |
| CheckCopyrightProps.ShebangStaysInFront | check_copyright.py:66-72 | The result of inserting into a `#!` file starts with `#`. |
| CheckCopyrightProps.BomKeptExactlyOnce | check_copyright.py:113-121 | Input with leading marks gives output starting with exactly one mark. The mark is followed by the insertion into the text with all its marks removed. Input without a mark gives output without one. |
| CheckCopyrightProps.RewriteOutput | check_copyright.py:104-121 | When text is written, it starts with one byte-order mark exactly when the input did. Past that mark, the stripped header, dated and named, and the detected newline sit at the insertion point of the mark-free text, and cutting them out gives that text back. A lone unterminated `#!` line gets the newline, the header and the newline. |
| CheckCopyrightProps.PlainInsert | check_copyright.py:73-74 | Text with neither a mark nor `#!` becomes `header + newline + text`. |
| CheckCopyrightProps.SecondPassLeavesFileAlone | check_copyright.py:104-105 | When text has neither a byte-order mark nor a `#!` line, a second run on the rewritten text writes nothing. |
| CheckCopyrightProps.SecondPassRewritesBomFile | check_copyright.py:104-121 | A rewritten file that began with a byte-order mark is rewritten again by the next run. |
| CheckCopyrightProps.SecondPassRewritesShebangFile | check_copyright.py:104-120 | A rewritten `#!` file is rewritten again by the next run. |
| CheckCopyrightProps.FirstRecordDecides | check_copyright.py:38-41 | The first record naming the file decides the answer. Later records, even about the same file, play no part. |
| CheckCopyrightProps.UnlistedIsNotAdded | check_copyright.py:42-44 | A failed query, or one with no record naming the file, gives "not added". |
| CheckCopyrightProps.IsAddedStatusIff | check_copyright.py:41 | The status test holds exactly when its first non-whitespace character upper-cases to something starting with `A` (`A`, `a` or U+1E9A). |
| CheckCopyrightProps.ExtensionGate | check_copyright.py:83-85 | For a path `dir + stem + ext` as in `ExtensionOfPath`, the gate passes exactly when the lower-cased `ext` is in the supported set. |
| CheckCopyrightProps.NoExtensionRejected | check_copyright.py:83-85 | A path whose base name has no extension, because every dot in it has only dots before it, is rejected by the gate. |
| CheckCopyrightProps.UpperCaseExtensionAccepted | check_copyright.py:9 | The gate ignores case: `src/main.CPP`, or any path ending in a name with a `.CPP` extension, passes it. |
| CheckCopyrightProps.HiddenFileSkipped | check_copyright.py:83-85 | A file named `.c`, in any directory, has no extension, so the gate rejects it. |
| CheckCopyrightProps.MonthNameFacts | check_copyright.py:79 | Each month name reads back as its month number and holds no space. |
| CheckCopyrightProps.DayYearRoundTrip | check_copyright.py:79 | `D, YYYY`, written unpadded, reads back as the day and the year. |
| CheckCopyrightProps.FormatDateRoundTrip | check_copyright.py:77-79 | The formatted date reads back as the date it was made from. |
| CheckCopyrightCorrected.RewriteCorrectedAgrees | check_copyright.py:104-121 | On text with neither a byte-order mark nor a `#!` line, the rewrite with the corrected detector gives the same result as the original rewrite. |
| CheckCopyrightCorrected.CorrectedAgreesOnPlainText | check_copyright.py:54-61 | On text with neither a byte-order mark nor a `#!` line, the corrected detector agrees with the original one. |
| CheckCopyrightCorrected.PreambleOfRewritten | check_copyright.py:113-121 | In every rewritten text, the part past the marks and the `#!` line starts with the header. |
| CheckCopyrightCorrected.CorrectedSecondPassLeavesFileAlone | check_copyright.py:104-105 | With the corrected detector, a second run writes nothing on any rewritten file. |

## Left out

- `main` (check_copyright.py:136-152), the argument parsing and the `changed` sum are command-line glue. `ProcessFile` returns the count each file adds.
- The git calls `rev-parse --show-toplevel`, `diff --cached --name-status` and `add` (check_copyright.py:26-37, 129) are external processes. Their outcome arrives as an `IndexQuery`: either a failure, or the relative path with the output lines. Re-staging after the write is not modelled.
- `out.splitlines()` (check_copyright.py:38) is not modelled: the lines arrive already split.
- File reading and writing (check_copyright.py:92-96, 123-125) are I/O. The read arrives as a `FileRead`, and the written text is returned.
- The UTF-8 decode with `errors="ignore"` and the re-encode (check_copyright.py:100, 125) are a library codec. The decoded text arrives beside the raw bytes, and nothing ties the two together.
- `datetime.now()` (check_copyright.py:108) is the clock, so the date is a parameter. `strftime('%B')` is modelled as the English month names of the C locale.
- `os.path.relpath`, `abspath` (check_copyright.py:31) and `normpath` (check_copyright.py:40) are platform library calls. The relative path is given, and `normpath` is an uninterpreted function parameter `norm`.
- PyPath.Basename: models POSIX `basename` only. Windows `\` separators and drive letters are not.
- PyStr.AsciiLower: lower-cases ASCII letters only. Python's `lower()` also maps other letters, but no non-ASCII character lower-cases to a string made only of the characters of the supported extensions, so the gate answers the same.
- CheckCopyright.ProcessFile: a failed write (check_copyright.py:124-125) is not modelled. That write is outside any `try`, so a failed `open(path, "wb")` raises out of `process_file` and `main` and ends the run, while a failed read only gives 0 (check_copyright.py:95-96). The model returns the text to write, and its "the count is 1 exactly when text is written" assumes the write succeeds.
- CheckCopyright.ProcessFile: a failed `git add` after the write (check_copyright.py:128-131) is swallowed. The model still returns 1, as the code does.
- CheckCopyright.ProcessFile: does not model the exception paths of the decode (check_copyright.py:99-102), which `errors="ignore"` makes unreachable.

## Findings

| source | as written | input that shows it | evidently intended | confidence | as-written member | corrected member |
|---|---|---|---|---|---|---|
| check_copyright.py:54-61, 104-105, 113-121 | The detector looks only at the start of the text. When the file starts with U+FEFF, the header is inserted behind the mark, where the detector never finds it. So the header is added again on every run while the file stays staged as added. | A staged `a.c` whose text is U+FEFF followed by `int x;\n`. The first run writes U+FEFF, the header, `\n`, `int x;\n`. The second run finds no header and adds a second one. | The key-line check exists to make the hook idempotent, so a file it has rewritten should be left alone. | high, not executed | CheckCopyrightProps.SecondPassRewritesBomFile | CheckCopyrightCorrected.CorrectedSecondPassLeavesFileAlone |
| check_copyright.py:54-61, 64-72, 104-105 | The header of a `#!` file goes after its first line, but the detector requires `/*` at the start of the text. So every run adds another header. | A staged `a.ino` whose text is `#!x\n`. The first run writes `#!x\n`, the header, `\n`. The second run finds no header and adds a second one. | Same as above. | high, not executed | CheckCopyrightProps.SecondPassRewritesShebangFile | CheckCopyrightCorrected.CorrectedSecondPassLeavesFileAlone |

`ProcessFile` models the code as written. The corrected detector,
`HasOurHeaderCorrected`, looks past the leading marks and past a `#!` line.
It agrees with the original on every text that has neither.
