# MAWB and total extraction from PDF invoices, modelled in Dafny

The program reads the text of each PDF file in a directory, page by page and line by line.
In each file it looks for a master air waybill number (MAWB, `DDD-DDDDDDDD`) and for the
amount on the first line that holds the word `total`. It writes one CSV row per file.

This project models the three Python modules of the program as Dafny code and proves what
they compute:

- `read.py` turns a PDF into pages of lines, optionally split into tokens at separator
  characters.
- `format.py` normalises each line, applies the "4-step" MAWB rule and the total-line
  pattern, and scans the document in page-then-line order.
- `main.py` lists the `*.pdf` and `*.PDF` files of a directory, sorts them, drops repeats,
  and builds one row per file. It also picks the directory and output path from the
  arguments.

Modules, one per concern:

- `Wrappers`: `Option` for Python's `None`, `Result` for a raised exception, and `x or ''`.
- `Text`: the Python string primitives the code relies on:
  - `str.isspace`, `strip`, `replace` and `splitlines`;
  - code-point string order, which `sorted` uses.
- `Normalize`: `_normalize_text`.
- `Mawb`: `_extract_mawb_from_text`, with an explicit model of `re.finditer` for
  `([0-9]+)-([0-9]+)`.
- `Total`: the total-line pattern `\btotal\b\s*[:\-]?\s*(.+)$` and the amount pattern.
  Both are written as explicit matchers that follow the backtracking order of Python's
  regex engine.
- `Read`: `split_line_by_separators`, `read_pdf_to_array` and `read`.
- `Format`: `find` and `format`.
- `Report`: `process_directory` and `main`.

Every loop of the modelled functions is a Dafny method proved equal to a specification
function. The
lemmas state what that function means: first match, first line, shape of the result,
round trips and ordering.

The behaviour intended for the tool, as described outside its source files, goes further
than the code in several places; the comment "joined per page" at format.py:92 is the one
trace of it in the source. Where the two disagree, the model follows the code. The
intended behaviour includes, and the code does not implement:

- collecting every MAWB of a document, with duplicates removed;
- a fallback to runs of 11 or more digits;
- rescanning each page with its lines joined, both with spaces and without;
- accepting a hyphen with spaces around it;
- dividing the total evenly across several MAWBs, formatted to 2 decimals;
- accepting a single file as input.

The code returns the first MAWB only. It requires the hyphen to sit directly between
digits (`JoinedHyphenMatches`). It writes exactly one row per file, and it only accepts a
directory.

## Model

| member | source | states |
|---|---|---|
| Wrappers.OrEmpty | main.py:49 | `x or ''`: a missing value is written as the empty string, a present one as itself |
| Text.StripSpec | format.py:39 | `strip()` (`Strip`) returns the slice between a whitespace prefix and a whitespace suffix, and that slice neither starts nor ends with whitespace |
| Text.NonSpaceStrip | format.py:39 | `strip()` removes only whitespace |
| Text.ReplaceRemoves | format.py:31-36 | after `replace(c, repl)` with `c` not in `repl`, no `c` remains, and every character left comes from `repl` or from the text |
| Text.SplitLinesNoBreaks | read.py:72 | no line returned by `splitlines()` contains a line boundary |
| Text.SplitLinesRoundTrip | read.py:72 | `splitlines()` (`SplitLines`) gives back lines that were written out each ended by `\n` |
| Text.SplitLinesUnify | read.py:72 | the lines of any text, each ended by `\n`, are that text with every line boundary (`\r\n` counted once) written as `\n` and a last unended line ended (`UnifyBreaks`): the lines are exactly the text between its boundaries |
| Text.StrLeTotal | main.py:23-24 | the order `sorted` uses on paths is total |
| Text.StrLeTrans | main.py:23-24 | that order is transitive |
| Text.StrLeAntisym | main.py:23-24 | that order is antisymmetric |
| Normalize.NormalizeText | format.py:19-39 | the replacement chain, the dash loop, the whitespace collapse and the strip compute `Normalized(s)` |
| Normalize.InvisibleReplaced | format.py:31 | the three replacements before the loop rewrite the no-break space, the zero-width space and the BOM, and nothing else |
| Normalize.DashReplaced | format.py:33-34 | each pass of the dash loop rewrites one more dash variant to `-` |
| Normalize.DashesGone | format.py:36 | the em-dash and en-dash replacements after the loop change nothing |
| Normalize.CollapseWhitespace | format.py:38 | `re.sub(r'\s+', ' ', s)` is empty only for an empty text, keeps whether the text starts with whitespace, leaves only single ASCII spaces, and adds no other character |
| Normalize.CollapseKeepsText | format.py:38 | collapsing keeps every non-whitespace character, in order |
| Normalize.CollapseConcat | format.py:38 | collapsing works run by run: two texts that do not meet inside a whitespace run collapse to the two collapses joined |
| Normalize.CollapseSplit | format.py:38 | a whitespace run between two other characters becomes exactly one space, never none and never more |
| Normalize.NormalizedSplit | format.py:19-39 | two trimmed texts without special characters, separated by whitespace, normalise to their normal forms joined by one space; so `180 - 50446970` keeps the spaces around its hyphen |
| Normalize.CollapseIdentity | format.py:38 | a text that is already single-spaced is left unchanged |
| Normalize.NormalizedIsNormal | format.py:19-39 | a normalised line has no whitespace at either end, only single ASCII spaces inside, and none of the invisible or dash characters |
| Normalize.NormalizedKeepsText | format.py:30-39 | apart from whitespace, a normalised line is the line with its special characters rewritten |
| Normalize.NormalizedIdempotent | format.py:19-39 | normalising twice is the same as normalising once |
| Normalize.NormalizedSingleLine | format.py:38 | a normalised line holds no `\n` |
| Mawb.FindIter | format.py:57 | the matches of `([0-9]+)-([0-9]+)` are real occurrences, in order, without overlap |
| Mawb.FindIterStartsRuns | format.py:57 | every match starts at the beginning of a digit run |
| Mawb.FindIterCovers | format.py:57 | every hyphen that has a digit on each side is the hyphen of some match, or is the end of one |
| Mawb.JoinedHyphenMatches | format.py:56-57 | the scan finds a match exactly when some `-` has a digit on each side; with no such hyphen there is no MAWB, so `180 - 50446970` gives none |
| Mawb.KeepDigitsOfDigits | format.py:58-59 | `re.sub(r'\D', '', run)` leaves a digit run unchanged |
| Mawb.MatchStep | format.py:58-63 | one pass of the loop: the length test on the groups is the qualifying test, a qualifying match yields `left[-3:]-right[:8]`, and any other match is skipped |
| Mawb.ExtractMawb | format.py:42-64 | the early exits and the loop over the matches compute `MawbIn(text)` |
| Mawb.FirstQualifyingIsFirst | format.py:57-64 | the result comes from the first match, in scan order, whose right run has at least 8 digits and whose left run has at least 3; it is None exactly when no match qualifies |
| Mawb.MawbInSpec | format.py:51-64 | the same, for the whole text, including the empty text and a text without `-` |
| Mawb.NoHyphenNoMatch | format.py:53-54 | a text without `-` has no match |
| Mawb.MawbInShape | format.py:63 | every MAWB found has the shape `DDD-DDDDDDDD` |
| Mawb.ExampleLongLeftRun | format.py:56-63 | `60701180-50446970` gives `180-50446970` |
| Mawb.ExampleNoOverlap | format.py:57 | in `12-345-67890123`, the match `12-345` uses up the `345`, so no MAWB is found |
| Total.TotalAtSpec | format.py:112 | in a line without `\n`, the pattern matches at `i` exactly when a whole-word `total`, in any case, stands there with at least one character after it; the group then starts after the longest `\s*[:\-]?\s*` gap that still leaves one character |
| Total.TotalSearchSpec | format.py:112-127 | `total_line_pattern.search` (`TotalSearch`, and `TotalRest` for its group) finds the first such word, and finds nothing exactly when the line has none |
| Total.GroupAfterWord | format.py:112 | after a word followed by at least one character, the captured group starts after the longest gap that leaves something to capture |
| Total.GreedyGapLongest | format.py:112 | no gap of the form `\s*[:\-]?\s*` reaches past the greedy one |
| Total.AmountSearchFirstDigit | format.py:113-116 | the `number` group starts at the first digit of the captured text; the amount pattern matches exactly when that text has a digit |
| Total.NumberEndLongest | format.py:114 | from a digit, the greedy `number` group `[0-9][0-9,]*(?:\.[0-9]{1,2})?` (`NumberEnd`) ends a match of the group (`IsNumber`), and every match from there ends at or before it |
| Total.AmountValue | format.py:128-132 | the amount (`Amount`) is the longest `number` match at the first digit of the captured text, with its commas removed; any start and end with those properties give it |
| Total.AmountIsLongestNumber | format.py:128-132 | with a digit in the captured text, such a start and end exist, and the amount is that span without its commas |
| Total.AmountShape | format.py:128-132 | the amount with its commas removed is a plain decimal: digits, then optionally `.` and one or two digits |
| Total.ExampleSubtotal | format.py:112 | `Subtotal 5` is not a total line, because no word boundary comes before its `total` |
| Total.ExampleTrailingWord | format.py:112 | `Grand total` is not a total line, because nothing follows the word |
| Total.ExampleAmount | format.py:128-132 | `$1,234.50 USD` gives the amount `1234.50`: the currency sign is skipped and the thousands comma removed |
| Read.Pieces | read.py:43-46 | `re.split` on the separator class gives at least one piece, and no piece holds a separator |
| Read.PiecesRoundTrip | read.py:46 | `re.split` cuts at every separator character and nowhere else: there is one more piece than the line has separators, and the pieces with the separators put back between them, in order, are the line |
| Read.PiecesConcat | read.py:46 | the pieces, written one after another, are the line without its separators |
| Read.SplitLineTokens | read.py:34-48 | `split_line_by_separators` (`SplitLineBySeparators`): each token is non-empty, has no whitespace at either end and holds no separator; there is at most one more token than the line has separators; apart from whitespace, the tokens are the line without its separators, in order |
| Read.NoSeparatorsOneToken | read.py:40-48 | a line holding none of the separator characters, for any separators including none, gives its stripped text as the one token, or no token when it is blank |
| Read.ExamplePieces | read.py:46 | `re.split` of `a, b;;c` at `,;\|\t` gives `a`, ` b`, an empty piece and `c` |
| Read.ExampleSplit | read.py:34-48 | `a, b;;c` gives the tokens `a`, `b`, `c`: pieces are stripped and the empty one is dropped |
| Read.ShapeOnePage | read.py:68-76 | one pass of the page loop: a blank page gives `[]`, any other its `splitlines()`, each line split into tokens with `split_tokens` |
| Read.ReadPdfToArray | read.py:51-79 | the missing-path check and the loop over the page texts compute `ReadPdfOf` |
| Read.ReadPdfSpec | read.py:60-77 | the result is a list exactly when the path exists and the PDF library reads it; it has one entry per page, holding token lists exactly with `split_tokens`, empty exactly for a blank page; no line holds a line boundary, and every token is non-empty, trimmed and free of the given separators, or of `,;\|\t` when none are given |
| Read.ReadFile | read.py:82-88 | `read` is `read_pdf_to_array` without tokens |
| Read.ReadSpec | read.py:68-88 | `read` gives one list of lines per page; a page has no lines exactly when it is blank; no line holds a line boundary; and for a page that is not blank, the lines each ended by `\n` are the page text with every line boundary written as `\n` |
| Format.MawbOfLine | format.py:85-88 | one line of the MAWB scans (`LineMawb`): normalise, skip an empty line, extract |
| Format.TotalOfLine | format.py:122-134 | one line of the total scan (`LineTotal`): normalise, skip an empty line, search the line pattern, then the amount pattern in the group (or strip the group when it has no number) |
| Format.ScanPageForMawb | format.py:82-91 | the line loop over a page stops at the first line that yields a MAWB and returns it with its 1-based line number and the original line |
| Format.ScanPageForTotal | format.py:119-136 | the line loop of the total scan stops at the first total line |
| Format.FindCode | format.py:78-108 | page 1 first, then every page from the first, computes `DocumentCode` |
| Format.FindTotal | format.py:111-138 | the page and line loops of the total scan compute `DocumentTotal` |
| Format.Find | format.py:67-140 | `find` on the pages `read` returned: no pages gives `(None, None)`, otherwise the MAWB result and the total result |
| Format.FirstInPageSpec | format.py:82-91 | the scan of a page finds the first line that yields a value, and finds nothing exactly when no line of the page yields one |
| Format.FirstFromSpec | format.py:93-108 | the document scan finds the first line, in page-then-line order, that yields a value, and finds nothing exactly when no line yields one |
| Format.FirstPageFirst | format.py:80-108 | a MAWB found by the page-1 pass is the one the whole-document pass would find, so the page-1 pass never changes the result |
| Format.DocumentCodeSpec | format.py:74-108 | the MAWB result comes from the first line, in page-then-line order, whose normalised text yields a MAWB; it carries that MAWB (shape `DDD-DDDDDDDD`), the line's 1-based number within its page, and the original line; it is None exactly when no line yields one |
| Format.DocumentTotalSpec | format.py:118-138 | the total result comes from the first total line, in page-then-line order, with its amount and its 1-based page and line numbers; it is None exactly when no line has one |
| Format.LineTotalSpec | format.py:122-127 | a line has a total exactly when its normalised text holds `total` as a whole word, in any case, with at least one character after it |
| Format.LineTotalAmount | format.py:128-134 | with a digit after the word, the amount is the longest match of the `number` group at the first digit of the captured text, without its commas, and is a plain decimal; with none, it is the captured text stripped |
| Format.LineTotalNonEmpty | format.py:124-135 | the amount of a total line is never the empty string: a captured text without a number is a non-empty tail of a normalised line, which does not end in whitespace |
| Format.Project | format.py:151-153 | the `mawb` and `total` fields are present exactly when `find` found them, and they carry the MAWB and the amount |
| Format.FormatFile | format.py:143-153 | `format` reads the file, runs `find` and projects the results; an error raised by `read` propagates |
| Format.FormatOfSpec | format.py:143-153 | `format` succeeds exactly when `read` does; the MAWB (total) is reported exactly when some line yields one; an empty document gives neither |
| Report.SortPathsSpec | main.py:23-24 | `sorted` (`SortPaths`) returns the same paths, each as often as before, in order |
| Report.DedupPaths | main.py:26-32 | the loop with its `seen` set computes `Dedup(files)` |
| Report.DedupSpec | main.py:26-32 | after removing repeats, no path occurs twice, every listed path is kept, and paths keep the order of their first occurrence |
| Report.ProcessingOrder | main.py:22-32 | in processing order, every `*.pdf` match comes before any other file and the `*.pdf` matches are sorted; every file after them is a `*.PDF` match that is no `*.pdf` match, and those are sorted too |
| Report.ProcessFile | main.py:39-49 | the body of the file loop (`RowOf`): a file that `format` handles gives its path, its MAWB and its total, each `''` when missing; a file whose `format` raises gives its path and two `''` |
| Report.ProcessDirectory | main.py:20-49 | one row per file after the dedup, in order; a file whose processing fails gets an empty row, and the loop goes on |
| Report.RowOfSpec | main.py:39-49 | the MAWB cell is `''` exactly when the file cannot be read or none of its lines yields a MAWB, and otherwise has the shape `DDD-DDDDDDDD`; the total cell is `''` exactly when the file cannot be read or none of its lines has a total |
| Report.ReportRowsSpec | main.py:20-49 | one row per file in processing order, each holding the file's path, with the MAWB and total cells as in `RowOfSpec` |
| Report.ReportFiles | main.py:22-49 | the report names every `*.pdf` and every `*.PDF` file of the directory, and no file twice |
| Report.Run | main.py:34-69 | the arguments default to the command line; the directory defaults to `.`; the output defaults to `summary.csv` in it; status 2 with nothing written when the path is missing or is not a directory, otherwise status 0 with the header `filename,mawb,total` and the report's rows |

## Left out

- Text extraction by PyPDF2 (`extract_text_from_pdf`) is an input. It is either the list of
  page texts, with `None` already turned into `""`, or a failure.
- `RuntimeError` when PyPDF2 is missing, and any exception raised while reading, are one
  error value (`ExtractError`).
- The file system is an input: whether a path exists or is a directory, and what the two
  globs list. Path joining, `Path` normalisation and the `summary.csv` file name are kept
  symbolic (`DefaultIn(directory)`).
- Paths are compared as strings in code-point order. `sorted` orders `PosixPath` objects
  part by part. For the paths one glob returns, which all share the same parent directory
  and differ only in a last part without `/`, that is the same order as comparing the whole
  paths as strings.
- Writing the CSV file (quoting, encoding, newline handling) is left out. The model gives
  the header (`Written.header`) and the rows.
- Messages printed to stderr and stdout are left out.
- Run: an output file that cannot be opened (main.py:35) raises out of `main`; the model
  always writes the report once the directory exists.
- The `importlib` fallback imports are left out.
- `isinstance` checks on bytes, non-string lines and non-dict results are left out, because
  every value in the model already has the checked type.
- `\w` and `\b` in the total pattern cover ASCII letters, digits and `_` only. Python's
  Unicode `\w` also counts other letters and digits as word characters.
- `re.I` is modelled as ASCII case folding of `total`. No other character folds to one of
  its letters, so this matches Python's behaviour.
- The amount pattern's trailing `\s*` and optional 3-letter currency code are not modelled.
  They come after the `number` group and cannot change it.
- `split_tokens=True` is not reachable from `read`. It is modelled in `ReadPdfToArray` and
  `ReadPdfSpec`, with the separators as an option whose absence means the default `,;|\t`.
