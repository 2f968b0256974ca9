# TocValidator validation core, in Dafny

TocValidator checks a publisher's table-of-contents workbook against an EPUB.
Row 1 of the worksheet is a header. Each later row holds a chapter title in
column C (0-based tuple position 2) and a hierarchy level in column D
(position 3). The tool runs two checks:

- **Hierarchy check.** The first row must not be above level 0. No later row
  may be two or more levels deeper than the level it is compared with.
- **Chapter check.** Every title, after normalization, must occur literally
  in the normalized text of the e-book.

Cells in error are highlighted in yellow, and the categories of error found
are reported.

This project models the logic of `validator/main.py`:

| module | file | models |
|---|---|---|
| `Cells` | `cells.dfy` | raw cell values (`Empty`, `Int`, `Bool`, `Text`, `Other`) and the `int(...)` coercion with its fallback to 0 |
| `Hierarchy` | `hierarchy.dfy` | `check_toc_hierarchy`, as a loop proved equal to a recursive definition |
| `Normalizer` | `normalizer.dfy` | `makeComparable`, a per-character translation; the table is a parameter |
| `Matcher` | `normalizer.dfy` | `in_epub`, the "title missing" flag |
| `Report` | `report.dfy` | the pure part of `on_toc_check_button_click`: column reading, flags, `has_errors`, highlighted cells, error labels |
| `TextCleanup` | `cleanup.dfy` | the string post-processing at the end of `html_to_text` |

The worksheet is a class with two fields. `rows` holds the cell values. The
set `highlighted` holds the cells whose fill has been set. The highlighting
loop updates that set in place. The column reading, the hierarchy check and
the highlighting are methods with loops, as in the source. The labelling is
a method that appends at most two labels. Normalization, matching and text
clean-up are functions.

The text clean-up is stated in three ways. It changes only whitespace. Its
output has no blank line, and every line is stripped. And it puts its
newlines where the extracted text has a line boundary or a pair of spaces.
For the third, the text is cut at such a place and each half is cleaned on
its own. `Glue` then joins the two halves with one newline, or takes the
other half alone when one half cleans to nothing.

### Two details of the hierarchy check

The model follows the code in both places.

- **Reference level for row 1.** The variable `prev_level` (lines 86 and
  104) suggests that every row after the first is compared with the row
  before it. The comment at line 94 says the first element should be 0. But
  `prev_level` starts at 0 and is never set from the first row (lines 86,
  90-94). So row 1 is compared with 0, and only from row 2 on is a row
  compared with its predecessor. `Hierarchy.FirstRowIsNotTheReference` shows
  a difference: `[1, 2]` gives `[true, true]` and `[-1, 1]` gives
  `[false, false]`. `Hierarchy.RootedStartComparesWithPredecessor` proves
  that the two readings agree whenever the first level is 0, as line 94 asks.
- **Empty input.** `hierarchy_column[0]` raises `IndexError` on an empty
  column (line 90). So `CheckTocHierarchy` and `OnTocCheck` require at
  least one data row.

## Model

| member | source | states |
|---|---|---|
| `Cells.ParseInt` | validator/main.py:90 | `int()` on a string succeeds exactly on an optional sign followed by one or more digits; a result is non-negative unless the text starts with `-`, and non-positive when it does |
| `Cells.ParseIntShow` | validator/main.py:90 | `int()` of the decimal text of any integer gives that integer back |
| `Cells.ParseIntValue` | validator/main.py:90 | for a digit string `t`, a leading `0` and a leading `+` leave the value of `t` unchanged, and a leading `-` negates it |
| `Cells.Level` | validator/main.py:89-92 | `None` and other non-numeric values give 0, a whole number gives itself, a boolean 1 or 0, a string that is not a numeral under the modelled grammar 0 |
| `Cells.LevelCoercion` | validator/main.py:98-101 | `None` and values of other types become 0; a number becomes itself, and so does its decimal text; a string with a non-digit after its first character, or with no digit at all, becomes 0 |
| `Hierarchy.FlagsAfter` | validator/main.py:97-104 | one flag per later row; row k is flagged iff its level is at least 2 above the reference passed in (k = 0) or above the level of row k − 1 |
| `Hierarchy.HierarchyFlags` | validator/main.py:84-106 | exactly one flag per element of a non-empty level list |
| `Hierarchy.HierarchyFlagsAt` | validator/main.py:84-106 | the recursive definition agrees at every row with the row-by-row rule (row 0 against 0, row 1 against 0, row i≥2 against row i−1) |
| `Hierarchy.CheckTocHierarchy` | validator/main.py:84-106 | the loop returns one flag per cell, equal to the recursive definition and to the row-by-row rule on the coerced levels |
| `Hierarchy.HierarchyFlagsSpec` | validator/main.py:86-104 | first flag iff level > 0; row 1 flagged iff level ≥ 2; row i ≥ 2 flagged iff level − previous level ≥ 2 |
| `Hierarchy.SmallStepsAreNeverFlagged` | validator/main.py:103-104 | after the first row, a shallower row, a row at the same depth or one level deeper is never flagged |
| `Hierarchy.RootedStartComparesWithPredecessor` | validator/main.py:86-104 | when the first level is 0, every later row is compared with the row just before it |
| `Hierarchy.WellNestedHasNoErrors` | validator/main.py:94-104 | a list that starts at 0 and never goes more than one level deeper per step gets no flag |
| `Hierarchy.FirstRowIsNotTheReference` | validator/main.py:86-104 | the first row's level is not the reference for row 1: `[1,2]` ↦ `[true,true]`, `[-1,1]` ↦ `[false,false]` |
| `Hierarchy.HierarchyExamples` | validator/main.py:84-106 | `[0,1,2]` ↦ `[F,F,F]`, `[0,2]` ↦ `[F,T]`, `[0,1,0,1]` ↦ `[F,F,F,F]`, `[0,"bad",1]` ↦ `[F,F,F]`, `[None]` ↦ `[F]` |
| `Normalizer.Translate` | validator/main.py:148 | `""` translates to `""`; a single character becomes its table string (itself when it is not a key); a table that maps every key to one character keeps the length; with `TranslateAppend` this fixes every translation |
| `Normalizer.MakeComparable` | validator/main.py:146-150 | a value that is not a string normalizes to `""` |
| `Normalizer.TranslateAppend` | validator/main.py:148 | translation distributes over concatenation: normalize(a+b) = normalize(a)+normalize(b) |
| `Normalizer.TranslateUntouched` | validator/main.py:148 | a string with no character in the table is returned unchanged |
| `Normalizer.TranslateDeleted` | validator/main.py:148 | a string whose characters the table all deletes normalizes to `""` |
| `Matcher.InEpub` | validator/main.py:127-128 | the flag is set iff the normalized title occurs at no position of the text; a title that normalizes to `""` is never flagged |
| `Matcher.BlankTitleNeverMissing` | validator/main.py:127-128 | a title that normalizes to `""` (empty cell, non-string, blank string) is never flagged as missing |
| `Matcher.RawOccurrenceIsFound` | validator/main.py:127-128 | a title that occurs in the raw e-book text is never flagged against the normalized text, whatever the table |
| `Report.ReadColumns` | validator/main.py:46-50 | one value per data row; value i is the cell at 1-based row i+2, column `COLUMN+1` |
| `Report.ChapterFlags` | validator/main.py:54 | one chapter flag per title |
| `Report.HasErrors` | validator/main.py:56 | true iff some hierarchy flag or some chapter flag is set |
| `Report.ErrorCells` | validator/main.py:60-64 | a cell is highlighted iff it is at row i+2 of a flagged row i, in column `HIERARCHY_COLUMN+1` for a hierarchy error or `CHAPTER_COLUMN+1` for a chapter error |
| `Report.NothingMarkedIffNoErrors` | validator/main.py:56-64 | no cell is marked exactly when `has_errors` is false |
| `Report.ErrorLabels` | validator/main.py:67-72 | the hierarchy label is present iff some hierarchy flag is set; the chapter label iff some chapter flag is set; at most these two, hierarchy first; empty iff no error |
| `Report.ErrorMessage` | validator/main.py:67-72 | the appended list equals `ErrorLabels`, with the same membership, order and emptiness properties |
| `Report.Worksheet.constructor` | validator/main.py:38-39 | a loaded sheet has the given cell values and no highlighted cell |
| `Report.Worksheet.HighlightErrors` | validator/main.py:60-64 | the highlighted set grows by exactly the cells of `ErrorCells` over the zipped rows |
| `Report.ReportErrors` | validator/main.py:56-72 | `has_errors` iff any flag; the highlighted set grows by exactly the flagged cells (nothing when there is no error); labels per `ErrorLabels` |
| `Report.OnTocCheck` | validator/main.py:41-72 | per-row hierarchy flags on the read column; chapter flags against the once-normalized e-book text; `has_errors` iff any flag; cells highlighted only when `has_errors`, exactly the flagged ones; labels per `ErrorLabels` |
| `TextCleanup.Strip` | validator/main.py:171 | the result is empty or starts and ends with a non-space; stripping keeps "no line boundary" and "no double space" |
| `TextCleanup.StripIdempotent` | validator/main.py:171-173 | stripping a stripped string changes nothing |
| `TextCleanup.SplitLines` | validator/main.py:171 | an empty text has no line; no line contains a line boundary; the lines put back together are the text with its boundary characters removed |
| `TextCleanup.SplitLinesCons` | validator/main.py:171 | a line followed by a one-character boundary (not the `\r` of a `\r\n` pair) is cut off there, and the rest is split on its own |
| `TextCleanup.SplitLinesCrLf` | validator/main.py:171 | a line followed by `"\r\n"` is cut off there, the pair counting as one boundary |
| `TextCleanup.SplitLinesJoin` | validator/main.py:171 | boundary-free lines, the last one non-empty, joined with `"\n"` split back into exactly those lines |
| `TextCleanup.SplitLinesOfOneLine` | validator/main.py:171 | a non-empty text without a line boundary is a single line |
| `TextCleanup.SplitDoubleSpace` | validator/main.py:173 | at least one piece; joining the pieces with `"  "` gives the line back; every cut is at the leftmost pair of spaces available (no piece but the last ends in a space); no piece contains two adjacent spaces; pieces of a line without boundaries have none |
| `TextCleanup.SplitDoubleSpaceOfOnePiece` | validator/main.py:173 | a line without two adjacent spaces is a single piece |
| `TextCleanup.SplitDoubleSpaceCons` | validator/main.py:173 | a piece free of double spaces and not ending in a space, followed by `"  "`, is cut off as the first piece, and the rest is split on its own |
| `TextCleanup.StripAll` | validator/main.py:173 | one phrase per piece, in order: phrase `i` is piece `i` stripped |
| `TextCleanup.LinePhrases` | validator/main.py:171-173 | a line gives at least one phrase (perhaps empty), and its phrases hold the same non-whitespace characters in the same order as the line |
| `TextCleanup.Phrases` | validator/main.py:171-173 | a single line gives exactly that line's phrases |
| `TextCleanup.PhrasesCons` | validator/main.py:173 | the phrases of a run of lines are those of its first line followed by those of the others |
| `TextCleanup.PhrasesAppend` | validator/main.py:173 | the phrases of two runs of lines are the phrases of the first run followed by those of the second: the generator keeps the line order |
| `TextCleanup.NonSpacePhrases` | validator/main.py:171-173 | the phrases of all lines, put together, hold the same non-whitespace characters in the same order as the lines |
| `TextCleanup.DropEmpty` | validator/main.py:175 | only non-empty chunks of the input survive, and together they spell the same text as the input |
| `TextCleanup.Join` | validator/main.py:175 | with a whitespace separator, the joined text has the same non-whitespace characters in the same order as the chunks |
| `TextCleanup.PhrasesAreClean` | validator/main.py:171-175 | every chunk that survives is non-empty, stripped, free of double spaces and line boundaries |
| `TextCleanup.JoinHasNoBlankLine` | validator/main.py:175 | joining clean lines gives no `"\n\n"` and no leading or trailing newline |
| `TextCleanup.SplitJoin` | validator/main.py:175 | splitting the joined text at newlines gives the chunks back |
| `TextCleanup.JoinGlue` | validator/main.py:175 | joining two runs of non-empty chunks with `"\n"` equals joining each run and putting a newline between them, unless one run is empty |
| `TextCleanup.HtmlToText` | validator/main.py:168-175 | the clean-up changes whitespace only: the non-whitespace characters of the extracted text are kept, in order, and nothing else is added |
| `TextCleanup.HtmlToTextShape` | validator/main.py:171-175 | the cleaned text has no blank line, and each of its lines is non-empty, stripped and free of double spaces |
| `TextCleanup.HtmlToTextOfLine` | validator/main.py:171-175 | a text without line boundaries comes out as its non-empty phrases joined with newlines |
| `TextCleanup.HtmlToTextAtBreak` | validator/main.py:171-175 | at a one-character line boundary (not the `\r` of a `\r\n` pair), the text before it and the text after it are cleaned apart and end up on separate lines; a side that cleans to nothing adds no line |
| `TextCleanup.HtmlToTextAtCrLf` | validator/main.py:171-175 | the same at a `\r\n` pair, which counts as one boundary |
| `TextCleanup.HtmlToTextAtDoubleSpace` | validator/main.py:171-175 | a clean phrase followed by `"  "` and a stripped, boundary-free rest: the phrase and the cleaned rest end up on separate lines |
| `TextCleanup.LinePhrasesAtDoubleSpace` | validator/main.py:171-173 | a clean phrase, `"  "` and a non-empty stripped rest give the phrase followed by the rest's phrases |
| `TextCleanup.HtmlToTextOfOnePhrase` | validator/main.py:171-175 | a text with no line boundary, no double space and something visible comes out as the stripped text |
| `TextCleanup.NonSpaceSplitLines` | validator/main.py:171 | splitting into lines loses only whitespace |

## Left out

- The wx GUI: the frame constructor, `BindUI`, `onSelectToC`, `onSelectEpub`, status-bar texts (including the joined error message), `TocToolsApp` and `main`. This is UI wiring.
- The `ThreadPoolExecutor`. It is created and never used.
- Workbook loading and saving, the `PatternFill` style, and the `PermissionError` branch. This is file I/O in a foreign library. The model records only which cells get the yellow fill.
- `load_epub` (via ebooklib), BeautifulSoup parsing and the removal of `script`/`style` elements. These are foreign-library calls. `TextCleanup.HtmlToText` starts from the string `soup.get_text()` returns.
- `open_file`. It launches an OS process.
- `find_chapter_file` and `find_epub_file`. They glob the filesystem in an unspecified order.
- The contents of `replace_dict.REPLACE_DICT_TRANS`. It is a parameter `map<char, string>`. Idempotence of normalization is not claimed, because it depends on the table.
- Cells.ParseInt: accepts only an optional `+`/`-` followed by ASCII digits. Python's `int()` also allows surrounding whitespace, underscores between digits and non-ASCII decimal digits.
- Cells.Level: float cells are not modelled. Python's `int(2.9)` truncates a floating-point value; numbers are taken as integers at the cell boundary.
- Report.OnTocCheck: requires at least one data row, because `check_toc_hierarchy` raises `IndexError` on an empty column. It also requires every data row to reach the hierarchy column, because a shorter row tuple raises `IndexError`. Neither exception is caught, so the handler does nothing further in those cases.
- TextCleanup.HtmlToTextAtDoubleSpace: proved only for a clean phrase before the pair of spaces and a stripped, boundary-free text after it. Elsewhere, a pair of spaces that touches further spaces is covered only by the whitespace-only contract of `TextCleanup.HtmlToText` and by `TextCleanup.SplitDoubleSpace`'s leftmost cuts.
- TextCleanup.IsSpace and TextCleanup.IsLineBreak: these list the whitespace and line-boundary characters of Python's `str.isspace` and `str.splitlines` as fixed sets, rather than deriving them from the Unicode database.
