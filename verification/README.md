# Excel table cleaning engines, modelled in Dafny

This project models the decision logic of the Excel-to-CSV cleaning
experiments. A sheet is read as a rectangular grid of cells, and two boundary
row indices say where the table starts and ends. From these the engines
produce a clean table: flat, lower-case column names and the data rows that
remain after summary and blank rows are dropped.

There are two versions of the engine:

- **The adaptive engine** (`src/process_with_pandas_v2.py`). It also extracts a
  list of commentaries: the cells outside the table, plus the cells inside it
  that carry a footnote marker. It then decides between a one-row header and
  a multi-row header. For a multi-row header it finds the depth and
  forward-fills each header row. It flattens every column's levels into one
  name, de-duplicates the names, and filters the rows.
- **The fixed-header engine** (`src/process_with_pandas.py`). It always uses
  two header rows. It rewrites `%_of` to `pct_of` and collapses
  `department_department`. It also forces the first column to be named
  `department`.

The project also models how the sheet splitter (`src/sheets_to_excel.py`)
names the workbook each sheet is written to.

Modules and files:

| file | module | what it holds |
|---|---|---|
| `strings.dfy` | `Strings` | ASCII models of the Python string operations used (lower, strip, split, replace, join, decimal rendering) |
| `grid.dfy` | `Grid` | cells, Python slicing of the boundary rows, the faults, the result table |
| `commentary.dfy` | `CommentaryExtractor` | commentary extraction: nested loops proved against a row-major specification |
| `forward_fill.dfy` | `ForwardFill` | forward fill of a header row in place on an array, and its specification |
| `header_v2.dfy` | `HeaderV2` | header-name cleaning, header detection and depth, and complex and simple header names |
| `dedup.dfy` | `NameDedup` | de-duplication with a dictionary of counts |
| `row_filter.dfy` | `RowFilter` | summary-row and blank-row filters |
| `pandas_v2.dfy` | `PandasV2` | the adaptive engine end to end |
| `pandas_v1.dfy` | `PandasV1` | the fixed-header engine end to end |
| `sheet_names.dfy` | `SheetNames` | safe sheet names and output file names |

A cell is `Blank` (a missing value) or `Text(s)`. Wherever the engines render
a cell as text, a blank renders as `"nan"`. Each engine's behaviour is given
by a specification function: `PandasV2.Extract` or `PandasV1.ExtractV1`. The
function returns either the clean table or the fault the Python code would
raise:

- `NoColumns`: the grid has no columns, so the first access to the first
  column raises IndexError.
- `NoHeaderRow` (adaptive engine): the slice is empty.
- `ShortHeader` (fixed-header engine): the slice has fewer than two rows.
- `AmbiguousFirstColumn`: another column has the same label as the first
  column. Selecting that label then gives a frame instead of a column, and the
  `.str` access fails.

The imperative code becomes methods with loops: the header scan, the in-place
fill, the column loops, the counting loop and the commentary loops. Each
method is proved equal to its specification function. The properties are then
proved about those functions.

The boundary indices are not validated. Negative and out-of-range indices
follow Python's slice rules (`Grid.SliceBound`).

Two behaviours of the code are worth knowing:

- **Forward fill reaches trailing blank header cells.** In a header whose
  rows read `DEPARTMENT | NCA RELEASES | · | ·` and `· | Q1 | Q2 | ·`, the
  fill copies `NCA RELEASES` and `Q2` into the last column. That column is
  first named `nca_releases_q2`, and de-duplication makes it
  `nca_releases_q2_1`. It is not given a placeholder name.
- **The exclusion markers and the first-column label are fixed.** The
  markers are `total` and `departments`, matched in any case. The label is
  `department`. The adaptive engine does not rename the first column at all.

## Model

| member | source | states |
|---|---|---|
| `Grid.SliceBound` | src/process_with_pandas_v2.py:58 | a slice bound is clamped to `0..n`: a bound above `n` gives `n` and a bound below `-n` gives 0; a bound inside `0..n` is kept; a negative bound with `-n <= i` counts from the end |
| `Grid.Slice` | src/process_with_pandas_v2.py:58 | the slice has `b - a` rows when the normalised bounds satisfy `a <= b`, and none otherwise; its rows are the grid rows from `a` on, in order; when `0 <= header_start <= data_end < rows` it has exactly `data_end - header_start + 1` rows; a rectangular grid gives a rectangular slice |
| `CommentaryExtractor.ExtractCommentaries` | src/process_with_pandas_v2.py:16-29 | the nested loops append exactly the entries of the row-major specification `Commentaries` |
| `CommentaryExtractor.CommentariesSpec` | src/process_with_pandas_v2.py:16-29 | an entry `(row, col, value)` is listed iff the cell is present and has text after stripping, and, when its row is inside the boundaries, its text has `/` or `*` at the start or after white space followed by a letter or digit; the value is the cell's text; entries are in strictly increasing row-major order |
| `CommentaryExtractor.RowCommentaries` | src/process_with_pandas_v2.py:20-28 | the entries of one row all carry that row and come in increasing column order |
| `HeaderV2.RemovePunctuation` | src/process_with_pandas_v2.py:11 | the result is no longer than the input and keeps only input characters outside the stripped set `/ _ ? ! @ # % & * ( ) [ ] { } ; : , . < > \| \ " '` |
| `HeaderV2.RemovePunctuationSelect` | src/process_with_pandas_v2.py:11 | the regex deletes exactly the stripped characters: the result is the subsequence of the input at the increasing positions of the other characters, so every letter, digit and space survives, in order |
| `HeaderV2.CleanHeaderNameSpec` | src/process_with_pandas_v2.py:9-14 | a cleaned name has no space, no upper-case letter and no stripped character except `_`; it has exactly one `_` per space of the input; it is no longer than the input |
| `HeaderV2.CleanHeaderNameNotIdempotent` | src/process_with_pandas_v2.py:9-14 | cleaning is not idempotent: `"A B"` cleans to `"a_b"`, which cleans to `"ab"` |
| `HeaderV2.DetectHeader` | src/process_with_pandas_v2.py:62-89 | the detection and the scanning loop with its `break` return exactly `IsComplexHeader` and `HeaderDepth` |
| `HeaderV2.ScanDepthSpec` | src/process_with_pandas_v2.py:85-89 | the scan from row `i` stops at the first row below `min(5, n)` whose first cell has text, or at `min(5, n)`, and it skips only rows without text in the first cell |
| `HeaderV2.HeaderDepthSpec` | src/process_with_pandas_v2.py:62-90 | the depth is 1 for a simple header or a slice of at most one row; otherwise it is the first `i` in `1..min(5,n)-1` whose first cell has text, or `min(5,n)`; so `1 <= depth <= max(1, min(5, n))`, and a complex header of two or more rows has depth at least 2 |
| `ForwardFill.FFill` | src/process_with_pandas_v2.py:94 | forward fill keeps the row's length |
| `ForwardFill.FFillAt` | src/process_with_pandas_v2.py:94 | a non-blank cell is unchanged; a blank cell takes the value of the nearest non-blank cell to its left; a leading blank stays blank |
| `ForwardFill.FFillIdempotent` | src/process_with_pandas_v2.py:94 | filling a filled row changes nothing |
| `ForwardFill.FillRowForward` | src/process_with_pandas_v2.py:94 | the in-place left-to-right loop over an array leaves it equal to `FFill` of its old contents |
| `ForwardFill.FillHeaderForward` | src/process_with_pandas_v2.py:92-94 | copying the header rows and filling each copy in place gives `FilledHeader`: the same rows, each forward-filled |
| `ForwardFill.FilledHeader` | src/process_with_pandas_v2.py:94 | filling keeps the number of header rows and the length of each |
| `HeaderV2.UniqueSpec` | src/process_with_pandas_v2.py:100 | the unique levels are exactly the values of the list, each once, in the order of their first occurrence |
| `HeaderV2.UniqueOfRepeats` | src/process_with_pandas_v2.py:100 | a non-empty list holding a single value, however often, reduces to that value |
| `HeaderV2.CleanedLevelsOfPlaceholders` | src/process_with_pandas_v2.py:99 | when every level is blank (`nan`) or contains `unnamed` (in any case), no level survives |
| `HeaderV2.CleanedLevelsSelect` | src/process_with_pandas_v2.py:99 | the cleaned levels are `clean_header_name` of exactly the levels that are neither blank nor an `unnamed` label, at increasing positions, so every such level yields its cleaned name, in order |
| `HeaderV2.ComplexName` | src/process_with_pandas_v2.py:98-102 | a complex-header column name is never empty |
| `HeaderV2.ComplexNameChars` | src/process_with_pandas_v2.py:98-102 | a complex-header column name is non-empty and made only of name characters, whether from joined levels or from the `unnamed_col_<c>` placeholder |
| `HeaderV2.ComplexNameOfPlaceholders` | src/process_with_pandas_v2.py:99-102 | a column whose levels are all blank or `unnamed` labels is named `unnamed_col_<c>` |
| `HeaderV2.ComplexNameOfRepeatedLevel` | src/process_with_pandas_v2.py:99-101 | a column whose surviving levels all clean to the same token is named by that token once, not repeated |
| `HeaderV2.ComplexNames` | src/process_with_pandas_v2.py:96-102 | the column loop returns one name per column, the `ComplexName` of each column |
| `HeaderV2.SimpleNames` | src/process_with_pandas_v2.py:75-78 | a simple header gives one raw name per cell of its first row |
| `HeaderV2.SimpleNamesNoFallback` | src/process_with_pandas_v2.py:75-78 | a simple header has no placeholder: a blank cell is named `nan`, and a cell made only of stripped characters gets the empty name |
| `HeaderV2.SimpleNamesChars` | src/process_with_pandas_v2.py:75-78 | simple-header names are made only of name characters |
| `NameDedup.Deduplicated` | src/process_with_pandas_v2.py:104-109 | de-duplication keeps the number of names |
| `NameDedup.CountsOccurrences` | src/process_with_pandas_v2.py:106-108 | after scanning a list, the dictionary holds each name's number of occurrences in it |
| `NameDedup.Deduplicate` | src/process_with_pandas_v2.py:104-109 | the counting loop returns exactly `Deduplicated`: each name suffixed by how often it occurred before |
| `NameDedup.DedupOccurrence` | src/process_with_pandas_v2.py:107-109 | the first occurrence of a name is unchanged; a name that occurred `k-1 >= 1` times before becomes `name_<k-1>` |
| `NameDedup.DedupKeepsDistinct` | src/process_with_pandas_v2.py:104-109 | names that are already distinct come out unchanged |
| `NameDedup.DedupDistinct` | src/process_with_pandas_v2.py:104-109 | the results are pairwise distinct when no raw name equals another raw name followed by `_` and a positive number |
| `NameDedup.DedupCanCollide` | src/process_with_pandas_v2.py:104-109 | uniqueness is not guaranteed in general: `["a","a","a_1"]` becomes `["a","a_1","a_1"]` |
| `NameDedup.DedupChars` | src/process_with_pandas_v2.py:109 | a character property shared by the raw names, `_` and the digits holds of every de-duplicated name |
| `NameDedup.OccurrencesTwo` | src/process_with_pandas_v2.py:115-117 | a label at two positions occurs at least twice, so selecting it is ambiguous |
| `NameDedup.OccurrencesSecond` | src/process_with_pandas_v2.py:115-117 | a first label that occurs more than once occurs again at a later position |
| `RowFilter.KeptRows` | src/process_with_pandas_v2.py:115-120 | no more rows are kept than given, and every kept row passes the filters |
| `RowFilter.KeptRowsSelect` | src/process_with_pandas_v2.py:115-120 | the kept rows are the data rows at strictly increasing positions, and a position is kept iff its row is not all blank and, when the summary filter runs, its first cell does not mention `total` or `departments` in any case |
| `PandasV2.RawNames` | src/process_with_pandas_v2.py:68-102 | either path gives one raw name per column |
| `PandasV2.ProcessTable` | src/process_with_pandas_v2.py:50-120 | the whole engine returns the commentaries of `Commentaries` and the table or fault of `Extract` |
| `PandasV2.ExtractFaults` | src/process_with_pandas_v2.py:58-117 | `NoColumns` iff the grid has no columns; `NoHeaderRow` iff it has columns and the slice is empty, which never happens with boundaries inside the grid; `AmbiguousFirstColumn` iff the slice is non-empty, the first final name is non-empty and another column carries it |
| `PandasV2.ExtractTable` | src/process_with_pandas_v2.py:58-120 | on success there is one name per column; the header takes the first `depth` rows of the slice, with `1 <= depth <= max(1, min(5, n))` and `depth <= n`; the rows are exactly the rows after the header that pass the filters, in order; the summary filter runs iff the first name is non-empty |
| `PandasV2.ExtractRowsFiltered` | src/process_with_pandas_v2.py:115-119 | no kept row is all blank, and when the first column is named no kept row's first cell mentions `total` or `departments` |
| `PandasV2.ExtractNameChars` | src/process_with_pandas_v2.py:75-109 | every final name has no space, no upper-case letter and no stripped character except `_` |
| `PandasV2.ExtractComplexNamesNonEmpty` | src/process_with_pandas_v2.py:96-116 | with a complex header no final name is empty, so the summary filter always runs |
| `PandasV2.ExtractDistinctNames` | src/process_with_pandas_v2.py:104-117 | when no raw name is another raw name with a `_<k>` suffix, the engine succeeds and the final names are pairwise distinct |
| `PandasV1.LevelToken` | src/process_with_pandas.py:41 | a level token has no `/` |
| `PandasV1.KeptTokens` | src/process_with_pandas.py:41 | at most one token per level, and no token has a `/` |
| `PandasV1.KeptTokensSelect` | src/process_with_pandas.py:41 | the tokens are the cut and stripped text of exactly the levels that are neither blank nor an `unnamed` label, at increasing positions, so every such level yields its token, in order |
| `PandasV1.ColumnNameChars` | src/process_with_pandas.py:40-43 | a column name has no space, no `/` and no upper-case letter |
| `PandasV1.ColumnNameOfPlaceholders` | src/process_with_pandas.py:41-44 | a column whose levels are all blank or `unnamed` labels gets the empty name, with no placeholder |
| `PandasV1.DepartmentCollapses` | src/process_with_pandas.py:42-43 | two kept levels that both lower-case to `department` give the name `department` |
| `PandasV1.RepeatedLevelsKept` | src/process_with_pandas.py:42-43 | other repeated levels are kept: levels `Q1`, `Q1` give `q1_q1` |
| `PandasV1.PctOfRewrite` | src/process_with_pandas.py:42 | `% of GDP` gives `pct_of_gdp`, because spaces become `_` before the `%_of` rewrite |
| `PandasV1.PctOfCaseSensitive` | src/process_with_pandas.py:42 | `% OF GDP` gives `%_of_gdp`: the rewrite runs before lower-casing, so it is case-sensitive |
| `PandasV1.ColumnNames` | src/process_with_pandas.py:38-44 | the column loop returns `RawColumnNames`, one `ColumnName` per column |
| `PandasV1.RawColumnNames` | src/process_with_pandas.py:38-44 | one raw name per column |
| `PandasV1.RenameFirst` | src/process_with_pandas.py:56-57 | the rename works by label: it keeps the number of columns, every column carrying the first column's name (the first included) becomes `department`, and every other column keeps its name |
| `PandasV1.ProcessTableV1` | src/process_with_pandas.py:28-60 | the whole engine returns the table or fault of `ExtractV1` |
| `PandasV1.ExtractV1Faults` | src/process_with_pandas.py:28-58 | `NoColumns` iff the grid has no columns; `ShortHeader` iff it has columns and the slice has fewer than two rows, which never happens with boundaries inside the grid spanning two rows; `AmbiguousFirstColumn` iff, after the rename, a column other than the first is named `department` |
| `PandasV1.ExtractV1Table` | src/process_with_pandas.py:28-60 | on success the slice has at least two rows; there is one name per column; the first column is `department` and no other column is; every other column keeps its de-duplicated raw name; the rows are exactly the rows after the two header rows that pass both filters, in order |
| `PandasV1.ExtractV1RowsFiltered` | src/process_with_pandas.py:58-60 | no kept row is all blank, and no kept row's `department` cell mentions `total` or `departments` in any case |
| `PandasV1.ExtractV1NameChars` | src/process_with_pandas.py:38-57 | no final name has a space, a `/` or an upper-case letter |
| `SheetNames.KeepSheetChars` | src/sheets_to_excel.py:116 | the filtered name is no longer than the sheet name and holds only letters, digits, spaces, `_` and `-` |
| `SheetNames.KeepSheetCharsSelect` | src/sheets_to_excel.py:116 | the filter keeps exactly the characters that are letters, digits, spaces, `_` or `-`, at strictly increasing positions, so their relative order is kept |
| `SheetNames.SafeSheetNameChars` | src/sheets_to_excel.py:116 | a safe name holds only letters, digits, `_` and `-` (no space), and it is never longer than the sheet name |
| `SheetNames.SafeSheetNameOrder` | src/sheets_to_excel.py:116 | character `k` of the safe name is the `k`-th kept character, with a space turned into `_`; the kept characters after it are trailing spaces, which are dropped rather than turned into underscores |
| `SheetNames.SafeSheetNameTrailingSpace` | src/sheets_to_excel.py:116 | a trailing space does not change the safe name |
| `SheetNames.SafeSheetNameOfSafe` | src/sheets_to_excel.py:116 | a name made only of letters, digits, `_` and `-` is its own safe name |
| `SheetNames.SafeSheetNameIdempotent` | src/sheets_to_excel.py:116 | sanitising twice is the same as sanitising once |
| `SheetNames.OutputFileNames` | src/sheets_to_excel.py:62 | the loop over the sheets names sheet `i` (from 1, in workbook order) `<base>_sheet<i>_<safe name>.xlsx`, as at line 119 |
| `SheetNames.OutputFileNamesDistinct` | src/sheets_to_excel.py:119 | sheets with different numbers get different file names, whatever their sheet names |

## Left out

- Reading the workbook, the boundary JSON and the grid is not modelled, and
  neither is writing the Excel, CSV and JSON outputs, creating directories or
  printing. The grid, its width and the two boundary indices are parameters.
  Boundary values are taken to be integers.
- The boundary finder that calls a language model, the Excel recalculation
  scripts and the command-line drivers are not part of this model.
- Character classes are ASCII: `lower`, `isalnum`, `isspace`, `strip` and the
  regex `\s` follow their ASCII behaviour. Unicode letters, case mappings and
  white space are not modelled.
- The fixed-header engine reads cells with pandas' type inference, so a number
  renders as, for example, `2023.0`. The model treats every present cell as
  text holding its rendering.
- Row labels (`reset_index`) are not modelled. A table is a sequence of rows
  in order.
- The row filters are vectorised pandas operations with no loop in the source,
  so they are modelled as the function `RowFilter.KeptRows`.
- In the sheet splitter, only the naming is modelled:
  - the base name derived from the input path is a parameter;
  - the output folder that `os.path.join` puts in front of the file name is
    left out;
  - copying cells, styles and merged ranges, saving, and the error handling
    around it are left out.
- `SheetNames.OutputFileNames`: states the names for a workbook's list of
  sheet names. The workbook object and its `sheetnames` property are not part
  of this model.
