# Workbook-to-JSON course builder, modelled in Dafny

This project models `scripts/build_json_from_xlsx.py`. That script turns an
Excel workbook of trail-race results into JSON:

- **One course per sheet.** Each sheet becomes a course document
  `data/courses/<sheet>.json`, holding a `meta` object and a `results` list.
- **A manifest.** `data/courses_index.json` lists every course written.

The model covers what the script decides, sheet by sheet:

- **Cell converters.** The tolerant converters `safe_float` and `safe_int`.
- **Rank column.** The first rank-like header, else `Unnamed: 0`, else the
  first column.
- **Numeric-rank filter.** Only rows whose rank cell is numeric are kept.
- **`colmap`.** The exact pass, then the two substring fallbacks.
- **Skip rule.** A sheet with no score column is skipped.
- **Sheet name.** It is decoded with `([A-Za-z]+)(\d{4})`.
- **Per-row results.** Each row is converted to a result.
- **Final list.** Only positive ranks are kept. The list is stably sorted by
  rank and cut to 300 entries.
- **Outputs.** The `meta` object, the manifest entry, and the loop over the
  workbook that collects them.

Modules:

- `Text`: `strip()`, ASCII `lower()`/`upper()`, the substring test `in`, and
  one-character `replace`.
- `Cells`: cells, Python floats, `safe_float`, `safe_int`.
- `Columns`: the rank column and `colmap`.
- `SheetNames`: the series code and year.
- `Results`: row filtering, the per-row result, filter/sort/truncate.
- `Build`: one sheet's outcome and the run over the workbook.

Three kinds of code:

- **Loops of the script.** Each becomes a method with a loop:
  - the `for ... break` scans (`Columns.FindFirst`);
  - the `if`/`elif` exact pass (`Columns.ExactScan`);
  - the row loop (`Results.CollectResults`);
  - the loop over the sheets (`Build.BuildWorkbook`).

  Each method is proved equal to a specification function.
- **Pure expressions.** Functions.
- **Promises.** Lemmas about those functions.

### How the model differs from a plain reading of the code

- **`df.columns[0]` on a sheet with no columns.**
  - This raises, which ends the whole run.
  - The course files written for earlier sheets stay on disk.
  - No `data/courses_index.json` is written.
  - The model records this as `Output.index == None`. It is modelled on
    purpose, not reported as a bug: the script has no handler for it.
- **One column can take two roles.** The two fallback passes are independent
  of each other. So one column can be both the score and the runner column
  when its header mentions both, e.g. `UTMB runner`
  (`Columns.FallbackSharesColumn`).
- **`rank is not None` in the final filter.** It is always true, because
  `safe_int` returned a value for every result kept.

## Model

| member | source | states |
|---|---|---|
| Text.Strip | scripts/build_json_from_xlsx.py:58 | `strip()` leaves a text that neither starts nor ends with whitespace and is no longer than its input |
| Text.StripCutsSpaceAtEnds | scripts/build_json_from_xlsx.py:58 | `strip()` returns a slice `s[i..j]` of its input, and everything outside `i..j` is whitespace (with `Strip`'s own ensures: the result neither starts nor ends with whitespace) |
| Text.StripIdempotent | scripts/build_json_from_xlsx.py:27 | stripping twice is stripping once |
| Text.Lower | scripts/build_json_from_xlsx.py:58 | the key has the header's length, each character lower-cased and no upper-case ASCII letter left |
| Text.Upper | scripts/build_json_from_xlsx.py:100 | `upper()` keeps the length, upper-cases each character and leaves no lower-case ASCII letter |
| Text.ContainsIff | scripts/build_json_from_xlsx.py:84 | the substring test `needle in hay` holds exactly when the needle occurs at some position of the haystack |
| Text.ReplaceChar | scripts/build_json_from_xlsx.py:27 | `replace(",", ".")` keeps the length and changes exactly the commas, to dots |
| Text.DeleteChar | scripts/build_json_from_xlsx.py:27 | `replace(" ", "")` leaves no space, never lengthens the text, and keeps the count of every other character |
| Text.DeleteAppend | scripts/build_json_from_xlsx.py:27 | deleting a character from a concatenation deletes it from each part and keeps the parts in order |
| Text.DeleteOne | scripts/build_json_from_xlsx.py:27 | a one-character text loses its character exactly when it is the one deleted |
| Text.DeleteAbsent | scripts/build_json_from_xlsx.py:27 | deleting a character that does not occur changes nothing |
| Text.DeleteKeepsEnds | scripts/build_json_from_xlsx.py:27 | deleting spaces from a stripped text keeps its first and last characters |
| Cells.NumberText | scripts/build_json_from_xlsx.py:27 | the text `safe_float` parses is the stripped cell text with its spaces deleted and then its commas turned into dots, so it holds no space and no comma and is no longer than the cell's text |
| Cells.SafeFloat | scripts/build_json_from_xlsx.py:23-30 | `safe_float` yields a value exactly when the cell is present and `float()` accepts its normalised text, and then that parsed value |
| Cells.NumberTextPlain | scripts/build_json_from_xlsx.py:27-28 | a number's usual rendering (no surrounding whitespace, no space, no comma) reaches `float()` unchanged |
| Cells.NumberTextIdempotent | scripts/build_json_from_xlsx.py:27 | normalising twice is normalising once |
| Cells.SafeFloatNormalised | scripts/build_json_from_xlsx.py:23-30 | `safe_float` gives a cell the same value as a cell holding its normalised text |
| Cells.NumberTextExample | scripts/build_json_from_xlsx.py:27 | `" 1 234,5 "` is parsed as `"1234.5"` |
| Cells.TruncateTowardZero | scripts/build_json_from_xlsx.py:36 | `int()` of a finite float is the integer next to it on the side of zero |
| Cells.SafeInt | scripts/build_json_from_xlsx.py:32-38 | `safe_int` yields a value exactly when the cell is present and `float()` gives a finite number (an exception, NaN or an infinity give `None`) |
| Cells.SafeIntTruncates | scripts/build_json_from_xlsx.py:36 | that value is the parsed float truncated toward zero |
| Columns.Keys | scripts/build_json_from_xlsx.py:58 | one key per header, in column order, each `str(c).strip().lower()` |
| Columns.FirstWhere | scripts/build_json_from_xlsx.py:57-61 | the scan finds the first position satisfying the test, and finds none exactly when no position does |
| Columns.FindFirst | scripts/build_json_from_xlsx.py:82-86 | the `for ... break` loop returns what `FirstWhere` specifies |
| Columns.RankColumn | scripts/build_json_from_xlsx.py:55-65 | the rank column is missing exactly when the sheet has no columns, and otherwise is one of the sheet's columns |
| Columns.ChooseRankColumn | scripts/build_json_from_xlsx.py:55-65 | the three-step rank-column choice computes `RankColumn` |
| Columns.RankColumnChoice | scripts/build_json_from_xlsx.py:55-65 | no rank column exactly when the sheet has no columns; else the first rank-like key; else the first column labelled `Unnamed: 0`; else column 0 |
| Columns.ExactRoles | scripts/build_json_from_xlsx.py:70-79 | the role the `if`/`elif` chain gives each column, in column order |
| Columns.ExactScan | scripts/build_json_from_xlsx.py:69-79 | the exact-pass loop computes `ExactPass` of the columns' roles |
| Columns.ExactPassLast | scripts/build_json_from_xlsx.py:69-79 | after the exact pass a role is set exactly when some column matches it, and then it holds the LAST matching column |
| Columns.ExactPassOneRolePerColumn | scripts/build_json_from_xlsx.py:71-79 | the exact pass never gives one column two roles |
| Columns.Fallback | scripts/build_json_from_xlsx.py:81-86 | one fallback pass (run only when the role is unset) computes `WithFallback` |
| Columns.ColumnMap | scripts/build_json_from_xlsx.py:69-93 | every column `colmap` names is one of the sheet's columns |
| Columns.BuildColumnMap | scripts/build_json_from_xlsx.py:69-93 | building `colmap` computes `ColumnMap` of the headers |
| Columns.ColumnMapExact | scripts/build_json_from_xlsx.py:69-79 | a role with an exact match goes to the last exactly matching column, whatever the fallbacks see |
| Columns.ColumnMapFallback | scripts/build_json_from_xlsx.py:81-93 | a role without an exact match: score and runner go to the first column whose key contains one of the role's substrings, and are unset exactly when there is none; gender and nationality stay unset |
| Columns.ColumnMapInRange | scripts/build_json_from_xlsx.py:69-93 | every column `colmap` names exists |
| Columns.ScoreColumnFound | scripts/build_json_from_xlsx.py:81-97 | the score role is set (so the sheet is not skipped) exactly when some key is an exact score name or contains `race score`, `utmb` or `itra` |
| Columns.FallbackSharesColumn | scripts/build_json_from_xlsx.py:81-93 | the single header `UTMB runner` is both the score and the runner column |
| SheetNames.LeadingLetters | scripts/build_json_from_xlsx.py:99 | the greedy `[A-Za-z]+` takes a run of letters that is followed by a non-letter or the end |
| SheetNames.DigitsValue | scripts/build_json_from_xlsx.py:101 | `int()` of the zero-padded rendering of a number with at most `n` digits is that number |
| SheetNames.DigitsRenderBack | scripts/build_json_from_xlsx.py:101 | a string of digits is the zero-padded rendering of its `int()` value |
| SheetNames.DecodeSheetName | scripts/build_json_from_xlsx.py:99-101 | with a match the year is below 10000 and the series is non-empty and at most the name's length minus 4; without one the series is the upper-cased name and the year is `None` |
| SheetNames.DecodeRoundTrip | scripts/build_json_from_xlsx.py:99-101 | letters, then a four-digit year, then anything decode to the upper-cased letters and that year |
| SheetNames.DecodeAgreesWithRegex | scripts/build_json_from_xlsx.py:99-101 | a year is found exactly when some split of the name has letters before it and four digits after it, and then the code and year come from that split |
| SheetNames.DecodeExampleUtmb | scripts/build_json_from_xlsx.py:99-101 | `UTMB2024` decodes to `UTMB`, 2024 |
| SheetNames.DecodeExampleSuffix | scripts/build_json_from_xlsx.py:99-101 | `ws2025b` decodes to `WS`, 2025 |
| Results.NumericRankRows | scripts/build_json_from_xlsx.py:67 | the rows kept are exactly the rows whose rank cell `pd.to_numeric` accepts |
| Results.NumericRankRowsAppend | scripts/build_json_from_xlsx.py:67 | filtering a concatenation filters each part and keeps the parts in order, so the kept rows keep their order |
| Results.NumericRankRowsOne | scripts/build_json_from_xlsx.py:67 | a single row is kept exactly when its rank cell is numeric |
| Results.TextField | scripts/build_json_from_xlsx.py:127-130 | a text field is set exactly when its role is mapped and the cell is present, and then it is that cell's text stripped |
| Results.RowResult | scripts/build_json_from_xlsx.py:119-131 | a row gives a result exactly when `safe_int` of its rank cell and `safe_float` of its score cell both yield values, and the result carries those two values |
| Results.RowContributes | scripts/build_json_from_xlsx.py:117-131 | a row gives a result exactly when its rank has a finite parse and its score parses, and the result holds that truncated rank, the parsed score and, for runner, gender and nationality, the stripped text of the mapped cell when it is present |
| Results.CollectedFromRows | scripts/build_json_from_xlsx.py:117-131 | every collected result is what some row converts to, and there are no more results than rows |
| Results.CollectedAppend | scripts/build_json_from_xlsx.py:117-131 | the results of a concatenation of rows are the results of the first part followed by those of the second |
| Results.CollectedOne | scripts/build_json_from_xlsx.py:118-131 | one row contributes exactly its converted result, or nothing when it has none |
| Results.CollectedIncludes | scripts/build_json_from_xlsx.py:117-131 | each row with a result contributes it, right after the results of the rows before it |
| Results.CollectResults | scripts/build_json_from_xlsx.py:117-131 | the row loop, with its two `continue`s, computes `Collected` |
| Results.KeepRanked | scripts/build_json_from_xlsx.py:133 | the filter keeps only ranks of at least 1, and for each such rank keeps all its entries in order |
| Results.InsertByRankMultiset | scripts/build_json_from_xlsx.py:134 | one insertion step of the sort adds the entry and loses none |
| Results.InsertByRankPerRank | scripts/build_json_from_xlsx.py:134 | one insertion step puts the entry ahead of the entries of its own rank and keeps every rank's order |
| Results.InsertByRankSorted | scripts/build_json_from_xlsx.py:134 | inserting into a rank-sorted list keeps it sorted |
| Results.SortByRank | scripts/build_json_from_xlsx.py:134 | the sort keeps the length and the multiset of entries |
| Results.SortByRankCorrect | scripts/build_json_from_xlsx.py:134 | the sort gives a rank-ordered permutation of its input, stable within each rank |
| Results.Truncate | scripts/build_json_from_xlsx.py:135 | `[:300]` keeps a prefix of exactly 300 entries when the list is longer, and the whole list otherwise |
| Results.FinalResults | scripts/build_json_from_xlsx.py:133-135 | the written list has the length of the positive-rank list when that has at most 300 entries, and exactly 300 otherwise |
| Results.FinalResultsShape | scripts/build_json_from_xlsx.py:133-135 | the written list has at most 300 entries, all of rank at least 1, in rank order |
| Results.SortedPrefixKeepsLowerRanks | scripts/build_json_from_xlsx.py:134-135 | cutting a sorted list loses no entry whose rank is below the last one kept |
| Results.FinalResultsPerRank | scripts/build_json_from_xlsx.py:133-135 | per rank, the written entries are the first ones of that rank in row order; nothing positive is lost when there are at most 300, and exactly 300 are written when there are more; every rank below the last one written is complete |
| Build.CoursePath | scripts/build_json_from_xlsx.py:150 | the course path is `data/courses/`, then the sheet name, then `.json`, and the sheet name can be read back from it |
| Build.CoursePathInjective | scripts/build_json_from_xlsx.py:150 | distinct sheets get distinct files |
| Build.MetaFor | scripts/build_json_from_xlsx.py:99-115 | `race_id` and `name` are the sheet name, `series` and `year` are decoded from it, `data_source` is `ITRA`, and the other six fields are null |
| Build.EntryFor | scripts/build_json_from_xlsx.py:143-151 | the manifest entry copies the course's race id, name, year, series, country and data source, and points at the course's path |
| Build.ConvertSheet | scripts/build_json_from_xlsx.py:53-137 | the body of the loop for one sheet computes `ConvertSheetSpec` |
| Build.SheetOutcomeCases | scripts/build_json_from_xlsx.py:55-97 | a sheet aborts the run exactly when it has no columns, is skipped exactly when it has columns but no score column, and is converted otherwise |
| Build.ConvertedCourse | scripts/build_json_from_xlsx.py:99-137 | a converted course has `race_id` and `name` equal to the sheet name, the decoded series and year, data source `ITRA`, and a bounded, rank-sorted list of positive ranks |
| Build.Run | scripts/build_json_from_xlsx.py:52-156 | the run writes at most one file per sheet, and a written manifest has one entry per file |
| Build.Process | scripts/build_json_from_xlsx.py:52-156 | over a workbook, at most one course file per sheet, and a written manifest has one entry per file |
| Build.BuildWorkbook | scripts/build_json_from_xlsx.py:52-157 | the loop over the sheets computes `Process` |
| Build.RunAborts | scripts/build_json_from_xlsx.py:64-65 | no manifest is written exactly when some sheet's outcome is the abort |
| Build.RunManifestMatchesFiles | scripts/build_json_from_xlsx.py:137-151 | every course file goes to its course's path, and a written manifest has one entry per file, in the same order, built from that file's course |
| Build.RunWritesConverted | scripts/build_json_from_xlsx.py:137-141 | every file written holds the course of some converted sheet |
| Build.RunListsConverted | scripts/build_json_from_xlsx.py:143-151 | the manifest's race ids are those of the converted courses, in order |
| Build.OutcomeFacts | scripts/build_json_from_xlsx.py:55-104 | each sheet's outcome: abort exactly when it has no columns, converted exactly when it has a score column, and then named after the sheet |
| Build.ProcessAborts | scripts/build_json_from_xlsx.py:64-65 | the run writes no manifest exactly when some sheet has no columns |
| Build.ProcessManifest | scripts/build_json_from_xlsx.py:137-156 | a written manifest has one entry per course file, in the same order, each pointing at `data/courses/<race_id>.json` where its course is, and its race ids are the names of the sheets with a score column, in workbook order |
| Build.ManifestRaceIdsDistinct | scripts/build_json_from_xlsx.py:143-151 | since sheet names are distinct, so are the manifest's race ids |
| Build.ProcessWritesWellFormedCourses | scripts/build_json_from_xlsx.py:103-141 | every course file written has at most 300 results, all of positive rank, in rank order, under the metadata decoded from its race id |

## Left out

- Reading the workbook is not modelled. A sheet is given as its name, its header labels rendered with `str()`, and its rows of cells.
  - A cell is either missing (`pd.isna` holds) or present with its `str()` text.
  - `str()` of a non-string header label (a number, a date) is taken as given.
  - Duplicate header labels are assumed to be made distinct already, as pandas does on reading; columns are identified by position.
- Writing JSON is not modelled: `json.dumps`, the encoding and the indentation. A course file is modelled as its path and its document.
- Command-line handling is not modelled: the usage message, exit code 2 and the creation of `data/courses`.
- `print` output is not modelled: the skip message and the final count.
- Python's `float()` on a string and the `pd.to_numeric(..., errors="coerce")` test are parameters (`Cells.Parsers`). The model does not restate IEEE 754 parsing or pandas' numeric coercion.
- Cells.SafeInt: applies `float()` to the cell's `str()` text, not to the cell object. For numeric cells these agree. A boolean cell (`float(True)`) is not modelled.
- Text.Lower, Text.Upper and SheetNames.LeadingLetters: case mapping and the letter and digit classes are ASCII-only. Python's `lower()`/`upper()` also map non-ASCII letters; the regex classes `[A-Za-z]` are ASCII in the source too, but `\d` also accepts non-ASCII decimal digits.
- Results.Result: the `index` float is kept as the parsed value. JSON's rendering of NaN and of the infinities is not modelled.
- Build.BuildWorkbook: after an abort, files already written stay on disk. The model reports them in `written` with no manifest. Partial writes of a single file are not modelled.
