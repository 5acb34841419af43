# PackageWizard: reconciliation of extracted BGA package parameters

PackageWizard extracts BGA package parameters from PDF datasheets. It does so
page by page: pitch, pin counts, body size, ball diameter and excluded pins.
This project models, in Dafny, the scripts that check those extractions
against a hand-made reference table. It proves properties of that model.

There are three scripts:

- **data_normalized_and_compare.py** reads the reference ("standard") CSV and
  the extraction ("result") CSV. It then:
  - cleans the page numbers;
  - builds a join key `name_page` from the normalised document name and the page;
  - de-duplicates each table by key, keeping the first row;
  - turns each checked cell into a canonical value: a list of slots, a set of
    pins, or an upper-cased text;
  - left-joins the standard table with the result table;
  - counts, for each checked field, how many matched rows agree.
- **data_normalized.py** rewrites every cell of both workbooks before the
  older comparison runs. It deletes quotes, minus signs and ".pdf", and turns
  the list-shaped Exclude Pins texts into a bracketed pin list.
- **data_compare.py** is the older comparison. It indexes the reference
  workbook by (document name, page). It then compares every result row with
  its reference row column by column: pin columns as sorted item lists, all
  other columns by their middle comma-separated slot. It returns the mismatch
  tallies: the total, per row and per column.

## Layout

| file | module | what it holds |
|---|---|---|
| wrappers.dfy | Wrappers | `Option` |
| strings.dfy | Strings | Python's `str` operations as the scripts use them: `lower`, `upper`, `strip`, `replace`, `find`, `in`, `split`, `join` and slicing |
| decimal.dfy | Decimal | `str(int)` for page numbers |
| sorting.dfy | Sorting | `sorted` on a list of `str` |
| canon.dfy | Canon | `normalize_filename`, `parse_list_string`, `parse_exclude_pins`, `normalize_text`, `compare_values` |
| reconcile.dfy | Reconcile | lines 154-249 of `main`: keys, de-duplication, the join, the field counts and every early exit |
| sheet_compare.dfy | SheetCompare | `compare_exclude_pins`, `compare_standard_columns` and the tallies of `compare_bga_files` |
| normalize.dfy | Normalize | `normalize_data` |

### How each part is modelled

- **The loops become methods.** These are `parse_list_string`,
  `parse_exclude_pins`, `compare_values`, the field loop and the count loop
  of `main`, and the reference-index loop, the row and column loops and the
  zero-filling loop of `compare_bga_files`. Each method is proved equal to a
  specification function, and the properties are proved about that function.
- **The rest are functions.** These are `normalize_filename`, `normalize_text`,
  `normalize_data`, `compare_exclude_pins` and `compare_standard_columns`.
- **A pandas cell** is `Absent` (NaN) or the text `str()` gives for it.
- **An openpyxl cell value** is `None`, a string, a list or another scalar,
  shown by its `str()`.
- **Python's `float()` and `str(float)`** are parameters (`NumberFormat`,
  `parse`). So is the page coercion `pd.to_numeric(..., errors='coerce')`
  followed by `astype(int)` (`pageOf`).
- **Column names of the merged frame** are structured values: a bare name, or
  a name with the `_std` or `_res` suffix. This follows the suffix rule pandas
  applies to names that both frames carry.

### Where the code departs from the stated design

The model follows the code in each of these points:

- `normalize_filename` deletes every ".pdf" after lower-casing, not only a
  trailing one.
- `parse_list_string` never pads a list to three slots. It gives one slot per
  comma-separated token, and three None slots only for a blank cell
  (`Canon.ListSlotsLength`). It does not unwrap nested list encodings either:
  it deletes every bracket and quote.
- In `compare_values`, two number slots match when they differ by at most
  0.001, the bound included (`Canon.ToleranceBoundary`).
- `compare_standard_columns` uses 0.000001 with the bound excluded
  (`SheetCompare.MiddlesAgreeCases`).
- `main` de-duplicates both tables keeping the first row with a key
  (`Reconcile.DedupFrom`). The reference index of `compare_bga_files` keeps
  the last row with a key (`SheetCompare.RefIndexLastWins`).

### Behaviour of the code worth knowing

These are stated as lemmas:

- **Package type.** It is compared only when the standard table also has a
  `package_type` column (`Reconcile.PackageTypeNeedsStandardColumn`).
  Otherwise the result column shows up in the merged frame without the
  `_res` suffix that line 236 looks for, and the field is reported as missing.
- **A list column or Exclude Pins that only the standard table has.** Its
  standard cell is compared with itself, so it is reported with no errors
  (`Reconcile.MissingResultColumnNoErrors`).
- **Unreachable branches of `normalize_data`.** The branches for quoted pin
  lists (lines 29-36 and 43-44) can never fire: line 14 has already deleted
  every single quote (`Normalize.QuotedFormsUnreachable`).

## Model

| member | source | states |
|---|---|---|
| Canon.KeepLowerAlnum | data_normalized_and_compare.py:42 | the result holds exactly the characters of the input that are in `[a-z0-9]` |
| Canon.NormalizeFilename | data_normalized_and_compare.py:38-42 | `normalize_filename`: lower-case, delete every ".pdf", keep `[a-z0-9]`; its properties are proved in `NormalizeFilenameCharset`, `NormalizeFilenameIdempotent` and `NormalizeFilenameIgnoresCase` |
| Canon.NormalizeFilenameCharset | data_normalized_and_compare.py:38-42 | a missing name gives ""; any other name gives only characters of `[a-z0-9]` |
| Canon.NormalizeFilenameIdempotent | data_normalized_and_compare.py:38-42 | normalising an already normalised name gives it back |
| Canon.NormalizeFilenameIgnoresCase | data_normalized_and_compare.py:38-42 | names that differ only in ASCII letter case give the same key stem |
| Canon.CleanIsFourReplacements | data_normalized_and_compare.py:48 | the four chained `replace` calls delete exactly the characters `[`, `]`, `'` and `"` |
| Canon.ParseListString | data_normalized_and_compare.py:45-61 | the loop returns the specified slot list `ListSlots` |
| Canon.ListSlotsLength | data_normalized_and_compare.py:45-61 | a blank cell gives three None slots; otherwise there is one slot per comma-separated token (commas + 1), with no padding; the list is never empty |
| Canon.ListSlotAt | data_normalized_and_compare.py:49-59 | slot `i` is the loop body applied to token `i` |
| Canon.ParseSlotMeaning | data_normalized_and_compare.py:52-59 | a slot is None exactly when the trimmed token is empty, `none` or `nan` in any case; a number exactly when `float()` accepts the token; otherwise the trimmed, non-blank token |
| Canon.TokenChars | data_normalized_and_compare.py:48-49 | tokens hold no bracket, quote or comma |
| Canon.ListStringSlotChars | data_normalized_and_compare.py:48-59 | a string slot holds no bracket, quote or comma |
| Canon.PinsOfSnoc | data_normalized_and_compare.py:70-73 | one loop step adds the token's pin exactly when the filter keeps it |
| Canon.ParseExcludePins | data_normalized_and_compare.py:64-74 | the loop returns the specified pin set `PinSet`: empty for a blank cell or one holding both `None` and `[]` |
| Canon.PinSetElements | data_normalized_and_compare.py:70-73 | every pin is non-empty, upper-case, neither NONE nor NAN, and free of brackets, quotes and commas |
| Canon.PinsOfBlank | data_normalized_and_compare.py:70-73 | tokens that are all whitespace give no pin |
| Canon.PinSetOfJoin | data_normalized_and_compare.py:64-74 | a comma-joined list of clean tokens parses to exactly the pins of those tokens |
| Canon.PinSetReorder | data_normalized_and_compare.py:64-74 | reordering or repeating the tokens leaves the parsed set unchanged |
| Canon.PinSetOfBracketed | data_normalized_and_compare.py:64-74 | a bracketed list `[t1,t2,...]` of clean tokens parses to exactly the pins of those tokens |
| Canon.PinSetReorderBracketed | data_normalized_and_compare.py:64-74 | in the bracketed form too, reordering or repeating the tokens leaves the parsed set unchanged |
| Canon.PinSetTokenSets | data_normalized_and_compare.py:64-74 | any two cells that are neither blank nor the no-exclusions marker, and whose tokens are the same strings up to order and repetition, parse to the same set |
| Canon.NormalizeText | data_normalized_and_compare.py:77-79 | `normalize_text`: "" for a missing cell, otherwise the stripped, upper-cased text; its properties are proved in `NormalizeTextIdempotent` |
| Canon.NormalizeTextIdempotent | data_normalized_and_compare.py:77-79 | the result is upper-case with no surrounding whitespace, and normalising it again changes nothing |
| Canon.CompareValues | data_normalized_and_compare.py:82-95 | the loop with early returns computes `Matches` |
| Canon.MatchesCases | data_normalized_and_compare.py:82-94 | Exclude Pins compares sets by equality; lists of different lengths never match; a None slot matches only None; two numbers match exactly when `|x - y| <= 0.001` |
| Canon.ToleranceBoundary | data_normalized_and_compare.py:91 | with exact reals, two numbers exactly 0.001 apart (0.3 and 0.301) match, and 0.3 and 0.3011 do not |
| Canon.MatchesSymmetric | data_normalized_and_compare.py:82-95 | the comparison does not depend on the order of its arguments |
| Canon.MatchesReflexive | data_normalized_and_compare.py:82-95 | every canonical value matches itself |
| Canon.NumberNeverMatchesString | data_normalized_and_compare.py:56-59 | when `str()` of a float parses back to it, a number slot never matches a string slot |
| Decimal.IntToStringInjective | data_normalized_and_compare.py:179 | distinct pages render as distinct decimal texts |
| Strings.Lower | data_normalized_and_compare.py:40 | `str.lower()`: the same length, each character mapped by the ASCII lower-case map |
| Strings.Upper | data_normalized_and_compare.py:71 | `str.upper()`: the same length, each character mapped by the ASCII upper-case map |
| Strings.Trim | data_compare.py:142 | `str.strip(chars)`: the characters of the set removed from both ends; its properties are proved in `TrimSlice`, `TrimChars` and `TrimEmpty` |
| Strings.TrimSlice | data_compare.py:142 | the trimmed text is a slice whose removed ends are all in the set and whose kept ends are not |
| Strings.TrimChars | data_compare.py:142 | trimming introduces no character |
| Strings.TrimEmpty | data_normalized_and_compare.py:46 | a text trims to nothing exactly when every character is in the set |
| Strings.Strip | data_normalized_and_compare.py:79 | `str.strip()`: `Trim` with the ASCII whitespace set |
| Strings.Replace | data_normalized_and_compare.py:41 | `str.replace(pat, rep)`: every non-overlapping occurrence, scanned from the left, replaced; its properties are proved in `ReplaceChars`, `ReplaceCharByEmpty`, `ReplaceAbsent`, `ReplaceNotContained` and `ReplaceKeepsOut` |
| Strings.ReplaceChars | data_normalized_and_compare.py:41 | replacing introduces no character beyond those of the text and the replacement |
| Strings.ReplaceCharByEmpty | data_normalized_and_compare.py:48 | replacing one character by "" deletes exactly that character |
| Strings.ReplaceAbsent | data_normalized.py:14 | a text without the pattern's first character is unchanged |
| Strings.ReplaceNotContained | data_normalized.py:14 | a text without an occurrence of the pattern is unchanged |
| Strings.ReplaceKeepsOut | data_normalized.py:47-50 | replacing by a text foreign to `q` leaves no occurrence of `q` when `q` is the pattern or did not occur |
| Strings.Split | data_normalized_and_compare.py:49 | `str.split(sep)`: never an empty list; its properties are proved in `SplitCount`, `SplitPieces` and `JoinSplit` |
| Strings.SplitCount | data_normalized_and_compare.py:49 | `split(',')` gives one more piece than there are commas |
| Strings.SplitPieces | data_normalized_and_compare.py:49 | no piece of `split(',')` holds a comma |
| Strings.JoinSplit | data_normalized_and_compare.py:49 | joining the pieces with the separator gives the string back |
| Reconcile.KeyedRowsForm | data_normalized_and_compare.py:154-182 | exactly the rows whose page coerces survive, in order; each carries its page and the key built from its name and page |
| Reconcile.JoinKeyInjective | data_normalized_and_compare.py:178-182 | two keys are equal exactly when the normalised names and the pages are |
| Reconcile.FirstWithKey | data_normalized_and_compare.py:185-186 | finds a row with the key exactly when the key occurs |
| Reconcile.FirstWithKeyIsFirst | data_normalized_and_compare.py:185-186 | the row found is preceded by no row with the same key |
| Reconcile.DedupFrom | data_normalized_and_compare.py:185-186 | `drop_duplicates(subset=['key'])`: keys become unique, no key is lost, and the kept row is the first with its key |
| Reconcile.DedupInOrder | data_normalized_and_compare.py:185-186 | the kept rows are a subsequence of the input: they keep their input order |
| Reconcile.StandardRowsKeyed | data_normalized_and_compare.py:154-185 | the de-duplicated standard rows have distinct `name_page` keys, each row the first with its key, and every paged key kept |
| Reconcile.LeftJoin | data_normalized_and_compare.py:204 | one pair per standard row, in order; the pair has the result row with the same key exactly when that key occurs among the result rows |
| Reconcile.MatchedPairs | data_normalized_and_compare.py:207-218 | every pair of `df_compare` is a pair of `merged` whose result side has a name, and every such pair of `merged` is kept |
| Reconcile.MatchedPairsCounts | data_normalized_and_compare.py:207-218 | `df_compare` holds each pair whose result side has a name as often as `merged` does, and no other pair |
| Reconcile.MatchedPairsConcat | data_normalized_and_compare.py:207-218 | the filter distributes over concatenation, so the kept pairs stay in their `merged` order |
| Reconcile.FieldAvailability | data_normalized_and_compare.py:232-241 | a field passes the missing-column check exactly when the standard table has its result column; its standard column is then in the merged frame |
| Reconcile.MissingResultColumnSelfCompared | data_normalized_and_compare.py:232-236 | with a column the result table lacks, `key_std` and `key_res` name the same unsuffixed column |
| Reconcile.CountCorrect | data_normalized_and_compare.py:243-246 | the loop computes `CorrectCount`, the number of matched rows that agree on the field |
| Reconcile.CorrectCountBound | data_normalized_and_compare.py:243-246 | the correct count never exceeds the matched rows |
| Reconcile.SelfComparisonAllCorrect | data_normalized_and_compare.py:243-246 | when both sides name the same merged column, every matched row agrees |
| Reconcile.FieldLines | data_normalized_and_compare.py:229-249 | one line per checked field |
| Reconcile.CheckFields | data_normalized_and_compare.py:229-249 | the field loop produces the lines `FieldLines` specifies |
| Reconcile.FieldLinesBounds | data_normalized_and_compare.py:229-249 | each line names its field; a checked line's errors lie between 0 and the matched rows and add up with the correct count to them |
| Reconcile.Reconciliation | data_normalized_and_compare.py:135-249 | how `main` ends, as a value: the early exits in source order, then the report; its properties are proved in `CompareTables`, `ReportBounds`, `PackageTypeNeedsStandardColumn` and `MissingResultColumnNoErrors` |
| Reconcile.CompareTables | data_normalized_and_compare.py:135-249 | `main` ends as `Reconciliation` says: empty result, a missing column (KeyError), no valid result rows, no matches, or the report |
| Reconcile.ReportBounds | data_normalized_and_compare.py:206-249 | a report has between 1 and the standard-row count of matched rows, one line per checked field in order, and error counts within bounds |
| Reconcile.PackageTypeNeedsStandardColumn | data_normalized_and_compare.py:232-241 | the package type is compared exactly when the standard table has a `package_type` column |
| Reconcile.MissingResultColumnNoErrors | data_normalized_and_compare.py:189-246 | a list column or Exclude Pins that the result lacks is reported with every matched row correct and no errors |
| Normalize.NormalizeData | data_normalized.py:5-52 | an empty cell stays empty and any text yields text |
| Normalize.Scrub | data_normalized.py:14 | the three deletions of line 14, in order; its properties are proved in `ScrubRemoves`, `ScrubClean` and `QuotedFormsUnreachable` |
| Normalize.Reshape | data_normalized.py:17-50 | the `if`/`elif` chain on list-shaped text; its properties are proved in `ReshapeChars`, `PlainTextUnchanged`, `PinsExtracted`, `NoPinsMarker`, `UndetectedReplaced` and `BareListExample` |
| Normalize.ScrubRemoves | data_normalized.py:14 | no single quote and no minus sign is left |
| Normalize.ScrubClean | data_normalized.py:14 | a text with none of `'`, `-` or ".pdf" is unchanged |
| Normalize.QuotedFormsUnreachable | data_normalized.py:14-44 | after line 14, neither `["['` nor `['None', '[]', '-'` can occur |
| Normalize.ReshapeChars | data_normalized.py:17-50 | the rewriting adds no characters beyond its input and `[None, ]` |
| Normalize.NormalizeDataChars | data_normalized.py:5-52 | normalised text holds no single quote and no minus sign |
| Normalize.PlainTextUnchanged | data_normalized.py:14-17 | text that is not list-shaped and holds nothing line 14 deletes comes back unchanged |
| Normalize.PlainTextScrubbed | data_normalized.py:14-17 | text that is not list-shaped once scrubbed comes out as the input with every `'` and `-` deleted and then every ".pdf" deleted |
| Normalize.PinsExtracted | data_normalized.py:19-26 | for the `["[...]", [` form, the pins run from index 3 to the first `]` after it, which always exists, and lose their spaces |
| Normalize.BareListExample | data_normalized.py:18-26 | `["[B1, C7]", [3.0, 3.0]]` becomes `[B1,C7]` |
| Normalize.NoPinsMarker | data_normalized.py:38-40 | a `[None, []` form that is not a pin list becomes `[None]` |
| Normalize.UndetectedReplaced | data_normalized.py:46-50 | in the "not detected" branch, no `未检测出` and no `[, , ]` is left |
| Normalize.EmptyTripleGone | data_normalized.py:50 | replacing `[, , ]` by `[None, None, None]` leaves no `[, , ]`, not even one built across a replacement's edge |
| Normalize.NoneTriplePrefix | data_normalized.py:50 | `[None, None, None]` in front of a text free of `[, , ]` creates no occurrence |
| Strings.Find | data_normalized.py:21-22 | `find` returns the least index at or after `start` where the pattern occurs, or -1 when there is none |
| SheetCompare.CompareExcludePins | data_compare.py:113-118 | two None values are equal; exactly one None is a mismatch |
| SheetCompare.Standardize | data_compare.py:121-129 | `standardize`: a bracketed text gives its sorted items, any other text its lower-cased self as one item; its properties are proved in `ItemsShape`, `ItemsIgnoreCaseAndSpace`, `ItemsSkipBlank`, `Sorting.Sorted` and `ExcludePinsAsMultisets` |
| SheetCompare.ExcludePinsAsMultisets | data_compare.py:121-132 | two bracketed values are equal exactly when they hold the same items with the same multiplicities |
| Sorting.Sorted | data_compare.py:128 | `sorted` returns an ascending permutation of its input |
| Sorting.SortedEqual | data_compare.py:128-132 | two lists sort equal exactly when they hold the same multiset of items |
| SheetCompare.ItemsShape | data_compare.py:127 | every item is non-empty, lower-case and has no surrounding whitespace |
| SheetCompare.ItemsIgnoreCaseAndSpace | data_compare.py:127 | pieces that agree up to case and surrounding whitespace give the same items |
| SheetCompare.ItemsConcat | data_compare.py:127 | the items of joined piece lists are the joined items |
| SheetCompare.ItemsSkipBlank | data_compare.py:127 | inserting a blank piece anywhere changes nothing |
| SheetCompare.CompareExcludePinsSymmetricReflexive | data_compare.py:113-132 | the comparison is symmetric and reflexive |
| SheetCompare.ExtractMiddle | data_compare.py:138-146 | `extract_middle`: the second comma-separated part of a text, the `str()` of the second item of a list, or none; its properties are proved in `ExtractMiddleCases` and `ExtractMiddleOfParts` |
| SheetCompare.ExtractMiddleCases | data_compare.py:138-146 | a string has a middle exactly when it holds two commas once its end brackets are gone; a list exactly when it has three items; nothing else has one |
| SheetCompare.ExtractMiddleOfParts | data_compare.py:142-143 | the middle of `a,b,c` is the trimmed `b` |
| SheetCompare.CompareStandardColumns | data_compare.py:135-157 | `compare_standard_columns`: the two middles compared by `MiddlesAgree`; its properties are proved in `CompareStandardColumnsMiddleOnly` and `MiddlesAgreeCases` |
| SheetCompare.CompareStandardColumnsMiddleOnly | data_compare.py:135-157 | changing the first or third part never changes the comparison, on either side |
| SheetCompare.MiddlesAgreeCases | data_compare.py:151-157 | a missing middle matches only a missing one; two numeric middles match exactly when they differ by less than 1/1000000, so with exact reals 1.0 and 1.000001 do not; when either middle is not a number, the texts compare case-insensitively |
| SheetCompare.KeepPresent | data_compare.py:37 | keeps exactly the listed columns that are headers, each once |
| SheetCompare.KeepPresentInOrder | data_compare.py:37 | the kept columns are a subsequence of the list: they keep its order |
| SheetCompare.ColumnsPresent | data_compare.py:24-37 | the compared columns are the listed ones present among the headers, without repeats |
| SheetCompare.LastIndex | data_compare.py:40 | a repeated header maps to its last position; a missing one to none |
| SheetCompare.LastWithKey | data_compare.py:48-51 | finds the last reference row with a key, or none |
| SheetCompare.RefIndexLastWins | data_compare.py:48-51 | a key is indexed exactly when a reference row carries it, and maps to the last such row |
| SheetCompare.RefIndexRows | data_compare.py:48-51 | every indexed row is one of the reference rows |
| SheetCompare.SpanCovers | data_compare.py:72-73 | a row as wide as `Span` holds the cell of every compared column |
| SheetCompare.SpanTight | data_compare.py:72-73 | `Span` is the least such width: some compared column sits at its last position |
| SheetCompare.BuildRefIndex | data_compare.py:48-51 | the loop builds `RefIndex` |
| SheetCompare.CompareBgaFiles | data_compare.py:7-110 | for rows that hold the key cells, where a result row that finds its reference row reaches the rightmost compared column and so does that reference row, the returned total, row tallies and column report are the specified counts over the present columns and the indexed reference |
| SheetCompare.TallyRows | data_compare.py:58-89 | the outer loop computes the total, the row tallies and the non-zero column tallies |
| SheetCompare.ScanRow | data_compare.py:68-84 | the inner loop computes the row's count and adds its mismatches to the column tallies |
| SheetCompare.FillZeros | data_compare.py:96-101 | starting from the non-zero tallies, every compared column ends up with its count, zeros included |
| SheetCompare.TalliesNonZero | data_compare.py:81-101 | the tallies after the row loop are exactly the non-zero entries of the column report |
| SheetCompare.PartialTalliesStep | data_compare.py:81-84 | one mismatch increments its column's tally, creating it at 1 |
| SheetCompare.NoReferenceNoCount | data_compare.py:64-66 | a row without a reference row counts no mismatch |
| SheetCompare.TalliesStep | data_compare.py:86-89 | a row adds its count to the total, and is recorded exactly when its count is non-zero |
| SheetCompare.RowCountBound | data_compare.py:68-84 | a row's count never exceeds the number of compared columns |
| SheetCompare.TotalIsColumnSum | data_compare.py:81-89 | the total is both the sum of the row counts and the sum of the column counts |
| SheetCompare.RowTalliesRecorded | data_compare.py:86-89 | exactly the rows with a non-zero count are recorded, under their sheet row number, starting at 2 |

## Left out

- File and workbook I/O is not modelled. That covers `read_csv_smart` with its encoding fallbacks, `load_workbook`, `save`, `normalize_excel_file` and the calls at module level.
- The prints are not modelled: the diagnostics, the match-rate and accuracy percentages, and the lines about bad rows.
- The effects of `compare_bga_files` that only write to the sheet are left out. These are the red fill, the "错误数量" header cell, the per-row count cells and the summary row at `max_row + 1`. The returned statistics are modelled.
- Floating-point arithmetic is modelled with exact reals. `float()`, `str(float)` and the page coercion are parameters, not implementations.
- Case mapping and whitespace are ASCII only. Python's `lower`, `upper` and `strip` also act on other Unicode characters.
- Canon.CompareValues: when only one argument is a list, and the column is not Exclude Pins, Python compares the `str()` of both values. The model counts this as a mismatch. The pipeline never passes such a pair, because both sides of a field are canonicalised the same way.
- SheetCompare.Render: an element inside a list is shown by its `repr`. For a string this is modelled as the string between single quotes, without the escaping and the switch to double quotes that Python applies. Any other scalar inside a list is shown by its `str()`, although Python uses its `repr` there too (for a `datetime` the two differ). openpyxl never yields a list as a cell value, so this branch does not arise from a workbook.
- SheetCompare.RefIndex: keys compare cell values as values. So an integer page and the equal float page (3 and 3.0) are two keys here, while a Python dict treats them as one key.
- SheetCompare.CompareBgaFiles: it requires every result and reference row to hold the two key cells, and a result row that finds its reference row to be at least `Span` wide, which is the rightmost compared position plus one, as that reference row must be too. Rows no lookup pairs may be narrower. Python raises IndexError at line 50 or 62-63 for a row without the key cells and at line 72-73 for a paired row that is too short; that error path is not modelled.
- Canon.ToleranceBoundary: its facts hold for exact reals. Python compares binary floats, so at the exact boundary the result depends on rounding: `abs(0.3 - 0.301)` is 0.0010000000000000009, so Python reports 0.3 and 0.301 as a mismatch.
- SheetCompare.MiddlesAgreeCases: its boundary example holds for exact reals. In floats `abs(1.0 - 1.000001)` is 9.999999999177334e-07, so Python reports 1.0 and 1.000001 as a match.
- The iteration order of `col_indices` is not modelled. The model visits the compared columns in list order, and the tallies do not depend on the order.
- Reconcile.Table: column names form a set. Duplicate CSV headers, which pandas renames, are left out.
- Merged-frame column names are structured. A literal column whose name ends in `_std` or `_res` and collides with a suffixed name is therefore not modelled.
- Reconcile.MergedValue: `row.get` returning None for a column the merged frame lacks is not modelled. That case is unreachable: `Reconcile.FieldAvailability` shows that `key_std` is present whenever `key_res` is.
- Normalize.NormalizeData takes the cell's text. The `str()` conversion of non-text cells is left out.
- onnx_test.py is not part of this model.
