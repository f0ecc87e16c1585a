# Data dashboard: uploads, previews and column statistics

A Dafny model of the data-handling core of a Django dashboard where users
upload Excel or CSV files. The model covers:

- the upload form's extension check (`clean_file`);
- the upload model's derived names (`get_extension`, `filename`, `__str__`);
- the preview page's statistics and sample rows (`data_preview`), with its
  per-upload cache;
- the processing step that replaces an upload's stored column previews
  (`process_excel_file`);
- the activity-log helper (`log_activity`);
- the two template filters (`get_item`, `subtract_from`).

A parsed spreadsheet is a `Frame`: a sequence of named, typed columns of equal
length. A numeric column holds `Option<real>` cells and any other column
holds `Option<string>` cells, where `None` is a missing value (NaN/None in
pandas). Parsing itself is a foreign call. It is passed in as
`parse: Format -> Option<Frame>`, where `None` stands for a reader that
raised.

Modules, in dependency order:

- `Wrappers`: Option, Result and `Min`.
- `Strings`: ASCII `lower`, `split`/`join`, `rfind`.
- `PosixPath`: `os.path.basename`, `os.path.splitext`.
- `DataFrames`: cells, columns, frames, `head`, `to_dict('records')`.
- `ColumnProfile`: the per-column statistics.
- `Models`: `DataUpload`, `DataPreview` and the preview table, a class whose
  `records` sequence the processing step rewrites.
- `Forms`: `clean_file`.
- `Views`: the statistics loop, the preview cache (a class over a `map`),
  `process_excel_file` as a method with a loop invariant, and the lemmas
  relating the form's rule to the processing rule.
- `Utils`: `log_activity` and the activity-log table, a class.
- `CustomFilters`: the two filters.

Two behaviours of the code are easy to miss, and the model states both:

- **Zero-row tables.** `null_percentage` divides by `len(df)`, so a table
  without rows gets NaN (`NotANumber`), not 0.
- **Form versus processing.** The form and the processing step use different
  extension rules. For names Django stores unchanged, the model proves
  exactly when they agree (`Views.UploadRulesAgree`). It also shows a name,
  ".csv", that the form accepts and the processing step then ignores
  (`Views.DotCsvPassesFormOnly`). Django's storage also drops characters from
  a name when it saves it, and "$.csv" shows that this can remove the stem
  (`Views.SanitisedStemLost`).

## Model

| member | source | states |
|---|---|---|
| Forms.CleanFile | dashboard/forms.py:32-39 | a missing or empty file passes; an accepted file is returned unchanged; otherwise the error carries the fixed message; fails iff the lower-cased last '.'-segment is not xlsx/xls/csv |
| Forms.AcceptsNameIff | dashboard/forms.py:36-37 | accepted iff the lower-cased text after the last '.' (the whole name when there is none) is allowed |
| Forms.AcceptsName | dashboard/forms.py:36-37 | the rule itself: the lower-cased `split('.')[-1]` is xlsx, xls or csv; AcceptsNameIff characterises it |
| Forms.AcceptsNameIgnoresCase | dashboard/forms.py:37 | names that lower-case alike get the same verdict |
| Forms.NoDotJudgedWhole | dashboard/forms.py:36 | a name without '.' is judged on the whole lower-cased name |
| Forms.TrailingDotRejected | dashboard/forms.py:36-38 | a name ending in '.' has an empty last segment and is rejected with the fixed message |
| Strings.Lower | dashboard/forms.py:37 | same length, each character lower-cased, result has no capital |
| Strings.LowerIdempotent | dashboard/forms.py:37 | lower-casing twice is lower-casing once |
| Strings.Split | dashboard/forms.py:36 | at least one piece, none containing the separator; more than one iff the separator occurs |
| Strings.RFind | dashboard/models.py:22 | -1 or an index of the character, with no occurrence after it |
| Strings.RFindLower | dashboard/forms.py:36-37 | lower-casing does not move the last '.' |
| Strings.LastSegmentSpec | dashboard/forms.py:36 | `split('.')[-1]` is a suffix without '.', the whole name when there is no '.', else preceded by '.' |
| Strings.FirstSegmentSpec | dashboard/utils.py:19 | `split(',')[0]` is a prefix without ',', the whole text when there is no ',', else followed by ',' |
| Strings.FirstSegment | dashboard/utils.py:19 | `split(sep)[0]` contains no separator |
| Strings.LastSegment | dashboard/forms.py:36 | `split(sep)[-1]` contains no separator |
| Strings.JoinSplit | dashboard/forms.py:36 | joining the pieces of a split gives the text back |
| Strings.LastSegmentLower | dashboard/forms.py:36-37 | lower-casing before or after taking the last segment is the same |
| Strings.LastSegmentAfterRFind | dashboard/forms.py:36 | the last segment is the text after the last separator |
| PosixPath.Basename | dashboard/models.py:17 | a suffix without '/', preceded by '/' when the path has one, the whole path otherwise |
| PosixPath.BasenameOfComponent | dashboard/models.py:17 | the basename of `dir/name`, with no '/' in name, is name |
| PosixPath.SplitExt | dashboard/models.py:22 | root + extension is the path; the extension is empty or a '.' with no other '.' and no '/' |
| PosixPath.SplitExtNonEmptyIff | dashboard/models.py:22 | the extension is non-empty iff the basename has a non-'.' character before a '.' |
| PosixPath.SplitExtOfComponent | dashboard/models.py:22 | for a stored `dir/name` whose name has a stem, the basename is name and the extension starts at the name's last '.' |
| PosixPath.SplitExtOfStoredName | dashboard/models.py:22 | for such a `dir/name`, the extension is '.' followed by the name's last '.'-segment |
| Models.DataUpload.ToString | dashboard/models.py:12-13 | the title |
| Models.DataUpload.Filename | dashboard/models.py:15-18 | "No file" without a file, else the stored name's last path component |
| Models.DataUpload.GetExtension | dashboard/models.py:20-24 | "" without a file; lower-case; "" or '.' with no further '.' or '/' |
| Models.GetExtensionIsLoweredTail | dashboard/models.py:20-24 | the extension is the lower-cased tail of the stored name, never longer than it |
| Models.GetExtensionNonEmptyIff | dashboard/models.py:22-23 | non-empty iff the basename has a stem before a '.', so "uploads/.csv" and "..csv" give "" |
| Models.DataPreview.ToString | dashboard/models.py:34-35 | the owner's title, " - ", then the column name |
| Models.SelectAppend | dashboard/views.py:190 | filtering distributes over concatenation |
| Models.PreviewsOf | dashboard/views.py:190 | `filter(upload=id)`: at most the records given, each of them and each owned by the upload |
| Models.Without | dashboard/views.py:190 | what `filter(upload=id).delete()` leaves: at most the records given, each of them and none owned by the upload |
| Models.PreviewsOfWithout | dashboard/views.py:190 | after deleting an upload's previews it has none, and other uploads keep theirs |
| Models.PreviewsOfOwned | dashboard/views.py:202-208 | records all created for one upload are its previews and no other upload's |
| Models.PreviewTable.DeleteForUpload | dashboard/views.py:190 | the table loses exactly that upload's records, keeping the order of the rest |
| Models.PreviewTable.Create | dashboard/views.py:202-208 | the table gains exactly the one record, at the end |
| DataFrames.Head | dashboard/views.py:114 | min(k, n) rows, same columns with the same names and dtypes, each column's first cells |
| DataFrames.Cells.Take | dashboard/views.py:114 | min(k, n) cells of the same kind, each the cell of the same row |
| DataFrames.PresentInCount | dashboard/views.py:198 | the present cells among the first k are k minus the missing ones among them |
| DataFrames.RowRecordKeys | dashboard/views.py:114 | a row record's keys are exactly the column names |
| DataFrames.RowRecordAt | dashboard/views.py:114 | under a name no later column repeats, the record holds that column's cell |
| DataFrames.AllNullIff | dashboard/views.py:95-97 | all missing iff no present value iff the missing count is the length |
| DataFrames.NonNullMembers | dashboard/views.py:95-97 | present values are exactly the values of non-missing cells |
| DataFrames.NonNull | dashboard/views.py:95-97 | `dropna()`: as many values as there are non-missing cells |
| DataFrames.Cells.NullCount | dashboard/views.py:98 | `isna().sum()`: at most the length |
| DataFrames.Cells.Present | dashboard/views.py:198 | `dropna().tolist()` as cells: at most the length, none missing |
| DataFrames.PresentIsNonNull | dashboard/views.py:95-97 | the present cells are exactly the values `NonNull` keeps, as number or text cells |
| DataFrames.PresentInIsNumbers | dashboard/views.py:95-97 | the same for the first k rows of a numeric column |
| DataFrames.PresentInIsTexts | dashboard/views.py:102-107 | the same for the first k rows of a text column |
| DataFrames.ColumnNames | dashboard/views.py:115 | `list(df.columns)`: one name per column, in column order |
| DataFrames.Records | dashboard/views.py:114 | `to_dict('records')`: one record per row |
| DataFrames.NonNullAppend | dashboard/views.py:95-97 | dropping missing cells distributes over concatenation |
| DataFrames.PresentCount | dashboard/views.py:198 | the number of present cells is the length minus the missing count |
| DataFrames.PresentInPrefix | dashboard/views.py:198 | the present cells of a shorter prefix are a prefix of those of a longer one |
| DataFrames.PresentInRows | dashboard/views.py:198 | every present cell is the cell of some earlier row |
| ColumnProfile.MinOf | dashboard/views.py:95 | a member of the values and at most each of them |
| ColumnProfile.MaxOf | dashboard/views.py:96 | a member of the values and at least each of them |
| ColumnProfile.Mean | dashboard/views.py:97 | the exact (real-number) mean of the present values: between their minimum and their maximum |
| ColumnProfile.MeanBetween | dashboard/views.py:97 | the mean of values in [lo, hi] lies in [lo, hi] |
| ColumnProfile.SumBounds | dashboard/views.py:97 | the sum of values in [lo, hi] lies in [lo * n, hi * n] |
| ColumnProfile.SumBoundsAt | dashboard/views.py:97 | the same bound, with each value bounded by index |
| ColumnProfile.PercentBounds | dashboard/views.py:99 | nulls / n * 100 is within [0, 100], 0 iff no nulls, 100 iff all null |
| ColumnProfile.PercentOf | dashboard/views.py:99 | the percentage before rounding: within [0, 100]; 0 iff no nulls; 100 iff all null |
| ColumnProfile.NullPercentage | dashboard/views.py:99 | NaN iff the table has no rows; otherwise the percentage before rounding, within [0, 100], 0 iff no nulls, 100 iff all null |
| ColumnProfile.DistinctCard | dashboard/views.py:102 | distinct count at most the number of values, 0 iff none |
| ColumnProfile.Distinct | dashboard/views.py:102 | the values `nunique()` counts: every value of the list and nothing else |
| ColumnProfile.ArgMaxCount | dashboard/views.py:107 | a candidate that no candidate outnumbers |
| ColumnProfile.MostFrequent | dashboard/views.py:107 | `value_counts().index[0]`: a value of the list that no value outnumbers |
| ColumnProfile.CountNonNull | dashboard/views.py:107 | counting a value among present values counts its cells |
| ColumnProfile.CountAppend | dashboard/views.py:107 | counting a value distributes over concatenation |
| ColumnProfile.StatsOf | dashboard/views.py:87-110 | same name and dtype; numeric statistics iff numeric; null count is the column's missing count; the null percentage as above |
| ColumnProfile.NumericStatsSound | dashboard/views.py:91-97 | min/max/mean are N/A iff every cell is missing; otherwise least, greatest and exact mean of the present values, min <= mean <= max |
| ColumnProfile.TextStatsSound | dashboard/views.py:101-107 | unique count of present values, <= n - nulls, 0 iff all missing; most common given iff 0 < unique and 2*unique < n, and then a value of the column that no value outnumbers |
| ColumnProfile.NullStatsSound | dashboard/views.py:98-99 | null count is the missing count; percentage NaN iff no rows, else, before rounding, in [0, 100], 0 iff none missing, 100 iff all missing |
| Views.DisplayFormat | dashboard/views.py:73-76 | Excel iff the extension is .xlsx or .xls, CSV for every other one |
| Views.IngestFormat | dashboard/views.py:167-187 | a reader iff the extension is .xlsx, .xls or .csv, the same one the preview page picks |
| Views.ComputeColumnStats | dashboard/views.py:86-111 | one statistics entry per column, in column order |
| Views.BuildPreview | dashboard/views.py:79-122 | row count, column count, per-column statistics in order, sample rows and column names |
| Views.SampleDataSound | dashboard/views.py:114-115 | first min(50, n) rows in order; keys exactly the column names; each name maps to that row's cell |
| Views.SampleData | dashboard/views.py:114 | `head(50).to_dict('records')`: min(50, n) rows |
| Views.PreviewOf | dashboard/views.py:79-122 | row and column counts, one statistics entry per column with its name, min(50, n) sample rows, the column names in order |
| Views.SampleRowSound | dashboard/views.py:114-115 | the same for one sample row |
| Views.StoredSample | dashboard/views.py:134 | the first min(10, len) sample rows |
| Views.PreviewCache.Lookup | dashboard/views.py:66-125 | a hit returns the cached preview without parsing; a miss parses with the extension's reader, and caches and returns the computed preview; a failed parse changes nothing |
| Views.ProcessExcelFile | dashboard/views.py:159-216 | unsupported extension or failed 100-row read: None, table unchanged; otherwise the upload's old previews are deleted, one record per column is appended in order, and the recount is returned |
| Views.CreatePreviews | dashboard/views.py:193-208 | the table gains one record per column, in column order, and keeps what it had before |
| Views.PreviewsForSnoc | dashboard/views.py:193-208 | one more column appends exactly its record |
| Views.SampleOfSound | dashboard/views.py:198 | a sample is the first min(3, present) present cells, in row order, none missing, each some row's cell |
| Views.SampleOf | dashboard/views.py:198 | `dropna().head(3)`: at most three cells, none missing |
| Views.PreviewsForOwned | dashboard/views.py:193-208 | one record per column, each owned by the processed upload |
| Views.ReprocessedPreviewsOf | dashboard/views.py:189-208 | after processing, the upload's previews are the new records; other uploads' are unchanged |
| Views.ReprocessedPreviewsExact | dashboard/views.py:189-208 | exactly one record per column in order with sheet, name, dtype and sample; no old record left; other uploads untouched |
| Views.WithoutIdempotent | dashboard/views.py:190 | deleting an upload's previews twice is deleting them once |
| Views.OwnedRemoved | dashboard/views.py:190 | deleting an upload's previews removes every record it owns |
| Views.ReprocessingSupersedes | dashboard/views.py:189-208 | processing an upload a second time leaves no trace of the first run: the table is as if only the second had happened |
| Views.IngestSound | dashboard/views.py:167-187 | unsupported extension: nothing read; otherwise the `nrows=100` read in the format the preview page would pick, at most its first 100 rows, sheet "CSV Data" for CSV and the first sheet for Excel |
| Views.Ingest | dashboard/views.py:162-187 | something is read only for a supported extension, and at most 100 rows |
| Views.DottedExtension | dashboard/views.py:167-177 | '.' + x is supported iff x is one of the form's allowed extensions |
| Views.LoweredExtOfStoredName | dashboard/models.py:22-23 | lower-cased, the splitext extension of such a `dir/name` is '.' plus the lower-cased last segment of name |
| Views.LoweredTailFromLastDot | dashboard/models.py:22-23 | lower-cased, a name's tail from its last '.' is '.' plus its lower-cased last segment |
| Views.ExtensionOfComponent | dashboard/models.py:20-24 | a stored `dir/name` with a stem gets '.' plus the lower-cased last segment of name |
| Views.NoStemNoExtension | dashboard/models.py:20-24 | a stored `dir/name` without a stem gets no extension |
| Views.UploadRulesAgree | dashboard/views.py:167-187 | a stored `dir/name` is processed iff the form's rule accepts the stored name and it has a stem before its last '.'; this is the submitted name when Django stores it unchanged |
| Views.ExtensionRulesAgree | dashboard/views.py:167-187 | an extension made of '.' and a name's lower-cased last segment is processed iff the form accepts the name |
| Views.DotCsvAccepted | dashboard/forms.py:36-37 | the form accepts ".csv" |
| Views.DotCsvHasNoStem | dashboard/models.py:22 | ".csv" has no character other than '.' before a '.' |
| Views.DotCsvPassesFormOnly | dashboard/forms.py:36-37 | ".csv" passes the form, but stored as "uploads/.csv" has no extension and is not processed |
| Views.SanitisedStemLost | dashboard/models.py:9 | "$.csv" passes the form and has a stem, yet its sanitised stored form "uploads/.csv" is not processed |
| Utils.MetaGet | dashboard/utils.py:17 | the header's value iff present |
| Utils.RequestUser | dashboard/utils.py:12-14 | the username iff the user is authenticated, else None |
| Utils.ClientIp | dashboard/utils.py:16-21 | with a non-empty X-Forwarded-For header, its prefix up to the first ',', itself without ','; else REMOTE_ADDR, possibly missing |
| Utils.ClientIpOfChain | dashboard/utils.py:17-19 | a chain "client,proxies" gives the client |
| Utils.ClientIpSingle | dashboard/utils.py:17-19 | a header naming one address gives that address |
| Utils.RecordFor | dashboard/utils.py:12-33 | the given action type and description, the derived user and address, the user agent as sent |
| Utils.ActivityLogTable.Create | dashboard/utils.py:27-33 | exactly one record is appended |
| Utils.LogActivity | dashboard/utils.py:3-33 | exactly one record is appended, carrying the given action type and description, the derived user and address and the user agent |
| CustomFilters.GetItem | dashboard/templatetags/custom_filters.py:11 | the value under a present key, '' for an absent one |
| CustomFilters.GetItemUpdate | dashboard/templatetags/custom_filters.py:11 | lookups see an update of their key and no other |
| CustomFilters.SubtractFrom | dashboard/templatetags/custom_filters.py:14-23 | for numbers, arg - value, an int iff both are int or bool; anything else gives 0 |
| CustomFilters.SubtractFromHundred | dashboard/templatetags/custom_filters.py:17-18 | the documented use with argument 100 gives 100 - value |
| CustomFilters.SubtractFromTwice | dashboard/templatetags/custom_filters.py:20-21 | for int or bool operands, subtracting from the same argument twice gives the value back as an int |
| CustomFilters.SubtractFromNonNumber | dashboard/templatetags/custom_filters.py:22-23 | a text or None operand gives 0 |

## Left out

- HTTP handling and templates: `render`, `redirect`, `messages`, `index`, `upload_file`, `DataUploadListView`, URL routing, the admin and the form layout. These are framework wiring.
- `debug_upload`: it probes and writes the file system.
- File parsing: `pd.read_excel`, `pd.read_csv` and `pd.ExcelFile` are the `parse` and `firstSheet` parameters. The row recount that re-reads the file is the `recount` parameter.
- `memory_usage(deep=True)`: a pandas estimate. `DatasetStats` has no memory field.
- DataFrames.Frame: columns may share a name. pandas' readers rename duplicate headers ("a", "a.1"), so such tables do not come from the parsers. On such a table `df[col]` selects several columns at once, and the statistics and preview code would raise or behave differently. The model computes each column's statistics on its own, and a sample record keeps the last column under a repeated name. These are cases the parsers never produce.
- Column dtypes are opaque strings. Whether a column is numeric is its `Cells` variant.
- Views.ProcessExcelFile: the `nrows=100` read is its own parameter, `readHead`, apart from the preview page's full read `parse`. The model does not relate the two. In pandas they can disagree: a CSV whose row 150 has an extra field fails the full read and passes the 100-row one, so the preview page fails while processing rewrites the previews. They can also infer different dtypes, because one sees 100 rows and the other the whole file.
- Floating point: means and percentages are exact reals. Rounding to 2 decimals and IEEE summation are not modelled.
- ColumnProfile.Mean: min <= mean <= max is proved for the exact mean only. With IEEE doubles it can fail: `pd.Series([0.1, 0.1, 0.1]).mean()` is 0.10000000000000002, above the maximum 0.1.
- ColumnProfile.NullPercentage: "0 iff no nulls" and "100 iff all null" are proved before the rounding to 2 decimals. After `round(..., 2)` neither holds: one null in 100000 rows gives 0.0, and 99999 nulls in 100000 rows give 100.0. The same holds for ColumnProfile.PercentOf, ColumnProfile.PercentBounds and ColumnProfile.NullStatsSound.
- Views.PreviewCache.Lookup: the cache has no expiry (`CACHE_TIMEOUT`) and no eviction.
- The `update_or_create` in `data_preview` is a no-op. It names fields the preview model does not have, so it raises, and the error is caught and printed. `StoredSample` models only the rows it would have stored.
- Views.ProcessExcelFile: JSON serialisation of samples is not modelled. A value `json.dumps` rejects, such as a timestamp, would raise mid-loop. The model does not capture the partly rewritten table that leaves behind.
- Views.ProcessExcelFile: the `chunksize` local is never used and is not modelled.
- Models.DataUpload.Filename: Django storage's renaming of clashing uploads is not modelled. The stored name is an input.
- Views.UploadRulesAgree: the lemma judges the name as stored. Before saving, Django's `get_valid_filename` strips the name, turns spaces into '_' and drops every character other than letters, digits, '-', '_' and '.'. When that changes the name, the form's verdict on the submitted name and the processing verdict on the stored one are not tied by the lemma. `Views.SanitisedStemLost` gives "$.csv", which passes the form with a stem, is stored as ".csv" and is not processed. The sanitising step itself is not modelled.
- Models.DataUpload.GetExtension: the extension is lower-cased in ASCII only. For a non-ASCII extension the value differs from Python's `.lower()`: "x.Ä" gives ".Ä" here and ".ä" in Python. Whether the processing step reads the file is unaffected, as the Strings.Lower line explains.
- Strings.Lower: only ASCII letters are lower-cased. This is exact for the membership test against "xlsx", "xls" and "csv", except for U+212A KELVIN SIGN, which Python lower-cases to 'k'. None of the three extensions contains a 'k'.
- ColumnProfile.MostFrequent: `value_counts()` orders equal counts in a way the model does not fix. The model takes the first-seen value among the most frequent. The proved property, that no value outnumbers it, holds for either choice.
- Utils: `ActivityLog` is not defined in models.py, so `from .models import ActivityLog` fails at import time. The record's fields are those `log_activity` passes, and the log table lives in the `Utils` module.
- CustomFilters.SubtractFrom: Python floats are modelled as exact reals. IEEE rounding, inf and NaN are not represented. Neither is the `OverflowError` that int-minus-float raises for an int beyond the float range; `except (ValueError, TypeError)` does not catch it, so the filter raises where the model returns a `Float`.
- CustomFilters.SubtractFromTwice: the round trip is stated only for int and bool operands. With floats it fails in Python: `subtract_from(subtract_from(1.0, 1e16), 1e16)` is 0.0.
- CustomFilters.SubtractFrom: only None, bool, int, float and str values are modelled. Python also subtracts sets, `Decimal`s and dates, and `ValueError`-raising types are not modelled.
