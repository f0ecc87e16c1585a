/**
 * The data-handling part of the dashboard's views: the preview a page shows
 * for an upload (statistics, sample rows, column names, cached per upload)
 * and the processing step that replaces an upload's stored column previews.
 * Parsing a file is a foreign call. The preview page's `parse` stands for the
 * reader of the chosen format applied to the whole stored file; processing's
 * `readHead` stands for the same reader called with `nrows=100`, which stops
 * after row 100. Each is `None` when its read raises. They are separate
 * parameters because they can disagree: a file whose row 150 is malformed
 * fails the full read and passes the 100-row one.
 */
module Views {
  import opened Wrappers
  import opened Strings
  import opened PosixPath
  import opened DataFrames
  import opened ColumnProfile
  import opened Models
  import opened Forms

  const PreviewSampleRows: nat := 50
  const StoredPreviewRows: nat := 10
  const IngestRowLimit: nat := 100
  const PersistedSampleSize: nat := 3
  const CsvSheetName := "CSV Data"

  /** The reader a stored file is parsed with. */
  datatype Format = Excel | Csv

  /** `data_preview`: '.xlsx' and '.xls' are read as Excel, every other extension as CSV. */
  function DisplayFormat(ext: string): (f: Format)
    ensures f == Excel <==> ext == ".xlsx" || ext == ".xls"
  {
    if ext in [".xlsx", ".xls"] then Excel else Csv
  }

  /**
   * `process_excel_file`: '.xlsx' and '.xls' are read as Excel, '.csv' as CSV,
   * and any other extension is not processed. Where it reads a file it uses the
   * format the preview page would pick.
   */
  function IngestFormat(ext: string): (f: Option<Format>)
    ensures f.Some? <==> ext == ".xlsx" || ext == ".xls" || ext == ".csv"
    ensures f.Some? ==> f.value == DisplayFormat(ext)
  {
    if ext in [".xlsx", ".xls"] then Some(Excel)
    else if ext == ".csv" then Some(Csv)
    else None
  }

  // ---------------------------------------------------------------------------
  // The preview page (data_preview)
  // ---------------------------------------------------------------------------

  /** Row and column counts of a table (the memory estimate is not modelled). */
  datatype DatasetStats = DatasetStats(rowCount: nat, columnCount: nat)

  /** What the preview page shows, and what is cached for an upload. */
  datatype PreviewData = PreviewData(
    stats: DatasetStats, columnStats: seq<ColumnStats>, sampleData: seq<map<string, Cell>>, columns: seq<string>)

  /** The statistics of every column, in column order. */
  function AllColumnStats(f: Frame): seq<ColumnStats> {
    seq(|f.columns|, i requires 0 <= i < |f.columns| => StatsOf(f.columns[i]))
  }

  /** `df.head(50).to_dict('records')`. */
  function SampleData(f: Frame): (r: seq<map<string, Cell>>)
    ensures |r| == Min(PreviewSampleRows, f.rowCount)
  {
    Records(Head(f, PreviewSampleRows))
  }

  /** The preview of a table, as the page computes it on a cache miss. */
  function PreviewOf(f: Frame): (p: PreviewData)
    ensures p.stats.rowCount == f.rowCount && p.stats.columnCount == |f.columns|
    ensures |p.columnStats| == |f.columns|
    ensures forall i :: 0 <= i < |f.columns| ==> p.columnStats[i].name == f.columns[i].name
    ensures |p.sampleData| == Min(PreviewSampleRows, f.rowCount)
    ensures |p.columns| == |f.columns|
    ensures forall i :: 0 <= i < |f.columns| ==> p.columns[i] == f.columns[i].name
  {
    PreviewData(DatasetStats(f.rowCount, |f.columns|), AllColumnStats(f), SampleData(f), ColumnNames(f))
  }

  /** The statistics loop: one entry per column, appended in column order. */
  method ComputeColumnStats(f: Frame) returns (columnStats: seq<ColumnStats>)
    ensures |columnStats| == |f.columns|
    ensures forall i :: 0 <= i < |f.columns| ==> columnStats[i] == StatsOf(f.columns[i])
  {
    columnStats := [];
    for i := 0 to |f.columns|
      invariant |columnStats| == i
      invariant forall k :: 0 <= k < i ==> columnStats[k] == StatsOf(f.columns[k])
    {
      columnStats := columnStats + [StatsOf(f.columns[i])];
    }
  }

  /** Computes a table's preview: counts, column statistics, sample rows and column names. */
  method BuildPreview(f: Frame) returns (p: PreviewData)
    ensures p.stats == DatasetStats(f.rowCount, |f.columns|)
    ensures |p.columnStats| == |f.columns|
    ensures forall i :: 0 <= i < |f.columns| ==> p.columnStats[i] == StatsOf(f.columns[i])
    ensures p.sampleData == SampleData(f)
    ensures p.columns == ColumnNames(f)
    ensures p == PreviewOf(f)
  {
    var columnStats := ComputeColumnStats(f);
    p := PreviewData(DatasetStats(f.rowCount, |f.columns|), columnStats, SampleData(f), ColumnNames(f));
  }

  /**
   * The sample holds the first min(50, n) rows in order; each row has a key
   * for every column name and no other key, and under a name no later column
   * repeats it holds that column's cell of the row.
   */
  lemma SampleDataSound(f: Frame)
    ensures |SampleData(f)| == Min(PreviewSampleRows, f.rowCount)
    ensures forall r, j :: 0 <= r < |SampleData(f)| && 0 <= j < |f.columns| ==> f.columns[j].name in SampleData(f)[r]
    ensures forall r, k :: 0 <= r < |SampleData(f)| && k in SampleData(f)[r] ==>
      exists j :: 0 <= j < |f.columns| && f.columns[j].name == k
    ensures forall r, j :: 0 <= r < |SampleData(f)| && 0 <= j < |f.columns| && LastWithName(f.columns, j) ==>
      SampleData(f)[r][f.columns[j].name] == f.columns[j].cells.At(r)
  {
    forall r | 0 <= r < |SampleData(f)|
      ensures forall j :: 0 <= j < |f.columns| ==> f.columns[j].name in SampleData(f)[r]
      ensures forall k :: k in SampleData(f)[r] ==> exists j :: 0 <= j < |f.columns| && f.columns[j].name == k
      ensures forall j :: 0 <= j < |f.columns| && LastWithName(f.columns, j) ==>
        SampleData(f)[r][f.columns[j].name] == f.columns[j].cells.At(r)
    {
      SampleRowSound(f, r);
    }
  }

  /** One row of the sample: its keys are the column names, each holding the last such column's cell. */
  lemma SampleRowSound(f: Frame, r: nat)
    requires r < Min(PreviewSampleRows, f.rowCount)
    ensures r < |SampleData(f)|
    ensures forall j :: 0 <= j < |f.columns| ==> f.columns[j].name in SampleData(f)[r]
    ensures forall k :: k in SampleData(f)[r] ==> exists j :: 0 <= j < |f.columns| && f.columns[j].name == k
    ensures forall j :: 0 <= j < |f.columns| && LastWithName(f.columns, j) ==>
      SampleData(f)[r][f.columns[j].name] == f.columns[j].cells.At(r)
  {
    var h := Head(f, PreviewSampleRows);
    assert SampleData(f)[r] == RowRecord(h.columns, r);
    RowRecordKeys(h.columns, r);
    forall k | k in SampleData(f)[r] ensures exists j :: 0 <= j < |f.columns| && f.columns[j].name == k {
      var j :| 0 <= j < |h.columns| && h.columns[j].name == k;
      assert f.columns[j].name == k;
    }
    forall j | 0 <= j < |f.columns| && LastWithName(f.columns, j)
      ensures SampleData(f)[r][f.columns[j].name] == f.columns[j].cells.At(r)
    {
      assert LastWithName(h.columns, j);
      RowRecordAt(h.columns, r, j);
    }
  }

  /** `sample_data[:10]`, the rows the page tries to store besides caching them. */
  function StoredSample(sample: seq<map<string, Cell>>): (r: seq<map<string, Cell>>)
    ensures |r| == Min(StoredPreviewRows, |sample|)
    ensures r <= sample
  {
    sample[..Min(StoredPreviewRows, |sample|)]
  }

  /** The per-upload preview cache (without expiry). */
  class PreviewCache {
    var entries: map<nat, PreviewData>

    constructor ()
      ensures entries == map[]
    {
      entries := map[];
    }

    /**
     * `data_preview` for `upload`: a cached preview is returned as it is and
     * nothing is parsed; otherwise the file is parsed with the reader its
     * extension selects, the preview is computed and cached. `None` stands for
     * a parse that raised, which leaves the cache unchanged.
     */
    method Lookup(upload: DataUpload, parse: Format -> Option<Frame>) returns (r: Option<PreviewData>)
      modifies this
      ensures upload.id in old(entries) ==> r == Some(old(entries)[upload.id]) && entries == old(entries)
      ensures upload.id !in old(entries) ==>
        var parsed := parse(DisplayFormat(upload.GetExtension()));
        && (parsed.None? ==> r.None? && entries == old(entries))
        && (parsed.Some? ==> r == Some(PreviewOf(parsed.value)) && entries == old(entries)[upload.id := r.value])
    {
      if upload.id in entries {
        return Some(entries[upload.id]);
      }
      var parsed := parse(DisplayFormat(upload.GetExtension()));
      if parsed.None? {
        return None;
      }
      var preview := BuildPreview(parsed.value);
      entries := entries[upload.id := preview];
      r := Some(preview);
    }
  }

  // ---------------------------------------------------------------------------
  // Processing an upload (process_excel_file)
  // ---------------------------------------------------------------------------

  /** `df[column].dropna().head(3).tolist()`: the column's first present cells, at most three. */
  function SampleOf(column: Column): (r: seq<Cell>)
    ensures |r| <= PersistedSampleSize
    ensures forall i :: 0 <= i < |r| ==> r[i] != Null
  {
    var present := column.cells.Present();
    present[..Min(PersistedSampleSize, |present|)]
  }

  /** The preview record created for one column. */
  function PreviewFor(id: nat, sheet: string, column: Column): DataPreview {
    DataPreview(id, sheet, column.name, column.dtype, SampleOf(column))
  }

  /** The records created for the columns of a table, in column order. */
  function PreviewsFor(id: nat, sheet: string, columns: seq<Column>): seq<DataPreview> {
    seq(|columns|, i requires 0 <= i < |columns| => PreviewFor(id, sheet, columns[i]))
  }

  /**
   * What processing reads for `upload`: the sheet name and the at most 100
   * rows `nrows=100` yields, or `None` when the extension is unsupported or
   * that read raises. `firstSheet` is the workbook's first sheet name, `None`
   * when the workbook cannot be opened or has no sheet.
   */
  function Ingest(upload: DataUpload, firstSheet: Option<string>, readHead: Format -> Option<Frame>): (r: Option<(string, Frame)>)
    ensures r.Some? ==> IngestFormat(upload.GetExtension()).Some? && r.value.1.rowCount <= IngestRowLimit
  {
    match IngestFormat(upload.GetExtension())
    case None => None
    case Some(Excel) =>
      if firstSheet.None? || readHead(Excel).None? then None
      else Some((firstSheet.value, Head(readHead(Excel).value, IngestRowLimit)))
    case Some(Csv) =>
      if readHead(Csv).None? then None
      else Some((CsvSheetName, Head(readHead(Csv).value, IngestRowLimit)))
  }

  /**
   * `process_excel_file`. An unsupported extension or a failed read returns
   * `None` and leaves the preview table as it was. Otherwise the upload's old
   * previews are deleted and one record per column of the first 100 rows is
   * created, in column order; the result is the foreign row recount
   * (`recount`), `None` when that re-read raises.
   */
  method ProcessExcelFile(
    upload: DataUpload, table: PreviewTable, firstSheet: Option<string>,
    readHead: Format -> Option<Frame>, recount: Option<nat>)
    returns (totalRows: Option<nat>)
    modifies table
    ensures match Ingest(upload, firstSheet, readHead)
      case None => totalRows.None? && table.records == old(table.records)
      case Some((sheet, df)) =>
        && totalRows == recount
        && table.records == Without(old(table.records), upload.id) + PreviewsFor(upload.id, sheet, df.columns)
  {
    var ext := upload.GetExtension();
    IngestBranches(upload, firstSheet, readHead);
    var sheet: string;
    var df: Frame;
    if ext in [".xlsx", ".xls"] {
      if firstSheet.None? {
        return None;
      }
      var parsed := readHead(Excel);
      if parsed.None? {
        return None;
      }
      sheet, df := firstSheet.value, Head(parsed.value, IngestRowLimit);
    } else if ext == ".csv" {
      var parsed := readHead(Csv);
      if parsed.None? {
        return None;
      }
      sheet, df := CsvSheetName, Head(parsed.value, IngestRowLimit);
    } else {
      return None;
    }
    assert Ingest(upload, firstSheet, readHead) == Some((sheet, df));
    table.DeleteForUpload(upload.id);
    CreatePreviews(table, upload.id, sheet, df.columns);
    totalRows := recount;
  }

  /** The loop over the columns: one record per column, appended in column order. */
  method CreatePreviews(table: PreviewTable, id: nat, sheet: string, columns: seq<Column>)
    modifies table
    ensures table.records == old(table.records) + PreviewsFor(id, sheet, columns)
  {
    ghost var remaining := table.records;
    for i := 0 to |columns|
      invariant table.records == remaining + PreviewsFor(id, sheet, columns[..i])
    {
      var column := columns[i];
      table.Create(DataPreview(id, sheet, column.name, column.dtype, SampleOf(column)));
      PreviewsForSnoc(id, sheet, columns, i);
    }
    assert columns[..|columns|] == columns;
  }

  /** How `Ingest` follows the branches on the extension that processing takes. */
  lemma IngestBranches(upload: DataUpload, firstSheet: Option<string>, readHead: Format -> Option<Frame>)
    ensures upload.GetExtension() in [".xlsx", ".xls"] ==>
      Ingest(upload, firstSheet, readHead) ==
        if firstSheet.None? || readHead(Excel).None? then None
        else Some((firstSheet.value, Head(readHead(Excel).value, IngestRowLimit)))
    ensures upload.GetExtension() == ".csv" ==>
      Ingest(upload, firstSheet, readHead) ==
        if readHead(Csv).None? then None else Some((CsvSheetName, Head(readHead(Csv).value, IngestRowLimit)))
    ensures upload.GetExtension() !in [".xlsx", ".xls", ".csv"] ==> Ingest(upload, firstSheet, readHead).None?
  {
  }

  /** Creating the records column by column: one more column appends its record. */
  lemma PreviewsForSnoc(id: nat, sheet: string, columns: seq<Column>, i: nat)
    requires i < |columns|
    ensures PreviewsFor(id, sheet, columns[..i + 1]) == PreviewsFor(id, sheet, columns[..i]) + [PreviewFor(id, sheet, columns[i])]
  {
  }

  /**
   * A column's persisted sample is its first min(3, present) present cells:
   * a prefix of the present cells in row order, none missing, each the cell
   * of some row.
   */
  lemma SampleOfSound(column: Column)
    ensures |SampleOf(column)| == Min(PersistedSampleSize, column.cells.Length() - column.cells.NullCount())
    ensures SampleOf(column) <= column.cells.Present()
    ensures forall i :: 0 <= i < |SampleOf(column)| ==> SampleOf(column)[i] != Null
    ensures forall i :: 0 <= i < |SampleOf(column)| ==>
      exists r :: 0 <= r < column.cells.Length() && column.cells.At(r) == SampleOf(column)[i]
  {
    PresentCount(column.cells);
    PresentInRows(column.cells, column.cells.Length());
    var s := SampleOf(column);
    forall i | 0 <= i < |s| ensures exists r :: 0 <= r < column.cells.Length() && column.cells.At(r) == s[i] {
      assert s[i] == column.cells.Present()[i];
    }
  }

  /** Every record created for a table's columns belongs to the processed upload. */
  lemma PreviewsForOwned(id: nat, sheet: string, columns: seq<Column>)
    ensures |PreviewsFor(id, sheet, columns)| == |columns|
    ensures forall i :: 0 <= i < |columns| ==> PreviewsFor(id, sheet, columns)[i].upload == id
  {
  }

  /**
   * After processing, filtering the table by an upload gives the new records
   * for the processed upload and the old records for every other one.
   */
  lemma ReprocessedPreviewsOf(before: seq<DataPreview>, id: nat, sheet: string, columns: seq<Column>, u: nat)
    ensures PreviewsOf(Without(before, id) + PreviewsFor(id, sheet, columns), u)
      == if u == id then PreviewsFor(id, sheet, columns) else PreviewsOf(before, u)
  {
    var created := PreviewsFor(id, sheet, columns);
    var kept := Without(before, id);
    PreviewsForOwned(id, sheet, columns);
    SelectAppend(kept, created, u, true);
    assert PreviewsOf(kept + created, u) == PreviewsOf(kept, u) + PreviewsOf(created, u);
    PreviewsOfWithout(before, id, u);
    PreviewsOfOwned(created, id, u);
    if u == id {
      assert PreviewsOf(kept, u) == [] && PreviewsOf(created, u) == created;
    } else {
      assert PreviewsOf(kept, u) == PreviewsOf(before, u) && PreviewsOf(created, u) == [];
    }
  }

  /**
   * After processing, the upload's previews are exactly one record per column,
   * in column order, with no old record left; every other upload keeps its
   * previews.
   */
  lemma ReprocessedPreviewsExact(before: seq<DataPreview>, id: nat, sheet: string, columns: seq<Column>)
    ensures var rs := Without(before, id) + PreviewsFor(id, sheet, columns);
      && |PreviewsOf(rs, id)| == |columns|
      && (forall i :: 0 <= i < |columns| ==>
            PreviewsOf(rs, id)[i] == DataPreview(id, sheet, columns[i].name, columns[i].dtype, SampleOf(columns[i])))
      && (forall u :: u != id ==> PreviewsOf(rs, u) == PreviewsOf(before, u))
  {
    ReprocessedPreviewsOf(before, id, sheet, columns, id);
    forall u | u != id
      ensures PreviewsOf(Without(before, id) + PreviewsFor(id, sheet, columns), u) == PreviewsOf(before, u)
    {
      ReprocessedPreviewsOf(before, id, sheet, columns, u);
    }
  }

  /** Deleting an upload's previews twice is deleting them once. */
  lemma {:induction false} WithoutIdempotent(rs: seq<DataPreview>, id: nat)
    ensures Without(Without(rs, id), id) == Without(rs, id)
  {
    if rs != [] {
      var init := rs[..|rs| - 1];
      var last := rs[|rs| - 1];
      WithoutIdempotent(init, id);
      SelectAppend(Without(init, id), if last.upload != id then [last] else [], id, false);
    }
  }

  /**
   * Processing an upload again supersedes the previous processing: the table
   * is what processing the new table alone would give, with no residue of the
   * earlier previews.
   */
  lemma ReprocessingSupersedes(rs: seq<DataPreview>, id: nat, sheetA: string, a: seq<Column>, sheetB: string, b: seq<Column>)
    ensures var once := Without(rs, id) + PreviewsFor(id, sheetA, a);
      Without(once, id) + PreviewsFor(id, sheetB, b) == Without(rs, id) + PreviewsFor(id, sheetB, b)
  {
    var created := PreviewsFor(id, sheetA, a);
    SelectAppend(Without(rs, id), created, id, false);
    WithoutIdempotent(rs, id);
    OwnedRemoved(created, id);
  }

  /** Records that all belong to upload `id` are all removed by deleting its previews. */
  lemma {:induction false} OwnedRemoved(rs: seq<DataPreview>, id: nat)
    requires forall i :: 0 <= i < |rs| ==> rs[i].upload == id
    ensures Without(rs, id) == []
  {
    if rs != [] {
      OwnedRemoved(rs[..|rs| - 1], id);
    }
  }

  /**
   * Processing reads only a supported extension, in the format the preview
   * page would pick, and keeps at most the first 100 rows of what it reads.
   */
  lemma IngestSound(upload: DataUpload, firstSheet: Option<string>, readHead: Format -> Option<Frame>)
    ensures IngestFormat(upload.GetExtension()).None? ==> Ingest(upload, firstSheet, readHead).None?
    ensures Ingest(upload, firstSheet, readHead).Some? ==>
      var (sheet, df) := Ingest(upload, firstSheet, readHead).value;
      var format := DisplayFormat(upload.GetExtension());
      && IngestFormat(upload.GetExtension()) == Some(format)
      && readHead(format).Some?
      && df == Head(readHead(format).value, IngestRowLimit)
      && df.rowCount <= IngestRowLimit
      && df.rowCount == Min(IngestRowLimit, readHead(format).value.rowCount)
      && (format == Csv ==> sheet == CsvSheetName)
      && (format == Excel ==> Some(sheet) == firstSheet)
  {
  }

  /** An extension of the form '.' + x is supported exactly when x is an allowed form extension. */
  lemma DottedExtension(ext: string, x: string)
    requires ext == "." + x
    ensures IngestFormat(ext).Some? <==> x in AllowedExtensions
  {
    assert ext[1..] == x;
  }

  /** Lower-cased, the splitext extension of `dir/name` is '.' plus the lower-cased last '.'-segment of `name`. */
  lemma LoweredExtOfStoredName(dir: string, name: string)
    requires '/' !in name
    requires HasStemBeforeDot(name)
    ensures Lower(SplitExt(dir + "/" + name).1) == "." + Lower(name[RFind(name, '.') + 1..])
  {
    SplitExtOfComponent(dir, name);
    LoweredTailFromLastDot(SplitExt(dir + "/" + name).1, name);
  }

  /** Lower-cased, a name's tail from its last '.' is '.' plus its lower-cased last '.'-segment. */
  lemma LoweredTailFromLastDot(ext: string, name: string)
    requires 0 <= RFind(name, '.')
    requires ext == name[RFind(name, '.')..]
    ensures Lower(ext) == "." + Lower(name[RFind(name, '.') + 1..])
  {
    TailFromLastDot(name);
    LowerDotPrefix(ext, name[RFind(name, '.') + 1..]);
  }

  /** Stored as `dir/name`, a name with a stem before a '.' has '.' plus its lower-cased last segment as extension. */
  lemma ExtensionOfComponent(dir: string, name: string, upload: DataUpload)
    requires '/' !in name && upload.fileName == dir + "/" + name
    requires HasStemBeforeDot(name)
    ensures upload.GetExtension() == "." + Lower(name[RFind(name, '.') + 1..])
  {
    GetExtensionOfFile(upload);
    LoweredExtOfStoredName(dir, name);
  }

  /** Stored as `dir/name`, a name without a stem before a '.' has no extension. */
  lemma NoStemNoExtension(dir: string, name: string, upload: DataUpload)
    requires '/' !in name && upload.fileName == dir + "/" + name
    requires !HasStemBeforeDot(name)
    ensures upload.GetExtension() == ""
  {
    BasenameOfComponent(dir, name);
    GetExtensionNonEmptyIff(upload);
  }

  /**
   * The form and the processing step judge a client file name alike exactly
   * when the name has a character other than '.' before its last '.'. Stored
   * under `dir/`, a name is processed iff the form accepts it and it has such
   * a stem; names like ".csv" or "csv" pass the form but get no extension.
   * `name` is the name as stored, which is the submitted one when Django's
   * storage saves it unchanged (see `SanitisedStemLost`).
   */
  lemma UploadRulesAgree(dir: string, name: string, upload: DataUpload)
    requires '/' !in name && upload.fileName == dir + "/" + name
    ensures IngestFormat(upload.GetExtension()).Some? <==> AcceptsName(name) && HasStemBeforeDot(name)
  {
    if HasStemBeforeDot(name) {
      ExtensionOfComponent(dir, name, upload);
      ExtensionRulesAgree(name, upload.GetExtension(), Lower(name[RFind(name, '.') + 1..]));
    } else {
      NoStemNoExtension(dir, name, upload);
    }
  }

  /**
   * An extension made of '.' and the lower-cased last '.'-segment of a name is
   * read by the processing step exactly when the form accepts the name.
   */
  lemma ExtensionRulesAgree(name: string, ext: string, x: string)
    requires x == Lower(name[RFind(name, '.') + 1..])
    requires ext == "." + x
    ensures IngestFormat(ext).Some? <==> AcceptsName(name)
  {
    AcceptsNameIff(name);
    DottedExtension(ext, x);
  }

  /** ".csv" passes the form, yet stored as "uploads/.csv" it has no extension and is not processed. */
  lemma DotCsvPassesFormOnly(upload: DataUpload)
    requires upload.fileName == "uploads/.csv"
    ensures CleanFile(Some(".csv")) == Ok(Some(".csv"))
    ensures upload.GetExtension() == ""
    ensures IngestFormat(upload.GetExtension()).None?
  {
    DotCsvAccepted();
    DotCsvHasNoStem();
    assert "uploads/.csv" == "uploads" + "/" + ".csv";
    NoStemNoExtension("uploads", ".csv", upload);
  }

  /**
   * "$.csv" passes the form and has a stem, so judged on the submitted name
   * the two rules agree that it is processed. Django's storage drops the '$'
   * when it saves the file, and the stored "uploads/.csv" is not processed.
   */
  lemma SanitisedStemLost(upload: DataUpload)
    requires upload.fileName == "uploads/.csv"
    ensures CleanFile(Some("$.csv")) == Ok(Some("$.csv"))
    ensures HasStemBeforeDot("$.csv")
    ensures IngestFormat(upload.GetExtension()).None?
  {
    RFindUnique("$.csv", '.', 1);
    AcceptsNameIff("$.csv");
    assert "$.csv"[2..] == "csv";
    assert Lower("csv") == "csv";
    assert "$.csv"[0] != '.' && "$.csv"[1] == '.';
    DotCsvPassesFormOnly(upload);
  }

  /** The form accepts ".csv": its last '.'-segment is "csv". */
  lemma DotCsvAccepted()
    ensures CleanFile(Some(".csv")) == Ok(Some(".csv"))
  {
    RFindUnique(".csv", '.', 0);
    AcceptsNameIff(".csv");
    assert ".csv"[1..] == "csv";
    assert Lower("csv") == "csv";
  }

  /** ".csv" has nothing but '.' before its only '.'. */
  lemma DotCsvHasNoStem()
    ensures !HasStemBeforeDot(".csv")
  {
    assert forall j :: 0 < j < 4 ==> ".csv"[j] != '.';
  }
}
