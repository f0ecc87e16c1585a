/**
 * The two database models of the dashboard: an uploaded file and the
 * per-column preview records extracted from it, with the preview table as a
 * store whose contents the processing step replaces.
 */
module Models {
  import opened Wrappers
  import opened Strings
  import opened PosixPath
  import opened DataFrames

  const NoFileLabel := "No file"

  /**
   * An upload record. `fileName` is the stored name relative to the media
   * root (for instance "uploads/2024/05/01/sales.xlsx"); it is "" when no file
   * is attached, which is when the file field is falsy.
   */
  datatype DataUpload = DataUpload(id: nat, title: string, description: Option<string>, fileName: string)
  {
    predicate HasFile() {
      fileName != ""
    }

    /** `__str__`: the title. */
    function ToString(): (r: string)
      ensures r == title
    {
      title
    }

    /**
     * The stored name's last path component, or "No file". The component is a
     * suffix of the stored name without '/', preceded by a '/' when the name
     * has one and equal to the whole name otherwise.
     */
    function Filename(): (r: string)
      ensures !HasFile() ==> r == NoFileLabel
      ensures HasFile() ==>
        && '/' !in r
        && |r| <= |fileName| && fileName[|fileName| - |r|..] == r
        && ('/' in fileName ==> |r| < |fileName| && fileName[|fileName| - |r| - 1] == '/')
        && ('/' !in fileName ==> r == fileName)
    {
      if HasFile() then Basename(fileName) else NoFileLabel
    }

    /**
     * The stored name's extension, lower-cased: "" without a file; otherwise
     * either "" or a '.' followed by no other '.' and no '/'.
     */
    function GetExtension(): (r: string)
      ensures !HasFile() ==> r == ""
      ensures IsLowerCase(r)
      ensures r == "" || (r[0] == '.' && '.' !in r[1..] && '/' !in r)
    {
      if HasFile() then
        var ext := SplitExt(fileName).1;
        assert forall i :: 0 <= i < |ext| ==> (Lower(ext)[i] == '.' <==> ext[i] == '.');
        assert forall i :: 0 <= i < |ext| ==> (Lower(ext)[i] == '/' <==> ext[i] == '/');
        Lower(ext)
      else
        ""
    }
  }

  /** The extension is always the lower-cased tail of the stored name. */
  lemma GetExtensionIsLoweredTail(u: DataUpload)
    ensures |u.GetExtension()| <= |u.fileName|
    ensures u.GetExtension() == Lower(u.fileName[|u.fileName| - |u.GetExtension()|..])
  {
    if u.HasFile() {
      var ext := SplitExt(u.fileName).1;
      assert u.fileName[|u.fileName| - |ext|..] == ext;
    }
  }

  /** With a file attached, the extension is the lower-cased `os.path.splitext` extension of the stored name. */
  lemma GetExtensionOfFile(u: DataUpload)
    requires u.HasFile()
    ensures u.GetExtension() == Lower(SplitExt(u.fileName).1)
  {
  }

  /**
   * A non-empty extension exists exactly when the last path component has a
   * character other than '.' before some '.': "uploads/.csv" and "..csv" both
   * have the extension "".
   */
  lemma GetExtensionNonEmptyIff(u: DataUpload)
    ensures u.GetExtension() != "" <==> HasStemBeforeDot(Basename(u.fileName))
  {
    SplitExtNonEmptyIff(u.fileName);
  }

  /**
   * A preview record: one column of one upload, with the column's dtype name
   * and a short sample of its values. `upload` is the id of the owning upload.
   */
  datatype DataPreview = DataPreview(
    upload: nat, sheetName: string, columnName: string, columnDataType: string, sampleData: seq<Cell>)
  {
    /** `__str__`: the owning upload's title, " - ", then the column name. */
    function ToString(owner: DataUpload): (r: string)
      requires owner.id == upload
      ensures |r| == |owner.title| + 3 + |columnName|
      ensures r[..|owner.title|] == owner.title
      ensures r[|owner.title|..|owner.title| + 3] == " - "
      ensures r[|owner.title| + 3..] == columnName
    {
      owner.title + " - " + columnName
    }
  }

  /** The records of `rs` that belong to upload `id` (`owned`) or to any other upload (`!owned`), in order. */
  function Select(rs: seq<DataPreview>, id: nat, owned: bool): (r: seq<DataPreview>)
    ensures |r| <= |rs|
    ensures forall i :: 0 <= i < |r| ==> (r[i].upload == id) == owned && r[i] in rs
  {
    if rs == [] then []
    else
      var init := rs[..|rs| - 1];
      var last := rs[|rs| - 1];
      assert forall p :: p in init ==> p in rs;
      Select(init, id, owned) + (if (last.upload == id) == owned then [last] else [])
  }

  lemma {:induction false} SelectAppend(a: seq<DataPreview>, b: seq<DataPreview>, id: nat, owned: bool)
    ensures Select(a + b, id, owned) == Select(a, id, owned) + Select(b, id, owned)
  {
    if b == [] {
      assert a + b == a;
    } else {
      var b' := b[..|b| - 1];
      assert (a + b)[..|a + b| - 1] == a + b';
      assert (a + b)[|a + b| - 1] == b[|b| - 1];
      SelectAppend(a, b', id, owned);
    }
  }

  /** `DataPreview.objects.filter(upload=id)`. */
  function PreviewsOf(rs: seq<DataPreview>, id: nat): (r: seq<DataPreview>)
    ensures |r| <= |rs|
    ensures forall i :: 0 <= i < |r| ==> r[i].upload == id && r[i] in rs
  {
    Select(rs, id, true)
  }

  /** What remains after `DataPreview.objects.filter(upload=id).delete()`. */
  function Without(rs: seq<DataPreview>, id: nat): (r: seq<DataPreview>)
    ensures |r| <= |rs|
    ensures forall i :: 0 <= i < |r| ==> r[i].upload != id && r[i] in rs
  {
    Select(rs, id, false)
  }

  /** After deleting an upload's previews none of them remains and every other upload's are untouched. */
  lemma {:induction false} PreviewsOfWithout(rs: seq<DataPreview>, id: nat, u: nat)
    ensures PreviewsOf(Without(rs, id), u) == if u == id then [] else PreviewsOf(rs, u)
  {
    if rs != [] {
      var init := rs[..|rs| - 1];
      var last := rs[|rs| - 1];
      PreviewsOfWithout(init, id, u);
      SelectAppend(Select(init, id, false), if last.upload != id then [last] else [], u, true);
    }
  }

  /** Filtering records that all belong to upload `id`: by `id` keeps them all, by another upload keeps none. */
  lemma {:induction false} PreviewsOfOwned(rs: seq<DataPreview>, id: nat, u: nat)
    requires forall i :: 0 <= i < |rs| ==> rs[i].upload == id
    ensures PreviewsOf(rs, u) == if u == id then rs else []
  {
    if rs != [] {
      var init := rs[..|rs| - 1];
      PreviewsOfOwned(init, id, u);
      assert rs == init + [rs[|rs| - 1]];
    }
  }

  /** The preview table (`DataPreview.objects`). */
  class PreviewTable {
    var records: seq<DataPreview>

    constructor ()
      ensures records == []
    {
      records := [];
    }

    /** `DataPreview.objects.filter(upload=id).delete()`. */
    method DeleteForUpload(id: nat)
      modifies this
      ensures records == Without(old(records), id)
    {
      records := Without(records, id);
    }

    /** `DataPreview.objects.create(...)`: appends one record. */
    method Create(p: DataPreview)
      modifies this
      ensures records == old(records) + [p]
    {
      records := records + [p];
    }
  }
}
