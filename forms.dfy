/** The upload form's file check (`DataUploadForm.clean_file`). */
module Forms {
  import opened Wrappers
  import opened Strings

  const AllowedExtensions: seq<string> := ["xlsx", "xls", "csv"]
  const InvalidFileMessage := "Only Excel files (xlsx, xls) or CSV files are allowed."

  /** The extension test: the text after the name's last '.', lower-cased, is an allowed extension. */
  predicate AcceptsName(name: string) {
    Lower(LastSegment(name, '.')) in AllowedExtensions
  }

  /**
   * `clean_file`. The file is given by its name, `None` when the form holds
   * none; a file whose name is empty is falsy and skips the check. A file that
   * passes is returned unchanged; one that fails raises a validation error.
   */
  function CleanFile(file: Option<string>): (r: Result<Option<string>, string>)
    ensures r.Ok? ==> r.value == file
    ensures r.Err? ==> r.error == InvalidFileMessage
    ensures r.Err? <==> file.Some? && file.value != "" && !AcceptsName(file.value)
  {
    if file.Some? && file.value != "" then
      if Lower(LastSegment(file.value, '.')) !in AllowedExtensions then Err(InvalidFileMessage)
      else Ok(file)
    else
      Ok(file)
  }

  /** A name is accepted iff the lower-cased text after its last '.' (all of it, without a '.') is allowed. */
  lemma AcceptsNameIff(name: string)
    ensures AcceptsName(name) <==> Lower(name[RFind(name, '.') + 1..]) in AllowedExtensions
  {
    LastSegmentAfterRFind(name, '.');
  }

  /** The verdict ignores case: names that lower-case alike ("DATA.XLSX", "data.xlsx") are judged alike. */
  lemma AcceptsNameIgnoresCase(a: string, b: string)
    requires Lower(a) == Lower(b)
    ensures AcceptsName(a) == AcceptsName(b)
  {
    LastSegmentLower(a, '.');
    LastSegmentLower(b, '.');
  }

  /** A name without '.' is judged on the whole name. */
  lemma NoDotJudgedWhole(name: string)
    requires '.' !in name
    ensures AcceptsName(name) <==> Lower(name) in AllowedExtensions
  {
    LastSegmentSpec(name, '.');
  }

  /** A name ending in '.' has an empty last segment and is rejected. */
  lemma TrailingDotRejected(name: string)
    requires |name| > 0 && name[|name| - 1] == '.'
    ensures LastSegment(name, '.') == ""
    ensures !AcceptsName(name)
    ensures CleanFile(Some(name)) == Err(InvalidFileMessage)
  {
    LastSegmentSpec(name, '.');
  }
}
