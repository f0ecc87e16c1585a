/**
 * The two POSIX path functions the upload model relies on, `os.path.basename`
 * and `os.path.splitext`, with '/' as separator and '.' as extension mark.
 */
module PosixPath {
  import opened Strings

  /** `os.path.basename`: the text after the last '/'. */
  function Basename(p: string): (b: string)
    ensures '/' !in b
    ensures |b| <= |p| && p[|p| - |b|..] == b
    ensures '/' in p ==> |b| < |p| && p[|p| - |b| - 1] == '/'
    ensures '/' !in p ==> b == p
  {
    p[RFind(p, '/') + 1..]
  }

  /**
   * `os.path.splitext`: the extension is the text from the last '.' on, provided
   * that '.' lies in the last path component and something other than a '.'
   * precedes it there; otherwise the extension is empty.
   */
  function SplitExt(p: string): (r: (string, string))
    ensures r.0 + r.1 == p
    ensures r.1 == [] || (r.1[0] == '.' && '.' !in r.1[1..] && '/' !in r.1)
  {
    var sepIndex := RFind(p, '/');
    var dotIndex := RFind(p, '.');
    if dotIndex > sepIndex && exists k :: sepIndex + 1 <= k < dotIndex && p[k] != '.' then
      (p[..dotIndex], p[dotIndex..])
    else
      (p, [])
  }

  /** Some character other than '.' comes before a later '.' in `b`. */
  predicate HasStemBeforeDot(b: string) {
    exists k, j :: 0 <= k < j < |b| && b[k] != '.' && b[j] == '.'
  }

  /**
   * The extension is non-empty exactly when the last path component has a
   * non-'.' character before some '.'; in particular a component made of
   * leading dots and an extension (".csv", "..csv") has no extension.
   */
  lemma SplitExtNonEmptyIff(p: string)
    ensures SplitExt(p).1 != [] <==> HasStemBeforeDot(Basename(p))
  {
    var sepIndex := RFind(p, '/');
    var dotIndex := RFind(p, '.');
    var b := Basename(p);
    assert b == p[sepIndex + 1..];
    if SplitExt(p).1 != [] {
      var k :| sepIndex + 1 <= k < dotIndex && p[k] != '.';
      assert b[k - sepIndex - 1] != '.' && b[dotIndex - sepIndex - 1] == '.';
    }
    if HasStemBeforeDot(b) {
      var k, j :| 0 <= k < j < |b| && b[k] != '.' && b[j] == '.';
      assert p[sepIndex + 1 + j] == '.';
      assert dotIndex >= sepIndex + 1 + j;
      assert p[sepIndex + 1 + k] != '.';
    }
  }

  /** A character found in the tail of a string is found at the same place of the tail. */
  lemma RFindInTail(a: string, b: string, c: char)
    requires c in b
    ensures RFind(a + b, c) == |a| + RFind(b, c)
  {
    var i := RFind(b, c);
    forall j | |a| + i < j < |a + b| ensures (a + b)[j] != c {
      assert (a + b)[j] == b[j - |a|];
    }
    RFindUnique(a + b, c, |a| + i);
  }

  /** In "/" + name, with no '/' in name, the last '/' is the first character. */
  lemma RFindLeadingSlash(name: string)
    requires '/' !in name
    ensures RFind("/" + name, '/') == 0
  {
    var t := "/" + name;
    forall j | 0 < j < |t| ensures t[j] != '/' {
      assert t[j] == name[j - 1];
    }
    RFindUnique(t, '/', 0);
  }

  /** In a stored name `dir/name`, the last '/' is the one after `dir`. */
  lemma LastSlashOfComponent(dir: string, name: string)
    requires '/' !in name
    ensures RFind(dir + "/" + name, '/') == |dir|
  {
    var t := "/" + name;
    RFindLeadingSlash(name);
    assert t[0] == '/';
    RFindInTail(dir, t, '/');
    assert dir + "/" + name == dir + t;
  }

  /** When the last '/' of `dir/name` is the one after `dir`, the basename is `name`. */
  lemma BasenameAfterDir(dir: string, name: string)
    requires RFind(dir + "/" + name, '/') == |dir|
    ensures Basename(dir + "/" + name) == name
  {
    var p := dir + "/" + name;
    assert p[|dir| + 1..] == name;
  }

  /** The basename of a stored name `dir/name` is the client name. */
  lemma BasenameOfComponent(dir: string, name: string)
    requires '/' !in name
    ensures RFind(dir + "/" + name, '/') == |dir|
    ensures Basename(dir + "/" + name) == name
  {
    LastSlashOfComponent(dir, name);
    BasenameAfterDir(dir, name);
  }

  /** A non-empty extension is the text from the path's last '.' on. */
  lemma SplitExtFromLastDot(p: string)
    requires SplitExt(p).1 != []
    ensures SplitExt(p).1 == p[RFind(p, '.')..]
  {
  }

  /** A name with a stem before a '.' has a '.'. */
  lemma StemHasDot(name: string)
    requires HasStemBeforeDot(name)
    ensures 0 <= RFind(name, '.')
  {
    var k, j :| 0 <= k < j < |name| && name[k] != '.' && name[j] == '.';
    assert name[j] == '.';
  }

  /** In a stored name `dir/name` whose name has a '.', the last '.' is the name's last '.'. */
  lemma LastDotOfComponent(dir: string, name: string)
    requires 0 <= RFind(name, '.')
    ensures RFind(dir + "/" + name, '.') == |dir| + 1 + RFind(name, '.')
  {
    assert name[RFind(name, '.')] == '.';
    assert dir + "/" + name == (dir + "/") + name;
    RFindInTail(dir + "/", name, '.');
  }

  /** The tail of `dir/name` from a position inside `name` is the tail of `name`. */
  lemma TailOfStoredName(dir: string, name: string, d: int)
    requires 0 <= d <= |name|
    ensures (dir + "/" + name)[|dir| + 1 + d..] == name[d..]
  {
  }

  /** Within the last component, the extension starts at its last '.'. */
  lemma SplitExtOfComponent(dir: string, name: string)
    requires '/' !in name
    requires HasStemBeforeDot(name)
    ensures Basename(dir + "/" + name) == name
    ensures 0 <= RFind(name, '.')
    ensures SplitExt(dir + "/" + name).1 == name[RFind(name, '.')..]
  {
    var p := dir + "/" + name;
    BasenameOfComponent(dir, name);
    StemHasDot(name);
    SplitExtNonEmptyIff(p);
    SplitExtFromLastDot(p);
    LastDotOfComponent(dir, name);
    TailOfStoredName(dir, name, RFind(name, '.'));
  }

  /** Stored as `dir/name`, a name with a stem before a '.' has '.' plus its last segment as splitext extension. */
  lemma SplitExtOfStoredName(dir: string, name: string)
    requires '/' !in name
    requires HasStemBeforeDot(name)
    ensures SplitExt(dir + "/" + name).1 == "." + name[RFind(name, '.') + 1..]
  {
    SplitExtOfComponent(dir, name);
    TailFromLastDot(name);
  }

  /** The tail of a name from its last '.' is '.' followed by the last '.'-segment. */
  lemma TailFromLastDot(name: string)
    requires 0 <= RFind(name, '.')
    ensures name[RFind(name, '.')..] == "." + name[RFind(name, '.') + 1..]
  {
    var d := RFind(name, '.');
    assert name[d..] == [name[d]] + name[d + 1..];
  }
}
