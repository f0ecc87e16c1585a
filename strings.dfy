/**
 * The few string operations the dashboard uses: lower-casing, splitting on a
 * separator character and finding the last occurrence of a character.
 */
module Strings {

  /** Lower-cases one character; only 'A'..'Z' are mapped. */
  function LowerChar(c: char): (r: char)
    ensures 'A' <= c <= 'Z' ==> 'a' <= r <= 'z'
    ensures !('A' <= c <= 'Z') ==> r == c
  {
    if 'A' <= c <= 'Z' then (c as int - 'A' as int + 'a' as int) as char else c
  }

  predicate IsLowerCase(s: string) {
    forall i :: 0 <= i < |s| ==> !('A' <= s[i] <= 'Z')
  }

  /** `str.lower()`, restricted to ASCII letters. */
  function Lower(s: string): (r: string)
    ensures |r| == |s|
    ensures forall i :: 0 <= i < |s| ==> r[i] == LowerChar(s[i])
    ensures IsLowerCase(r)
  {
    seq(|s|, i requires 0 <= i < |s| => LowerChar(s[i]))
  }

  lemma LowerIdempotent(s: string)
    ensures Lower(Lower(s)) == Lower(s)
  {
  }

  lemma LowerAppend(a: string, b: string)
    ensures Lower(a + b) == Lower(a) + Lower(b)
  {
    assert forall i :: 0 <= i < |a + b| ==> Lower(a + b)[i] == (Lower(a) + Lower(b))[i];
  }

  /** Lower-casing keeps a leading '.'. */
  lemma LowerDotPrefix(s: string, t: string)
    requires s == "." + t
    ensures Lower(s) == "." + Lower(t)
  {
    LowerAppend(".", t);
    assert Lower(".")[0] == LowerChar('.');
  }

  /** `s.split(sep)`: the pieces between occurrences of `sep`, in order. */
  function Split(s: string, sep: char): (parts: seq<string>)
    ensures |parts| >= 1
    ensures forall i :: 0 <= i < |parts| ==> sep !in parts[i]
    ensures sep in s <==> |parts| > 1
  {
    if s == [] then [""]
    else
      var rest := Split(s[1..], sep);
      assert s == [s[0]] + s[1..];
      if s[0] == sep then [""] + rest
      else [[s[0]] + rest[0]] + rest[1..]
  }

  /** `sep.join(parts)`. */
  function Join(parts: seq<string>, sep: char): string
  {
    if parts == [] then ""
    else if |parts| == 1 then parts[0]
    else parts[0] + [sep] + Join(parts[1..], sep)
  }

  /** Splitting and joining again on the same separator gives back the string. */
  lemma {:induction false} JoinSplit(s: string, sep: char)
    ensures Join(Split(s, sep), sep) == s
  {
    if s != [] {
      var rest := Split(s[1..], sep);
      JoinSplit(s[1..], sep);
      assert s == [s[0]] + s[1..];
      if s[0] == sep {
        JoinEmptyFirst(rest, sep);
      } else {
        JoinExtendFirst(s[0], rest, sep);
      }
    }
  }

  /** An empty first part contributes only its separator. */
  lemma JoinEmptyFirst(rest: seq<string>, sep: char)
    requires |rest| >= 1
    ensures Join([""] + rest, sep) == [sep] + Join(rest, sep)
  {
    assert ([""] + rest)[1..] == rest;
  }

  /** Putting a character in front of the first part puts it in front of the joined string. */
  lemma JoinExtendFirst(c: char, rest: seq<string>, sep: char)
    requires |rest| >= 1
    ensures Join([[c] + rest[0]] + rest[1..], sep) == [c] + Join(rest, sep)
  {
    var parts := [[c] + rest[0]] + rest[1..];
    if |rest| > 1 {
      assert parts[1..] == rest[1..];
    }
  }

  /** `s.split(sep)[0]`: the text before the first `sep`. */
  function FirstSegment(s: string, sep: char): (r: string)
    ensures sep !in r
  {
    Split(s, sep)[0]
  }

  /** `s.split(sep)[-1]`: the text after the last `sep`. */
  function LastSegment(s: string, sep: char): (r: string)
    ensures sep !in r
  {
    var parts := Split(s, sep);
    parts[|parts| - 1]
  }

  /**
   * The first segment is a prefix of `s` without `sep`; it is all of `s` when
   * `s` has no `sep`, and otherwise it is followed by a `sep`.
   */
  lemma {:induction false} FirstSegmentSpec(s: string, sep: char)
    ensures var r := FirstSegment(s, sep);
      && sep !in r
      && r <= s
      && (sep !in s ==> r == s)
      && (sep in s ==> |r| < |s| && s[|r|] == sep)
  {
    if s != [] && s[0] != sep {
      FirstSegmentSpec(s[1..], sep);
      assert s == [s[0]] + s[1..];
    }
  }

  /**
   * The last segment is a suffix of `s` without `sep`; it is all of `s` when
   * `s` has no `sep`, and otherwise it is preceded by a `sep`.
   */
  lemma {:induction false} LastSegmentSpec(s: string, sep: char)
    ensures var r := LastSegment(s, sep);
      && sep !in r
      && |r| <= |s| && s[|s| - |r|..] == r
      && (sep !in s ==> r == s)
      && (sep in s ==> |r| < |s| && s[|s| - |r| - 1] == sep)
  {
    if s != [] {
      var rest := Split(s[1..], sep);
      LastSegmentSpec(s[1..], sep);
      assert s == [s[0]] + s[1..];
      if s[0] == sep {
        assert LastSegment(s, sep) == rest[|rest| - 1];
      } else if |rest| == 1 {
        assert LastSegment(s, sep) == [s[0]] + rest[0];
      } else {
        assert LastSegment(s, sep) == rest[|rest| - 1];
      }
    }
  }

  /** The last segment is exactly the text after the last `sep` (all of `s` when there is none). */
  lemma LastSegmentAfterRFind(s: string, sep: char)
    ensures LastSegment(s, sep) == s[RFind(s, sep) + 1..]
  {
    var r := LastSegment(s, sep);
    LastSegmentSpec(s, sep);
    var i := if sep in s then |s| - |r| - 1 else -1;
    forall j | i < j < |s| ensures s[j] != sep {
      if sep in s {
        assert s[j] == r[j - (|s| - |r|)];
      }
    }
    RFindUnique(s, sep, i);
  }

  /** Lower-casing neither creates nor removes a character that is not a letter. */
  lemma RFindLower(s: string, c: char)
    requires !('A' <= c <= 'Z') && !('a' <= c <= 'z')
    ensures RFind(Lower(s), c) == RFind(s, c)
  {
    var i := RFind(s, c);
    forall j | i < j < |s| ensures Lower(s)[j] != c {
      assert s[j] != c;
    }
    RFindUnique(Lower(s), c, i);
  }

  /** Lower-casing commutes with taking the last segment on a separator that is not a letter. */
  lemma LastSegmentLower(s: string, sep: char)
    requires !('A' <= sep <= 'Z') && !('a' <= sep <= 'z')
    ensures LastSegment(Lower(s), sep) == Lower(LastSegment(s, sep))
  {
    LastSegmentAfterRFind(s, sep);
    LastSegmentAfterRFind(Lower(s), sep);
    RFindLower(s, sep);
    var k := RFind(s, sep) + 1;
    assert Lower(s)[k..] == Lower(s[k..]);
  }

  /** The index of the last `c` in `s`, or -1 (`str.rfind`). */
  function RFind(s: string, c: char): (i: int)
    ensures -1 <= i < |s|
    ensures i >= 0 ==> s[i] == c
    ensures forall j :: i < j < |s| ==> s[j] != c
  {
    if s == [] then -1
    else if s[|s| - 1] == c then |s| - 1
    else RFind(s[..|s| - 1], c)
  }

  /** The three facts in RFind's contract determine it. */
  lemma RFindUnique(s: string, c: char, i: int)
    requires -1 <= i < |s|
    requires i >= 0 ==> s[i] == c
    requires forall j :: i < j < |s| ==> s[j] != c
    ensures RFind(s, c) == i
  {
  }
}
