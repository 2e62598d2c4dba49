/** The path sanitiser: Windows separators become forward slashes (index.js:47-49). */
module Sanitizer {

  /**
   * `filepath.replace(/\\/g, '/')`: every backslash becomes a slash and no
   * other character moves or changes.
   */
  function SanitizeFilePath(filepath: string): (r: string)
    ensures |r| == |filepath|
    ensures '\\' !in r
    ensures forall i :: 0 <= i < |filepath| && filepath[i] != '\\' ==> r[i] == filepath[i]
    ensures forall i :: 0 <= i < |filepath| && filepath[i] == '\\' ==> r[i] == '/'
    decreases |filepath|
  {
    if filepath == [] then []
    else [if filepath[0] == '\\' then '/' else filepath[0]] + SanitizeFilePath(filepath[1..])
  }

  /** Sanitising twice gives the same path as sanitising once. */
  lemma SanitizeIdempotent(filepath: string)
    ensures SanitizeFilePath(SanitizeFilePath(filepath)) == SanitizeFilePath(filepath)
  {
    var once := SanitizeFilePath(filepath);
    assert forall i :: 0 <= i < |once| ==> once[i] != '\\';
  }

  /** A path without backslashes is already sanitised. */
  lemma SanitizeFixesClean(filepath: string)
    requires '\\' !in filepath
    ensures SanitizeFilePath(filepath) == filepath
  {
  }

  /** Sanitising adds no character other than the slash. */
  lemma SanitizeChars(filepath: string, c: char)
    requires c != '/' && c != '\\'
    ensures c in SanitizeFilePath(filepath) <==> c in filepath
  {
    var r := SanitizeFilePath(filepath);
    if c in r {
      var i :| 0 <= i < |r| && r[i] == c;
      assert filepath[i] == c;
    }
    if c in filepath {
      var i :| 0 <= i < |filepath| && filepath[i] == c;
      assert r[i] == c;
    }
  }
}
