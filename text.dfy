/**
 * The JavaScript string primitives the barrel generator relies on, written
 * out with the semantics the language gives them: `indexOf` and a string
 * `replace` (first literal occurrence only), a global regular-expression
 * replace of `//` (one non-overlapping left-to-right pass), and
 * `split` / `join` on a one-character separator.
 */
module Text {
  import opened Wrappers

  /** True when `pat` occurs in `s` at index `k`. */
  predicate OccursAt(s: string, pat: string, k: nat)
  {
    k + |pat| <= |s| && s[k..k + |pat|] == pat
  }

  /** `s.indexOf(pat)`: the first index at which `pat` occurs, if any. */
  function IndexOf(s: string, pat: string): (r: Option<nat>)
    ensures r.Some? ==> OccursAt(s, pat, r.value)
    ensures r.Some? ==> forall j :: 0 <= j < r.value ==> !OccursAt(s, pat, j)
    ensures r.None? ==> forall j :: 0 <= j <= |s| ==> !OccursAt(s, pat, j)
    decreases |s|
  {
    if OccursAt(s, pat, 0) then Some(0)
    else if |s| == 0 then None
    else
      var rest := IndexOf(s[1..], pat);
      assert forall j :: 1 <= j <= |s| ==> (OccursAt(s, pat, j) <==> OccursAt(s[1..], pat, j - 1)) by {
        forall j | 1 <= j <= |s| ensures OccursAt(s, pat, j) <==> OccursAt(s[1..], pat, j - 1) {
          if j + |pat| <= |s| {
            assert s[1..][j - 1..j - 1 + |pat|] == s[j..j + |pat|];
          }
        }
      }
      match rest
      case None => None
      case Some(k) => Some(k + 1)
  }

  /**
   * `s.replace(pat, rep)` with a string pattern, for a replacement without `$`
   * (JavaScript expands `$&`, `$$` and the other `$` patterns in it): only
   * the first occurrence is replaced.
   */
  function ReplaceFirst(s: string, pat: string, rep: string): string
  {
    match IndexOf(s, pat)
    case None => s
    case Some(k) => s[..k] + rep + s[k + |pat|..]
  }

  /** `s.replace(/\/$/, '')`: drops one trailing slash. */
  function StripTrailingSlash(s: string): string
  {
    if |s| > 0 && s[|s| - 1] == '/' then s[..|s| - 1] else s
  }

  /** A string that does not end in a slash keeps its end. */
  lemma StripTrailingSlashKeeps(s: string)
    requires s == [] || s[|s| - 1] != '/'
    ensures StripTrailingSlash(s) == s
  {
  }

  /** Exactly one trailing slash is dropped: `a//` becomes `a/`. */
  lemma StripTrailingSlashDropsOne(s: string)
    ensures StripTrailingSlash(s + "/") == s
  {
    assert (s + "/")[..|s|] == s;
  }

  /** True when `s` holds no `//`. */
  predicate NoDoubleSlash(s: string)
  {
    forall i :: 0 <= i <= |s| ==> !OccursAt(s, "//", i)
  }

  /**
   * `s.replace(/\/\//g, '/')`: scanning left to right, every non-overlapping
   * `//` becomes `/`; the output is not scanned again.
   */
  function CollapseSlashes(s: string): string
    decreases |s|
  {
    if |s| >= 2 && s[0] == '/' && s[1] == '/' then "/" + CollapseSlashes(s[2..])
    else if s == [] then []
    else [s[0]] + CollapseSlashes(s[1..])
  }

  /** A leading character other than a slash is copied. */
  lemma CollapseKeepsFirst(c: char, t: string)
    requires c != '/'
    ensures CollapseSlashes([c] + t) == [c] + CollapseSlashes(t)
  {
    assert ([c] + t)[1..] == t;
  }

  /** A leading `//` becomes `/`, and the pass goes on after it. */
  lemma CollapseMergesFirstPair(t: string)
    ensures CollapseSlashes("//" + t) == "/" + CollapseSlashes(t)
  {
    assert ("//" + t)[2..] == t;
  }

  /** `s.split(sep)` for a one-character separator. */
  function Split(s: string, sep: char): (parts: seq<string>)
    ensures |parts| >= 1
    ensures forall i :: 0 <= i < |parts| ==> sep !in parts[i]
    decreases |s|
  {
    if s == [] then [""]
    else
      var rest := Split(s[1..], sep);
      if s[0] == sep then [""] + rest
      else [[s[0]] + rest[0]] + rest[1..]
  }

  /** `parts.join(sep)` for a one-character separator. */
  function Join(parts: seq<string>, sep: char): string
    decreases |parts|
  {
    if |parts| == 0 then ""
    else if |parts| == 1 then parts[0]
    else parts[0] + [sep] + Join(parts[1..], sep)
  }

  /** Prepending to the first part of a join prepends to the joined text. */
  lemma {:induction false} JoinConsFirst(c: char, parts: seq<string>, sep: char)
    requires |parts| >= 1
    ensures Join([[c] + parts[0]] + parts[1..], sep) == [c] + Join(parts, sep)
  {
    var q := [[c] + parts[0]] + parts[1..];
    assert q[1..] == parts[1..];
  }

  /** Joining what `split` produced gives back the string: the two are inverse. */
  lemma {:induction false} JoinSplit(s: string, sep: char)
    ensures Join(Split(s, sep), sep) == s
    decreases |s|
  {
    if s != [] {
      var rest := Split(s[1..], sep);
      JoinSplit(s[1..], sep);
      if s[0] == sep {
        assert ([""] + rest)[1..] == rest;
        if |rest| == 1 {
          assert Join([""] + rest, sep) == "" + [sep] + Join(rest, sep);
        }
        assert s == [s[0]] + s[1..];
      } else {
        JoinConsFirst(s[0], rest, sep);
        assert s == [s[0]] + s[1..];
      }
    }
  }

  /** Appending a part to a non-empty list of parts appends the separator and the part. */
  lemma {:induction false} JoinSnoc(parts: seq<string>, p: string, sep: char)
    requires |parts| >= 1
    ensures Join(parts + [p], sep) == Join(parts, sep) + [sep] + p
    decreases |parts|
  {
    if |parts| == 1 {
      assert (parts + [p])[1..] == [p];
    } else {
      assert (parts + [p])[1..] == parts[1..] + [p];
      JoinSnoc(parts[1..], p, sep);
    }
  }

  /** The separator occurs in a join of two or more parts. */
  lemma {:induction false} JoinHasSep(parts: seq<string>, sep: char)
    requires |parts| >= 2
    ensures sep in Join(parts, sep)
  {
    assert Join(parts, sep)[|parts[0]|] == sep;
  }

  /**
   * `s.split(sep).slice(0, -1).join(sep)`: everything before the last
   * separator, or the empty string when there is none.
   */
  function DropLastSegment(s: string, sep: char): string
  {
    var parts := Split(s, sep);
    Join(parts[..|parts| - 1], sep)
  }

  /**
   * Dropping the last segment cuts the string at its LAST separator: what is
   * kept, the separator and a separator-free tail make up the whole string.
   * Without a separator nothing is kept.
   */
  lemma {:induction false} DropLastSegmentCutsAtLastSep(s: string, sep: char)
    ensures sep !in s ==> DropLastSegment(s, sep) == ""
    ensures sep in s ==> exists tail: string :: sep !in tail && s == DropLastSegment(s, sep) + [sep] + tail
  {
    var parts := Split(s, sep);
    var n := |parts|;
    JoinSplit(s, sep);
    if n == 1 {
      assert s == parts[0];
      assert parts[..0] == [];
    } else {
      JoinHasSep(parts, sep);
      assert parts == parts[..n - 1] + [parts[n - 1]];
      JoinSnoc(parts[..n - 1], parts[n - 1], sep);
      assert s == DropLastSegment(s, sep) + [sep] + parts[n - 1];
    }
  }

  /** The first part of a split is the text before the first separator. */
  lemma {:induction false} SplitFirstIsPrefix(s: string, sep: char)
    ensures var p := Split(s, sep)[0];
      sep !in p && |p| <= |s| && s[..|p|] == p && (|p| == |s| || s[|p|] == sep)
  {
    var parts := Split(s, sep);
    JoinSplit(s, sep);
    if |parts| >= 2 {
      assert s == parts[0] + [sep] + Join(parts[1..], sep);
    }
  }

  /** Text without any `//` is left as it is by the collapsing pass. */
  lemma {:induction false} CollapseFixesNoDoubleSlash(s: string)
    requires NoDoubleSlash(s)
    ensures CollapseSlashes(s) == s
    decreases |s|
  {
    if s != [] {
      assert !(|s| >= 2 && s[0] == '/' && s[1] == '/') by {
        if |s| >= 2 { assert !OccursAt(s, "//", 0); assert s[0..2] == [s[0], s[1]]; }
      }
      assert NoDoubleSlash(s[1..]) by {
        forall i | 0 <= i <= |s[1..]| ensures !OccursAt(s[1..], "//", i) {
          assert !OccursAt(s, "//", i + 1);
          if i + 2 <= |s[1..]| { assert s[1..][i..i + 2] == s[i + 1..i + 3]; }
        }
      }
      CollapseFixesNoDoubleSlash(s[1..]);
      assert s == [s[0]] + s[1..];
    }
  }

  /** The collapsing pass removes slashes only: every other character is kept. */
  lemma {:induction false} CollapseKeepsOtherChars(s: string, c: char)
    requires c != '/'
    ensures c in CollapseSlashes(s) <==> c in s
    decreases |s|
  {
    if |s| >= 2 && s[0] == '/' && s[1] == '/' {
      CollapseKeepsOtherChars(s[2..], c);
      assert s == s[..2] + s[2..];
    } else if s != [] {
      CollapseKeepsOtherChars(s[1..], c);
      assert s == [s[0]] + s[1..];
    }
  }

  /**
   * The pass does not rescan its own output: three slashes become two and
   * four become two, so the pass is not idempotent.
   */
  lemma CollapseIsOnePass()
    ensures CollapseSlashes("///") == "//"
    ensures CollapseSlashes("////") == "//"
    ensures CollapseSlashes(CollapseSlashes("////")) == "/"
  {
    assert "///"[2..] == "/";
    assert "////"[2..] == "//";
    assert "//"[2..] == "";
  }

  /** A first-occurrence replacement only brings in characters of the replacement. */
  lemma ReplaceFirstChars(s: string, pat: string, rep: string, c: char)
    requires c in ReplaceFirst(s, pat, rep)
    ensures c in s || c in rep
  {
    match IndexOf(s, pat)
    case None =>
    case Some(k) =>
      var a, b := s[..k], s[k + |pat|..];
      assert ReplaceFirst(s, pat, rep) == a + rep + b;
      assert c in a || c in rep || c in b;
      if c in a {
        var i :| 0 <= i < |a| && a[i] == c;
        assert s[i] == c;
      } else if c in b {
        var i :| 0 <= i < |b| && b[i] == c;
        assert s[k + |pat| + i] == c;
      }
  }

  /** A string without the separator splits into itself alone. */
  lemma SplitWithoutSep(s: string, sep: char)
    requires sep !in s
    ensures Split(s, sep) == [s]
  {
    var parts := Split(s, sep);
    JoinSplit(s, sep);
    if |parts| >= 2 { JoinHasSep(parts, sep); }
  }

  /** Splitting at a separator in the middle splits both sides independently. */
  lemma {:induction false} SplitAtSep(x: string, y: string, sep: char)
    ensures Split(x + [sep] + y, sep) == Split(x, sep) + Split(y, sep)
    decreases |x|
  {
    if x == [] {
      assert x + [sep] + y == [sep] + y;
      SplitCons(sep, y, sep);
    } else {
      var t := x[1..] + [sep] + y;
      assert x + [sep] + y == [x[0]] + t;
      assert x == [x[0]] + x[1..];
      SplitCons(x[0], t, sep);
      SplitCons(x[0], x[1..], sep);
      SplitAtSep(x[1..], y, sep);
      var a, b := Split(x[1..], sep), Split(y, sep);
      if x[0] == sep {
        PartsAssoc([""], a, b);
      } else {
        MergeHead(x[0], a, b);
      }
    }
  }

  /** Dropping the last segment of `d/f`, where `f` holds no separator, gives `d`. */
  lemma DropLastSegmentAppend(d: string, f: string, sep: char)
    requires sep !in f
    ensures DropLastSegment(d + [sep] + f, sep) == d
  {
    SplitAtSep(d, f, sep);
    SplitWithoutSep(f, sep);
    var parts := Split(d, sep) + [f];
    assert parts[..|parts| - 1] == Split(d, sep);
    JoinSplit(d, sep);
  }

  /** Dropping the last segment keeps only characters of the input. */
  lemma DropLastSegmentChars(s: string, sep: char, c: char)
    requires c in DropLastSegment(s, sep)
    ensures c in s
  {
    DropLastSegmentCutsAtLastSep(s, sep);
    if sep in s {
      var tail: string :| sep !in tail && s == DropLastSegment(s, sep) + [sep] + tail;
    }
  }

  /** Text without any slash holds no `//`. */
  lemma NoSlashNoDoubleSlash(s: string)
    requires '/' !in s
    ensures NoDoubleSlash(s)
  {
    forall i | 0 <= i <= |s| ensures !OccursAt(s, "//", i) {
      if i + 2 <= |s| { assert s[i..i + 2][0] == s[i]; }
    }
  }

  /** Joining two `//`-free parts with one slash creates no `//` when neither side of the slash is one. */
  lemma NoDoubleSlashAroundSlash(d: string, f: string)
    requires NoDoubleSlash(d) && NoDoubleSlash(f)
    requires d != [] && d[|d| - 1] != '/'
    requires f != [] && f[0] != '/'
    ensures NoDoubleSlash(d + "/" + f)
  {
    var x := d + "/" + f;
    forall i | 0 <= i <= |x| ensures !OccursAt(x, "//", i) {
      if i + 2 <= |x| {
        assert x[i..i + 2] == [x[i], x[i + 1]];
        if i + 1 < |d| {
          assert !OccursAt(d, "//", i);
          assert d[i..i + 2] == [d[i], d[i + 1]];
          assert x[i] == d[i] && x[i + 1] == d[i + 1];
        } else if i + 1 == |d| {
          assert x[i] == d[|d| - 1];
        } else if i == |d| {
          assert x[i + 1] == f[0];
        } else {
          var j := i - |d| - 1;
          assert !OccursAt(f, "//", j);
          assert f[j..j + 2] == [f[j], f[j + 1]];
          assert x[i] == f[j] && x[i + 1] == f[j + 1];
        }
      }
    }
  }

  // Rewriting steps. Each is a one-line fact Dafny proves unaided; it is stated
  // as a lemma only so that a caller can obtain the rewritten term without the
  // definitions involved being unfolded. None of them is a property of the model.

  /** Concatenation of strings is associative. */
  lemma AppendAssoc(a: string, b: string, c: string)
    ensures (a + b) + c == a + (b + c)
  {
  }

  /** A character absent from both parts is absent from their concatenation. */
  lemma AbsentFromAppend(c: char, a: string, b: string)
    requires c !in a && c !in b
    ensures c !in a + b
  {
  }

  /** `./x` read as the directory `.`, a separator and `x`. */
  lemma DotSlash(x: string)
    ensures "./" + x == "." + ['/'] + x
  {
    assert "./" == "." + ['/'];
  }

  lemma PartsAssoc(a: seq<string>, b: seq<string>, c: seq<string>)
    ensures (a + b) + c == a + (b + c)
  {
  }

  /** `Split` read one character at a time. */
  lemma SplitCons(c: char, t: string, sep: char)
    ensures Split([c] + t, sep) ==
      if c == sep then [""] + Split(t, sep)
      else [[c] + Split(t, sep)[0]] + Split(t, sep)[1..]
  {
    assert ([c] + t)[1..] == t;
  }

  /** Prepending a character to the first part commutes with appending more parts. */
  lemma MergeHead(c: char, a: seq<string>, b: seq<string>)
    requires |a| >= 1
    ensures [[c] + (a + b)[0]] + (a + b)[1..] == ([[c] + a[0]] + a[1..]) + b
  {
    assert (a + b)[0] == a[0] && (a + b)[1..] == a[1..] + b;
  }
}
