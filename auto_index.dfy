/**
 * The barrel-file generator of index.js (`processPath`, lines 55-88): from
 * one directory configuration and the paths the glob matched, it derives an
 * import line and an export property per path, in sorted order, and the
 * index file to write.
 *
 * The glob library is a parameter (`glob`), and the file write is returned
 * as an `IndexWrite` value rather than performed.
 */
module AutoIndex {
  import opened Wrappers
  import opened Text
  import opened Sanitizer
  import opened Ordering
  import opened Sequences

  /** The `ignore` option: one pattern, or a list of patterns. */
  datatype Ignore = Pattern(glob: string) | Patterns(globs: seq<string>)

  /**
   * One directory configuration. An option left out of the configuration
   * object is `None` and takes its default (false, false, no patterns).
   */
  datatype PathConfig = PathConfig(
    path: string,
    includeExtension: Option<bool>,
    includeSubfolders: Option<bool>,
    ignore: Option<Ignore>)

  /** The pattern and ignore list handed to the glob library. */
  datatype GlobQuery = GlobQuery(pattern: string, ignore: seq<string>)

  /** What one matched path contributes: binding name, containing directory, import target. */
  datatype ModuleEntry = ModuleEntry(name: string, relPath: string, specifier: string)

  /** `filepath.match(...)` found nothing, so indexing `[0]` of null throws. */
  datatype SyncError = NoModuleName(filepath: string)

  /** The `fs.writeFileSync(indexPath, content)` the run ends with. */
  datatype IndexWrite = IndexWrite(path: string, content: string)

  const IndexIgnore: string := "**/index.js"
  const ExportsOpen: string := "export default {\n"
  const ExportsClose: string := "};"

  // ---------------------------------------------------------------------
  // Options and the glob query (index.js:56-63)
  // ---------------------------------------------------------------------

  /** `typeof ignore === 'string' ? [ignore] : ignore`, after the default `[]`. */
  function IgnorePaths(ignore: Option<Ignore>): seq<string>
  {
    match ignore.GetOr(Patterns([]))
    case Pattern(g) => [g]
    case Patterns(gs) => gs
  }

  function IncludeSubfolders(config: PathConfig): bool { config.includeSubfolders.GetOr(false) }

  function IncludeExtension(config: PathConfig): bool { config.includeExtension.GetOr(false) }

  /** The arguments of the `globSync` call. */
  function Query(config: PathConfig): GlobQuery
  {
    var pattern := if IncludeSubfolders(config) then config.path + "/**/*" else config.path + "/*";
    GlobQuery(pattern, [IndexIgnore] + IgnorePaths(config.ignore))
  }

  /**
   * The generated index is always the first exclusion, followed by the
   * user's patterns in their order; a single pattern becomes a one-element
   * list. The pattern reaches every depth exactly when subfolders are on.
   */
  lemma QueryShape(config: PathConfig)
    ensures var q := Query(config);
      |q.ignore| >= 1 && q.ignore[0] == "**/index.js" &&
      (config.ignore.None? ==> q.ignore == ["**/index.js"]) &&
      (config.ignore.Some? && config.ignore.value.Pattern? ==> q.ignore[1..] == [config.ignore.value.glob]) &&
      (config.ignore.Some? && config.ignore.value.Patterns? ==> q.ignore[1..] == config.ignore.value.globs) &&
      (config.includeSubfolders == Some(true) ==> q.pattern == config.path + "/**/*") &&
      (config.includeSubfolders != Some(true) ==> q.pattern == config.path + "/*")
  {
  }

  // ---------------------------------------------------------------------
  // Module name and specifier (index.js:76-78)
  // ---------------------------------------------------------------------

  /** A character of the class `[\w.]`: ASCII letter, digit, `_` or `.`. */
  predicate IsNameChar(c: char)
  {
    ('a' <= c <= 'z') || ('A' <= c <= 'Z') || ('0' <= c <= '9') || c == '_' || c == '.'
  }

  /** `/[\w.]+$/` can match starting at `i`: a non-empty run of name characters up to the end. */
  predicate NameMatchAt(s: string, i: nat)
  {
    i < |s| && forall j :: i <= j < |s| ==> IsNameChar(s[j])
  }

  /** Where the trailing run of name characters of `s` begins. */
  function NameRunStart(s: string): (k: nat)
    ensures k <= |s|
    ensures forall j :: k <= j < |s| ==> IsNameChar(s[j])
    ensures k > 0 ==> !IsNameChar(s[k - 1])
    decreases |s|
  {
    if s == [] || !IsNameChar(s[|s| - 1]) then |s| else NameRunStart(s[..|s| - 1])
  }

  /** `filepath.match(/[\w.]+$/)[0]`, or `None` where the match is null. */
  function ModuleFullname(filepath: string): Option<string>
  {
    var k := NameRunStart(filepath);
    if k == |filepath| then None else Some(filepath[k..])
  }

  /**
   * The full name is what the regular expression returns: the match at the
   * leftmost position where one exists, which is the longest name-character
   * suffix; there is none exactly when the path is empty or ends in another
   * character.
   */
  lemma ModuleFullnameIsLeftmostMatch(filepath: string)
    ensures ModuleFullname(filepath).None? <==> (filepath == [] || !IsNameChar(filepath[|filepath| - 1]))
    ensures ModuleFullname(filepath).None? <==> forall i :: 0 <= i <= |filepath| ==> !NameMatchAt(filepath, i)
    ensures ModuleFullname(filepath).Some? ==>
      var m := ModuleFullname(filepath).value;
      var i := |filepath| - |m|;
      0 <= i && NameMatchAt(filepath, i) && filepath[i..] == m &&
      forall j :: 0 <= j < i ==> !NameMatchAt(filepath, j)
  {
    var k := NameRunStart(filepath);
    if k == |filepath| {
      forall i | 0 <= i <= |filepath| ensures !NameMatchAt(filepath, i) {
        if i < |filepath| { assert !IsNameChar(filepath[|filepath| - 1]); }
      }
    } else {
      assert NameMatchAt(filepath, k);
      forall j | 0 <= j < k ensures !NameMatchAt(filepath, j) {
        assert !IsNameChar(filepath[k - 1]);
      }
    }
  }

  /** `const [moduleName, ext] = moduleFullname.split('.')`: the text before the first period. */
  function ModuleName(fullname: string): string
  {
    Split(fullname, '.')[0]
  }

  /** The module name is the longest period-free prefix of the full name. */
  lemma ModuleNameIsBeforeFirstDot(fullname: string)
    ensures var n := ModuleName(fullname);
      '.' !in n && |n| <= |fullname| && fullname[..|n|] == n &&
      (|n| == |fullname| || fullname[|n|] == '.')
  {
    SplitFirstIsPrefix(fullname, '.');
  }

  // ---------------------------------------------------------------------
  // Relative directory (index.js:69-75)
  // ---------------------------------------------------------------------

  /**
   * The chain of rewrites: sanitise, drop one trailing slash, replace the
   * first `srcPath` by `./`, collapse `//` in one pass, drop the last segment.
   */
  function RelPath(srcPath: string, filepath: string): string
  {
    var s := StripTrailingSlash(SanitizeFilePath(filepath));
    DropLastSegment(CollapseSlashes(ReplaceFirst(s, srcPath, "./")), '/')
  }

  /** The substitution step, where `filepath` starts with `srcPath`. */
  lemma ReplaceSrcPathAtFront(srcPath: string, rest: string)
    ensures ReplaceFirst(srcPath + rest, srcPath, "./") == "./" + rest
  {
    var s := srcPath + rest;
    assert OccursAt(s, srcPath, 0) by { assert s[..|srcPath|] == srcPath; }
    assert s[|srcPath|..] == rest;
  }

  /** What the collapsing pass does to the substituted prefix `.//`. */
  lemma CollapseAfterSubstitution(x: string)
    requires NoDoubleSlash(x)
    ensures CollapseSlashes(".//" + x) == "./" + x
  {
    AppendAssoc(".", "//", x);
    AppendAssoc(".", "/", x);
    CollapseKeepsFirst('.', "//" + x);
    CollapseMergesFirstPair(x);
    CollapseFixesNoDoubleSlash(x);
  }

  /** On a clean path without a trailing slash only the substitution acts before the collapse. */
  lemma RelPathOfCleanPath(srcPath: string, p: string, y: string)
    requires '\\' !in p && p != [] && p[|p| - 1] != '/'
    requires ReplaceFirst(p, srcPath, "./") == y
    ensures RelPath(srcPath, p) == DropLastSegment(CollapseSlashes(y), '/')
  {
    SanitizeFixesClean(p);
    StripTrailingSlashKeeps(p);
  }

  /** For a path `srcPath/x`, the first three rewrites leave `.//x`. */
  lemma RelPathBelowSrcPath(srcPath: string, x: string)
    requires '\\' !in srcPath && '\\' !in x
    requires x != [] && x[|x| - 1] != '/'
    ensures RelPath(srcPath, srcPath + "/" + x) == DropLastSegment(CollapseSlashes(".//" + x), '/')
  {
    SubstituteBelowSrcPath(srcPath, x);
    JoinedPathIsClean(srcPath, x);
    RelPathOfCleanPath(srcPath, srcPath + "/" + x, ".//" + x);
  }

  lemma JoinedPathIsClean(srcPath: string, x: string)
    requires '\\' !in srcPath && '\\' !in x
    requires x != [] && x[|x| - 1] != '/'
    ensures var p := srcPath + "/" + x; '\\' !in p && p != [] && p[|p| - 1] != '/'
  {
    var p := srcPath + "/" + x;
    assert p[|p| - 1] == x[|x| - 1];
  }

  /** The substitution step on `srcPath/x`. */
  lemma SubstituteBelowSrcPath(srcPath: string, x: string)
    ensures ReplaceFirst(srcPath + "/" + x, srcPath, "./") == ".//" + x
  {
    AppendAssoc(srcPath, "/", x);
    AppendAssoc(".", "/", "/" + x);
    ReplaceSrcPathAtFront(srcPath, "/" + x);
  }

  /**
   * A `srcPath` written with backslashes is never substituted: it is looked
   * for in the sanitised path, which holds none.
   */
  lemma BackslashSrcPathNeverFound(srcPath: string, filepath: string)
    requires '\\' in srcPath
    ensures ReplaceFirst(StripTrailingSlash(SanitizeFilePath(filepath)), srcPath, "./")
         == StripTrailingSlash(SanitizeFilePath(filepath))
  {
    var s := StripTrailingSlash(SanitizeFilePath(filepath));
    assert '\\' !in s;
    match IndexOf(s, srcPath)
    case None =>
    case Some(k) =>
      assert false;
  }

  /** A direct child `srcPath/f` of the source directory lies in `.`. */
  lemma RelPathOfDirectChild(srcPath: string, f: string)
    requires '\\' !in srcPath && '\\' !in f
    requires f != [] && '/' !in f
    ensures RelPath(srcPath, srcPath + "/" + f) == "."
  {
    assert f[|f| - 1] in f;
    RelPathBelowSrcPath(srcPath, f);
    NoSlashNoDoubleSlash(f);
    CollapseAfterSubstitution(f);
    DotSlash(f);
    DropLastSegmentAppend(".", f, '/');
  }

  /**
   * A file `srcPath/d/f` in a subfolder `d` (no doubled or trailing slash)
   * lies in `./d`.
   */
  lemma RelPathOfSubfolder(srcPath: string, d: string, f: string)
    requires '\\' !in srcPath && '\\' !in d && '\\' !in f
    requires d != [] && d[|d| - 1] != '/' && NoDoubleSlash(d)
    requires f != [] && '/' !in f
    ensures RelPath(srcPath, srcPath + "/" + d + "/" + f) == "./" + d
  {
    var x := d + "/" + f;
    AppendAssoc(srcPath + "/", d + "/", f);
    AppendAssoc(srcPath + "/", d, "/");
    AppendAssoc("./", d + "/", f);
    AppendAssoc("./", d, "/");
    assert f[|f| - 1] in f && f[0] in f;
    assert x[|x| - 1] == f[|f| - 1];
    RelPathBelowSrcPath(srcPath, x);
    NoSlashNoDoubleSlash(f);
    NoDoubleSlashAroundSlash(d, f);
    CollapseAfterSubstitution(x);
    DropLastSegmentAppend("./" + d, f, '/');
  }

  /**
   * Apart from the `./` the substitution brings in, the relative directory
   * holds only characters of the matched path.
   */
  lemma RelPathChars(srcPath: string, filepath: string, c: char)
    requires c != '/' && c != '\\' && c != '.'
    requires c !in filepath
    ensures c !in RelPath(srcPath, filepath)
  {
    var s0 := SanitizeFilePath(filepath);
    SanitizeChars(filepath, c);
    var s1 := StripTrailingSlash(s0);
    assert c !in s1;
    var s2 := ReplaceFirst(s1, srcPath, "./");
    if c in s2 { ReplaceFirstChars(s1, srcPath, "./", c); }
    var s3 := CollapseSlashes(s2);
    CollapseKeepsOtherChars(s2, c);
    if c in DropLastSegment(s3, '/') { DropLastSegmentChars(s3, '/', c); }
  }

  // ---------------------------------------------------------------------
  // One entry per path
  // ---------------------------------------------------------------------

  /** The entry the loop body derives from one matched path, or the throw. */
  function EntryOf(config: PathConfig, filepath: string): Result<ModuleEntry, SyncError>
  {
    var relPath := RelPath(config.path, filepath);
    match ModuleFullname(filepath)
    case None => Err(NoModuleName(filepath))
    case Some(fullname) =>
      var name := ModuleName(fullname);
      Ok(ModuleEntry(name, relPath, if IncludeExtension(config) then fullname else name))
  }

  /**
   * A path yields an entry exactly when it ends in a name character; the
   * entry's name has no period and only name characters, and its specifier
   * is the full trailing name with the extension option on and the module
   * name without it.
   */
  lemma EntryOfSpec(config: PathConfig, filepath: string)
    ensures EntryOf(config, filepath).Err? <==> (filepath == [] || !IsNameChar(filepath[|filepath| - 1]))
    ensures EntryOf(config, filepath).Err? ==> EntryOf(config, filepath).error == NoModuleName(filepath)
    ensures EntryOf(config, filepath).Ok? ==>
      var e := EntryOf(config, filepath).value;
      var full := ModuleFullname(filepath).value;
      e.relPath == RelPath(config.path, filepath) &&
      '.' !in e.name && |e.name| <= |full| && full[..|e.name|] == e.name && (|e.name| == |full| || full[|e.name|] == '.') &&
      (forall i :: 0 <= i < |e.name| ==> IsNameChar(e.name[i])) &&
      |full| <= |filepath| && filepath[|filepath| - |full|..] == full &&
      e.specifier == (if config.includeExtension == Some(true) then full else e.name)
  {
    ModuleFullnameIsLeftmostMatch(filepath);
    if ModuleFullname(filepath).Some? {
      var full := ModuleFullname(filepath).value;
      ModuleNameIsBeforeFirstDot(full);
      var n := ModuleName(full);
      var i := |filepath| - |full|;
      forall j | 0 <= j < |n| ensures IsNameChar(n[j]) {
        assert n[j] == full[j] == filepath[i + j];
      }
    }
  }

  /** After a separator, a file name made only of name characters is the whole full name. */
  lemma ModuleFullnameOfNameFile(dir: string, f: string)
    requires dir != [] && !IsNameChar(dir[|dir| - 1])
    requires f != [] && forall i :: 0 <= i < |f| ==> IsNameChar(f[i])
    ensures ModuleFullname(dir + f) == Some(f)
  {
    var p := dir + f;
    var k := |dir|;
    assert p[k - 1] == dir[|dir| - 1];
    assert forall j :: k <= j < |p| ==> p[j] == f[j - k];
    assert NameRunStart(p) == k;
    assert p[k..] == f;
  }

  /**
   * A direct child whose file name is made of name characters is imported
   * from `./` followed by its name, with or without the extension.
   */
  lemma DirectChildImport(config: PathConfig, f: string)
    requires '\\' !in config.path
    requires f != [] && forall i :: 0 <= i < |f| ==> IsNameChar(f[i])
    ensures var e := EntryOf(config, config.path + "/" + f);
      e.Ok? && e.value.relPath == "." && e.value.name == ModuleName(f) &&
      e.value.specifier == (if config.includeExtension == Some(true) then f else ModuleName(f))
  {
    assert !IsNameChar('\\') && !IsNameChar('/');
    assert '\\' !in f && '/' !in f;
    RelPathOfDirectChild(config.path, f);
    ModuleFullnameOfNameFile(config.path + "/", f);
  }

  /**
   * A direct child whose file name holds a character outside `[\w.]`, such
   * as the `-` of `my-comp.js`, is bound and imported by the part after the
   * last such character only: `import comp from './comp'`.
   */
  lemma PrefixedFileImport(config: PathConfig, prefix: string, f: string)
    requires '\\' !in config.path
    requires prefix != [] && !IsNameChar(prefix[|prefix| - 1]) && '/' !in prefix && '\\' !in prefix
    requires f != [] && forall i :: 0 <= i < |f| ==> IsNameChar(f[i])
    ensures var e := EntryOf(config, config.path + "/" + prefix + f);
      e.Ok? && e.value.relPath == "." && e.value.name == ModuleName(f) &&
      e.value.specifier == (if config.includeExtension == Some(true) then f else ModuleName(f))
  {
    assert !IsNameChar('\\') && !IsNameChar('/');
    assert '\\' !in f && '/' !in f;
    var name := prefix + f;
    assert '\\' !in name && '/' !in name;
    AppendAssoc(config.path + "/", prefix, f);
    RelPathOfDirectChild(config.path, name);
    ModuleFullnameOfNameFile(config.path + "/" + prefix, f);
  }

  // ---------------------------------------------------------------------
  // Rendering (index.js:65-66, 79-86)
  // ---------------------------------------------------------------------

  /** `import ${moduleName} from '${relPath}/${moduleStr}';\n` */
  function ImportLine(e: ModuleEntry): string
  {
    "import " + e.name + " from '" + e.relPath + "/" + e.specifier + "';" + "\n"
  }

  /** `  ${moduleName},\n` */
  function ExportLine(e: ModuleEntry): string
  {
    "  " + e.name + "," + "\n"
  }

  /** The `imports` string after the loop has seen `es`. */
  function Imports(es: seq<ModuleEntry>): string
    decreases |es|
  {
    if es == [] then "" else Imports(es[..|es| - 1]) + ImportLine(es[|es| - 1])
  }

  /** The property lines the loop appends to `exports` for `es`. */
  function ExportProps(es: seq<ModuleEntry>): string
    decreases |es|
  {
    if es == [] then "" else ExportProps(es[..|es| - 1]) + ExportLine(es[|es| - 1])
  }

  /** The `exports` string once the object is closed. */
  function ExportsBlock(es: seq<ModuleEntry>): string
  {
    ExportsOpen + ExportProps(es) + ExportsClose
  }

  /** `[imports, exports].join('\n\n')`. */
  function Content(es: seq<ModuleEntry>): string
  {
    Imports(es) + "\n\n" + ExportsBlock(es)
  }

  /** `${srcPath}/index.js` */
  function IndexPath(srcPath: string): string
  {
    srcPath + "/index.js"
  }

  /** `EntryOf` for one configuration, as the callback of the loop. */
  function EntryFn(config: PathConfig): string -> Result<ModuleEntry, SyncError>
  {
    p => EntryOf(config, p)
  }

  /** The entries of `paths` in order, or the error of the first path that has none. */
  function Entries(config: PathConfig, paths: seq<string>): Result<seq<ModuleEntry>, SyncError>
  {
    MapResult(paths, EntryFn(config))
  }

  /** The whole run as a value: sort, derive, render, and the write or the throw. */
  function Generate(config: PathConfig, matched: seq<string>): Result<IndexWrite, SyncError>
  {
    match Entries(config, SortPaths(matched))
    case Err(e) => Err(e)
    case Ok(es) => Ok(IndexWrite(IndexPath(config.path), Content(es)))
  }

  lemma ImportsOfOne(e: ModuleEntry)
    ensures Imports([e]) == ImportLine(e)
  {
    assert [e][..0] == [];
  }

  lemma ExportPropsOfOne(e: ModuleEntry)
    ensures ExportProps([e]) == ExportLine(e)
  {
    assert [e][..0] == [];
  }

  /** The import block distributes over concatenation of entry lists. */
  lemma {:induction false} ImportsAppend(a: seq<ModuleEntry>, b: seq<ModuleEntry>)
    ensures Imports(a + b) == Imports(a) + Imports(b)
    decreases |b|
  {
    if b == [] {
      assert a + b == a;
    } else {
      var n := |b|;
      var b0, x := b[..n - 1], b[n - 1];
      assert (a + b)[..|a + b| - 1] == a + b0 && (a + b)[|a + b| - 1] == x;
      ImportsAppend(a, b0);
      AppendAssoc(Imports(a), Imports(b0), ImportLine(x));
    }
  }

  /** The export properties distribute over concatenation of entry lists. */
  lemma {:induction false} ExportPropsAppend(a: seq<ModuleEntry>, b: seq<ModuleEntry>)
    ensures ExportProps(a + b) == ExportProps(a) + ExportProps(b)
    decreases |b|
  {
    if b == [] {
      assert a + b == a;
    } else {
      var n := |b|;
      var b0, x := b[..n - 1], b[n - 1];
      assert (a + b)[..|a + b| - 1] == a + b0 && (a + b)[|a + b| - 1] == x;
      ExportPropsAppend(a, b0);
      AppendAssoc(ExportProps(a), ExportProps(b0), ExportLine(x));
    }
  }

  /**
   * Line for line: the i-th import line comes from the i-th entry, after
   * the lines of the entries before it.
   */
  lemma ImportLineAt(es: seq<ModuleEntry>, i: nat)
    requires i < |es|
    ensures Imports(es) == Imports(es[..i]) + ImportLine(es[i]) + Imports(es[i + 1..])
  {
    var p, x, q := es[..i], es[i], es[i + 1..];
    SplitAround(es, i);
    ImportsAppend(p + [x], q);
    ImportsAppend(p, [x]);
    ImportsOfOne(x);
  }

  /** Likewise the i-th export property comes from the i-th entry. */
  lemma ExportLineAt(es: seq<ModuleEntry>, i: nat)
    requires i < |es|
    ensures ExportProps(es) == ExportProps(es[..i]) + ExportLine(es[i]) + ExportProps(es[i + 1..])
  {
    var p, x, q := es[..i], es[i], es[i + 1..];
    SplitAround(es, i);
    ExportPropsAppend(p + [x], q);
    ExportPropsAppend(p, [x]);
    ExportPropsOfOne(x);
  }

  /** Each import line ends in the only line break it holds, given parts without line breaks. */
  lemma ImportLineBreaks(e: ModuleEntry)
    requires '\n' !in e.name && '\n' !in e.relPath && '\n' !in e.specifier
    ensures multiset(ImportLine(e))['\n'] == 1
  {
    var head := "import " + e.name + " from '" + e.relPath + "/" + e.specifier + "';";
    ImportHeadLineFree(e.name, e.relPath, e.specifier);
    FinalLineBreak(head);
  }

  /** The import line up to its line break holds none, given parts without one. */
  lemma ImportHeadLineFree(name: string, relPath: string, specifier: string)
    requires '\n' !in name && '\n' !in relPath && '\n' !in specifier
    ensures '\n' !in "import " + name + " from '" + relPath + "/" + specifier + "';"
  {
    var b1 := "import " + name;
    AbsentFromAppend('\n', "import ", name);
    AbsentFromAppend('\n', b1, " from '");
    var b2 := b1 + " from '" + relPath;
    AbsentFromAppend('\n', b1 + " from '", relPath);
    AbsentFromAppend('\n', b2, "/");
    var b3 := b2 + "/" + specifier;
    AbsentFromAppend('\n', b2 + "/", specifier);
    AbsentFromAppend('\n', b3, "';");
  }

  /** Each export property ends in the only line break it holds, given a name without one. */
  lemma ExportLineBreaks(e: ModuleEntry)
    requires '\n' !in e.name
    ensures multiset(ExportLine(e))['\n'] == 1
  {
    AbsentFromAppend('\n', "  ", e.name);
    AbsentFromAppend('\n', "  " + e.name, ",");
    FinalLineBreak("  " + e.name + ",");
  }

  /** A line break appended to text without one is its only line break. */
  lemma FinalLineBreak(head: string)
    requires '\n' !in head
    ensures multiset(head + "\n")['\n'] == 1
  {
    assert multiset(head + "\n") == multiset(head) + multiset{'\n'};
  }

  /** No entry part holds a line break. */
  predicate SingleLineEntries(es: seq<ModuleEntry>)
  {
    forall i :: 0 <= i < |es| ==> '\n' !in es[i].name && '\n' !in es[i].relPath && '\n' !in es[i].specifier
  }

  /** The import block holds one line per entry when no entry part holds a line break. */
  lemma {:induction false} ImportsLineCount(es: seq<ModuleEntry>)
    requires SingleLineEntries(es)
    ensures multiset(Imports(es))['\n'] == |es|
    decreases |es|
  {
    if es != [] {
      var n := |es|;
      assert SingleLineEntries(es[..n - 1]);
      ImportsLineCount(es[..n - 1]);
      ImportLineBreaks(es[n - 1]);
      assert Imports(es) == Imports(es[..n - 1]) + ImportLine(es[n - 1]);
    }
  }

  /** The export properties are one line per entry when no name holds a line break. */
  lemma {:induction false} ExportPropsLineCount(es: seq<ModuleEntry>)
    requires SingleLineEntries(es)
    ensures multiset(ExportProps(es))['\n'] == |es|
    decreases |es|
  {
    if es != [] {
      var n := |es|;
      assert SingleLineEntries(es[..n - 1]);
      ExportPropsLineCount(es[..n - 1]);
      ExportLineBreaks(es[n - 1]);
      assert ExportProps(es) == ExportProps(es[..n - 1]) + ExportLine(es[n - 1]);
    }
  }

  /** A matched path has no module name when it is empty or ends outside `[\w.]`. */
  predicate NoNameEnd(p: string)
  {
    p == [] || !IsNameChar(p[|p| - 1])
  }

  /** A run fails exactly when some matched path has no module name. */
  lemma GenerateFailsIff(config: PathConfig, matched: seq<string>)
    ensures Generate(config, matched).Err? <==> exists p :: p in matched && NoNameEnd(p)
  {
    var sorted := SortPaths(matched);
    MapResultOkIff(sorted, EntryFn(config));
    forall i | 0 <= i < |sorted| ensures EntryOf(config, sorted[i]).Err? <==> NoNameEnd(sorted[i]) {
      EntryOfSpec(config, sorted[i]);
    }
    forall p ensures p in matched <==> p in sorted {
      assert p in matched <==> p in multiset(matched);
    }
  }

  /** Deriving entries fails at the first path that has no module name. */
  lemma EntriesFailAtFirst(config: PathConfig, paths: seq<string>)
    requires Entries(config, paths).Err?
    ensures exists k ::
      0 <= k < |paths| && Entries(config, paths).error == NoModuleName(paths[k]) &&
      NoNameEnd(paths[k]) && (forall j :: 0 <= j < k ==> !NoNameEnd(paths[j]))
  {
    MapResultErrFirst(paths, EntryFn(config));
    var k :| 0 <= k < |paths| && EntryFn(config)(paths[k]) == Err(Entries(config, paths).error) &&
      (forall j :: 0 <= j < k ==> EntryFn(config)(paths[j]).Ok?);
    EntryFnIsEntryOf(config, paths[k]);
    EntryOfSpec(config, paths[k]);
    forall j | 0 <= j < k ensures !NoNameEnd(paths[j]) {
      EntryFnIsEntryOf(config, paths[j]);
      EntryOfSpec(config, paths[j]);
    }
  }

  /** A failing run reports the first path in sorted order that has no module name. */
  lemma GenerateFailsAtFirst(config: PathConfig, matched: seq<string>)
    requires Generate(config, matched).Err?
    ensures var sorted := SortPaths(matched);
      exists k ::
        0 <= k < |sorted| && Generate(config, matched).error == NoModuleName(sorted[k]) &&
        NoNameEnd(sorted[k]) && (forall j :: 0 <= j < k ==> !NoNameEnd(sorted[j]))
  {
    EntriesFailAtFirst(config, SortPaths(matched));
    assert Generate(config, matched).error == Entries(config, SortPaths(matched)).error;
  }

  /**
   * A successful run writes `<srcPath>/index.js` with one entry per matched
   * path, the i-th for the i-th path in ascending order.
   */
  lemma GenerateWrites(config: PathConfig, matched: seq<string>)
    requires Generate(config, matched).Ok?
    ensures var sorted := SortPaths(matched);
      var es := Entries(config, sorted).value;
      Generate(config, matched).value == IndexWrite(config.path + "/index.js", Content(es)) &&
      Sorted(sorted) && multiset(sorted) == multiset(matched) &&
      |sorted| == |matched| && |es| == |matched| &&
      forall i :: 0 <= i < |es| ==> EntryOf(config, sorted[i]) == Ok(es[i])
  {
    var sorted := SortPaths(matched);
    MapResultOkValues(sorted, EntryFn(config));
    assert |sorted| == |matched| by { assert |multiset(sorted)| == |multiset(matched)|; }
  }

  /** The content depends only on which paths matched, not on the order the glob returned them in. */
  lemma GenerateDependsOnMultiset(config: PathConfig, m1: seq<string>, m2: seq<string>)
    requires multiset(m1) == multiset(m2)
    ensures Generate(config, m1) == Generate(config, m2)
  {
    SortPathsDependsOnMultiset(m1, m2);
  }

  /** An empty directory still gets an index: an empty export object after the blank line. */
  lemma GenerateEmpty(config: PathConfig)
    ensures Generate(config, []) == Ok(IndexWrite(config.path + "/index.js", "\n\nexport default {\n};"))
  {
    assert SortPaths([]) == [];
    assert Entries(config, []) == Ok([]);
    assert ExportsBlock([]) == "export default {\n};";
    assert Content([]) == "\n\n" + "export default {\n};";
    assert "\n\n" + "export default {\n};" == "\n\nexport default {\n};";
  }

  /** Entries derived from paths without line breaks hold no line breaks. */
  lemma EntriesSingleLine(config: PathConfig, paths: seq<string>)
    requires Entries(config, paths).Ok?
    requires forall i :: 0 <= i < |paths| ==> '\n' !in paths[i]
    ensures |Entries(config, paths).value| == |paths|
    ensures SingleLineEntries(Entries(config, paths).value)
  {
    MapResultOkValues(paths, EntryFn(config));
    var es := Entries(config, paths).value;
    forall i | 0 <= i < |es|
      ensures '\n' !in es[i].name && '\n' !in es[i].relPath && '\n' !in es[i].specifier
    {
      EntryFnIsEntryOf(config, paths[i]);
      EntryLineFree(config, paths[i]);
    }
  }

  /**
   * A successful run writes the imports, a blank line, then the export
   * object; with no line breaks in the matched paths, the imports and the
   * export properties are as many lines as there are matched paths.
   */
  lemma GenerateLineCount(config: PathConfig, matched: seq<string>)
    requires Generate(config, matched).Ok?
    requires forall p :: p in matched ==> '\n' !in p
    ensures var c := Generate(config, matched).value.content;
      var es := Entries(config, SortPaths(matched)).value;
      c == Imports(es) + "\n\n" + ("export default {\n" + ExportProps(es) + "};") &&
      multiset(Imports(es))['\n'] == |matched| &&
      multiset(ExportProps(es))['\n'] == |matched|
  {
    var sorted := SortPaths(matched);
    assert |sorted| == |matched| by { assert |multiset(sorted)| == |multiset(matched)|; }
    forall i | 0 <= i < |sorted| ensures '\n' !in sorted[i] {
      assert sorted[i] in multiset(matched);
    }
    EntriesSingleLine(config, sorted);
    var es := Entries(config, sorted).value;
    ImportsLineCount(es);
    ExportPropsLineCount(es);
  }

  /** A path without line breaks yields an entry without line breaks. */
  lemma EntryLineFree(config: PathConfig, filepath: string)
    requires EntryOf(config, filepath).Ok?
    requires '\n' !in filepath
    ensures var e := EntryOf(config, filepath).value;
      '\n' !in e.name && '\n' !in e.relPath && '\n' !in e.specifier
  {
    EntryOfSpec(config, filepath);
    RelPathChars(config.path, filepath, '\n');
    var full := ModuleFullname(filepath).value;
    assert full == filepath[|filepath| - |full|..];
    assert !IsNameChar('\n');
  }

  /** The loop meets a path without a module name: the run throws there. */
  lemma EntriesStopAt(config: PathConfig, paths: seq<string>, i: nat)
    requires i < |paths| && Entries(config, paths[..i]).Ok?
    requires ModuleFullname(paths[i]).None?
    ensures Entries(config, paths) == Err(NoModuleName(paths[i]))
  {
    assert paths[..i + 1][..i] == paths[..i];
    EntryFnIsEntryOf(config, paths[i]);
    MapResultPrefixErr(paths, EntryFn(config), i + 1);
  }

  /** The loop meets a path with a module name: its entry joins the list. */
  lemma EntriesStep(config: PathConfig, paths: seq<string>, i: nat, es: seq<ModuleEntry>)
    requires i < |paths| && Entries(config, paths[..i]) == Ok(es)
    requires ModuleFullname(paths[i]).Some?
    ensures var full := ModuleFullname(paths[i]).value;
      var name := ModuleName(full);
      Entries(config, paths[..i + 1])
        == Ok(es + [ModuleEntry(name, RelPath(config.path, paths[i]), if IncludeExtension(config) then full else name)])
  {
    EntryFnIsEntryOf(config, paths[i]);
    var full := ModuleFullname(paths[i]).value;
    var name := ModuleName(full);
    var e := ModuleEntry(name, RelPath(config.path, paths[i]), if IncludeExtension(config) then full else name);
    MapResultSnoc(paths, EntryFn(config), i, es, e);
  }

  /** The two lines the loop appends for an entry extend the rendered text by that entry. */
  lemma EntryLines(es: seq<ModuleEntry>, e: ModuleEntry, importLine: string, exportLine: string)
    requires importLine == "import " + e.name + " from '" + e.relPath + "/" + e.specifier + "';\n"
    requires exportLine == "  " + e.name + ",\n"
    ensures Imports(es + [e]) == Imports(es) + importLine
    ensures ExportsOpen + ExportProps(es + [e]) == ExportsOpen + ExportProps(es) + exportLine
  {
    assert (es + [e])[..|es|] == es;
    AppendAssoc("import " + e.name + " from '" + e.relPath + "/" + e.specifier, "';", "\n");
    AppendAssoc("  " + e.name, ",", "\n");
    AppendAssoc(ExportsOpen, ExportProps(es), exportLine);
  }

  // ---------------------------------------------------------------------
  // processPath itself
  // ---------------------------------------------------------------------

  /**
   * `processPath(pathConfig)`: query the glob, sort its result in place,
   * append an import line and an export property per path, close the
   * export object and return the write.
   */
  method ProcessPath(config: PathConfig, glob: GlobQuery -> seq<string>) returns (r: Result<IndexWrite, SyncError>)
    ensures r == Generate(config, glob(Query(config)))
  {
    var ignorePaths := IgnorePaths(config.ignore);
    var pattern := if IncludeSubfolders(config) then config.path + "/**/*" else config.path + "/*";
    var matched := glob(GlobQuery(pattern, [IndexIgnore] + ignorePaths));
    var files := new string[|matched|](i requires 0 <= i < |matched| => matched[i]);
    assert files[..] == matched;
    SortInPlace(files);
    ghost var sorted := files[..];

    var imports := "";
    var exports := ExportsOpen;
    var i := 0;
    ghost var es: seq<ModuleEntry> := [];
    while i < files.Length
      invariant 0 <= i <= files.Length
      invariant files[..] == sorted
      invariant Entries(config, sorted[..i]) == Ok(es)
      invariant imports == Imports(es)
      invariant exports == ExportsOpen + ExportProps(es)
    {
      var filepath := files[i];
      var relPath := RelPath(config.path, filepath);
      var fullname := ModuleFullname(filepath);
      if fullname.None? {
        EntriesStopAt(config, sorted, i);
        return Err(NoModuleName(filepath));
      }
      var moduleName := ModuleName(fullname.value);
      var moduleStr := if IncludeExtension(config) then fullname.value else moduleName;
      var importLine := "import " + moduleName + " from '" + relPath + "/" + moduleStr + "';\n";
      var exportLine := "  " + moduleName + ",\n";
      ghost var e := ModuleEntry(moduleName, relPath, moduleStr);
      EntriesStep(config, sorted, i, es);
      EntryLines(es, e, importLine, exportLine);
      imports := imports + importLine;
      exports := exports + exportLine;
      es := es + [e];
      i := i + 1;
    }
    exports := exports + ExportsClose;

    var indexPath := config.path + "/index.js";
    var content := imports + "\n\n" + exports;
    assert sorted[..i] == sorted;
    return Ok(IndexWrite(indexPath, content));
  }

  // Rewriting steps. Each is a one-line fact Dafny proves unaided; it is stated
  // as a lemma only so that a caller can obtain the rewritten term without the
  // definitions involved being unfolded. None of them is a property of the model.

  lemma EntryFnIsEntryOf(config: PathConfig, filepath: string)
    ensures EntryFn(config)(filepath) == EntryOf(config, filepath)
  {
  }
}
