/**
 * The plugin's two triggers (index.js:21-40). When the dev server starts,
 * every configured directory is indexed. When the watcher reports an added
 * or removed file, every configuration whose `path` pattern matches the
 * sanitised file path is indexed again. Configurations are visited in list
 * order, and a throw stops the ones after it.
 *
 * The regular-expression test `new RegExp(path).test(file)` is the
 * parameter `isMatch`, and the file system is the fixed `glob` oracle.
 */
module Plugin {
  import opened Wrappers
  import opened Sequences
  import opened Sanitizer
  import opened AutoIndex

  /** The writes performed, in order, and the error that stopped the visit, if any. */
  datatype SyncRun = SyncRun(writes: seq<IndexWrite>, failure: Option<SyncError>)

  /** `processPath(config)` against the file system that `glob` describes. */
  function RunOne(config: PathConfig, glob: GlobQuery -> seq<string>): Result<IndexWrite, SyncError>
  {
    Generate(config, glob(Query(config)))
  }

  function RunFn(glob: GlobQuery -> seq<string>): PathConfig -> Result<IndexWrite, SyncError>
  {
    (c: PathConfig) => RunOne(c, glob)
  }

  /** The configurations `selected` admits, in their list order. */
  function Selected(configs: seq<PathConfig>, selected: PathConfig -> bool): (r: seq<PathConfig>)
    ensures |r| <= |configs|
    ensures forall c :: c in r <==> c in configs && selected(c)
    decreases |configs|
  {
    if configs == [] then []
    else if selected(configs[0]) then [configs[0]] + Selected(configs[1..], selected)
    else Selected(configs[1..], selected)
  }

  /** A single configuration is kept exactly when the selection admits it. */
  lemma SelectedOne(c: PathConfig, selected: PathConfig -> bool)
    ensures Selected([c], selected) == if selected(c) then [c] else []
  {
    assert [c][1..] == [];
  }

  /**
   * Selection distributes over concatenation. With `SelectedOne` this fixes
   * the result as the admitted configurations in their list order, each copy
   * kept.
   */
  lemma {:induction false} SelectedAppend(a: seq<PathConfig>, b: seq<PathConfig>, selected: PathConfig -> bool)
    ensures Selected(a + b, selected) == Selected(a, selected) + Selected(b, selected)
    decreases |a|
  {
    if a == [] {
      assert a + b == b;
    } else {
      assert (a + b)[0] == a[0] && (a + b)[1..] == a[1..] + b;
      SelectedAppend(a[1..], b, selected);
    }
  }

  /**
   * `configs.forEach(c => { if (selected(c)) processPath(c); })`: the writes
   * of the selected configurations up to the first one that throws.
   */
  function Sync(configs: seq<PathConfig>, selected: PathConfig -> bool,
                run: PathConfig -> Result<IndexWrite, SyncError>): SyncRun
    decreases |configs|
  {
    if configs == [] then SyncRun([], None)
    else
      var rest := Sync(configs[1..], selected, run);
      if !selected(configs[0]) then rest
      else
        match run(configs[0])
        case Err(e) => SyncRun([], Some(e))
        case Ok(w) => SyncRun([w] + rest.writes, rest.failure)
  }

  /** The routing of a watcher event: the configurations whose pattern matches the sanitised path. */
  function Routed(isMatch: (string, string) -> bool, sanitized: string): PathConfig -> bool
  {
    (c: PathConfig) => isMatch(c.path, sanitized)
  }

  function All(): PathConfig -> bool
  {
    (c: PathConfig) => true
  }

  /** The visit writes `done` and then does what the rest of the list does. */
  function After(done: seq<IndexWrite>, run: SyncRun): SyncRun
  {
    SyncRun(done + run.writes, run.failure)
  }

  /** The loop over the configurations, processing the selected ones. */
  method SyncEach(configs: seq<PathConfig>, selected: PathConfig -> bool, glob: GlobQuery -> seq<string>)
    returns (run: SyncRun)
    ensures run == Sync(configs, selected, RunFn(glob))
  {
    ghost var step := RunFn(glob);
    var writes: seq<IndexWrite> := [];
    var i := 0;
    AfterNothing(Sync(configs, selected, step));
    while i < |configs|
      invariant 0 <= i <= |configs|
      invariant Sync(configs, selected, step) == After(writes, Sync(configs[i..], selected, step))
    {
      var config := configs[i];
      assert configs[i..][1..] == configs[i + 1..];
      if selected(config) {
        var r := ProcessPath(config, glob);
        ProcessPathIsRunStep(config, glob, r);
        if r.Err? {
          AfterAfter(writes, [], SyncRun([], Some(r.error)));
          assert writes + [] == writes;
          return SyncRun(writes, Some(r.error));
        }
        AfterAfter(writes, [r.value], Sync(configs[i + 1..], selected, step));
        writes := writes + [r.value];
      }
      i := i + 1;
    }
    assert writes + [] == writes;
    return SyncRun(writes, None);
  }

  /** `configureServer`: `pathsConfig.forEach(processPath)`. */
  method Startup(configs: seq<PathConfig>, glob: GlobQuery -> seq<string>) returns (run: SyncRun)
    ensures run == Sync(configs, All(), RunFn(glob))
  {
    run := SyncEach(configs, All(), glob);
  }

  /** `handleWatcherUpdate(filepath)`, run for both `add` and `unlink` events. */
  method HandleWatcherUpdate(configs: seq<PathConfig>, filepath: string, isMatch: (string, string) -> bool,
                             glob: GlobQuery -> seq<string>) returns (run: SyncRun)
    ensures run == Sync(configs, Routed(isMatch, SanitizeFilePath(filepath)), RunFn(glob))
  {
    var sanitizedFilepath := SanitizeFilePath(filepath);
    run := SyncEach(configs, Routed(isMatch, sanitizedFilepath), glob);
  }

  /**
   * When every selected configuration succeeds, their writes are performed
   * in list order, one per selected configuration, and nothing fails.
   */
  lemma {:induction false} SyncSucceeds(configs: seq<PathConfig>, selected: PathConfig -> bool,
                                        step: PathConfig -> Result<IndexWrite, SyncError>)
    requires MapResult(Selected(configs, selected), step).Ok?
    ensures Sync(configs, selected, step) == SyncRun(MapResult(Selected(configs, selected), step).value, None)
    decreases |configs|
  {
    if configs != [] {
      var c, rest := configs[0], configs[1..];
      if selected(c) {
        MapResultCons(c, Selected(rest, selected), step);
      }
      SyncSucceeds(rest, selected, step);
    }
  }

  /**
   * When some selected configuration throws, the visit stops there: the
   * writes are those of the selected configurations before it, and its
   * error is the failure.
   */
  lemma {:induction false} SyncStops(configs: seq<PathConfig>, selected: PathConfig -> bool,
                                     step: PathConfig -> Result<IndexWrite, SyncError>)
    requires MapResult(Selected(configs, selected), step).Err?
    ensures var run := Sync(configs, selected, step);
      var sel := Selected(configs, selected);
      var k := |run.writes|;
      run.failure == Some(MapResult(sel, step).error) &&
      k < |sel| &&
      MapResult(sel[..k], step) == Ok(run.writes) &&
      step(sel[k]) == Err(run.failure.value)
    decreases |configs|
  {
    var c, rest := configs[0], configs[1..];
    if !selected(c) {
      SyncStops(rest, selected, step);
    } else {
      var tail := Selected(rest, selected);
      var sel := [c] + tail;
      MapResultCons(c, tail, step);
      assert sel[..0] == [];
      if step(c).Ok? {
        SyncStops(rest, selected, step);
        var k := |Sync(rest, selected, step).writes|;
        assert sel[..k + 1] == [c] + tail[..k];
        assert sel[k + 1] == tail[k];
        MapResultCons(c, tail[..k], step);
      }
    }
  }

  /** All configurations are visited at startup. */
  lemma SelectedAll(configs: seq<PathConfig>)
    ensures Selected(configs, All()) == configs
    decreases |configs|
  {
    if configs != [] {
      SelectedAll(configs[1..]);
      assert configs == [configs[0]] + configs[1..];
    }
  }

  /**
   * At startup, when every configuration succeeds, each one is written once,
   * in list order.
   */
  lemma StartupWritesAll(configs: seq<PathConfig>, glob: GlobQuery -> seq<string>)
    requires MapResult(configs, RunFn(glob)).Ok?
    ensures Sync(configs, All(), RunFn(glob)) == SyncRun(MapResult(configs, RunFn(glob)).value, None)
  {
    SelectedAll(configs);
    SyncSucceeds(configs, All(), RunFn(glob));
  }

  /** A watcher event whose path no pattern matches writes nothing and cannot fail. */
  lemma {:induction false} UnroutedEventIsQuiet(configs: seq<PathConfig>, isMatch: (string, string) -> bool,
                                                step: PathConfig -> Result<IndexWrite, SyncError>, filepath: string)
    requires forall c :: c in configs ==> !isMatch(c.path, SanitizeFilePath(filepath))
    ensures Sync(configs, Routed(isMatch, SanitizeFilePath(filepath)), step) == SyncRun([], None)
    decreases |configs|
  {
    if configs != [] {
      assert configs[0] in configs;
      assert forall c :: c in configs[1..] ==> c in configs;
      UnroutedEventIsQuiet(configs[1..], isMatch, step, filepath);
    }
  }

  /**
   * Of two configurations, an event whose path matches only the first
   * re-indexes the first and leaves the second's index untouched.
   */
  lemma RoutingIsolation(a: PathConfig, b: PathConfig, isMatch: (string, string) -> bool,
                         step: PathConfig -> Result<IndexWrite, SyncError>, filepath: string)
    requires isMatch(a.path, SanitizeFilePath(filepath)) && !isMatch(b.path, SanitizeFilePath(filepath))
    ensures var run := Sync([a, b], Routed(isMatch, SanitizeFilePath(filepath)), step);
      step(a).Ok? ==> run == SyncRun([step(a).value], None)
    ensures var run := Sync([a, b], Routed(isMatch, SanitizeFilePath(filepath)), step);
      step(a).Err? ==> run == SyncRun([], Some(step(a).error))
  {
    var route := Routed(isMatch, SanitizeFilePath(filepath));
    assert route(a) && !route(b);
    assert [a, b][1..] == [b] && [b][1..] == [];
    assert Sync([b], route, step) == SyncRun([], None);
    if step(a).Ok? {
      assert [step(a).value] + [] == [step(a).value];
    }
  }

  /**
   * Routing looks at the sanitised path only: two spellings of a path that
   * differ in their separators reach the same configurations.
   */
  lemma RoutingIgnoresSeparators(f1: string, f2: string)
    requires |f1| == |f2|
    requires forall i :: 0 <= i < |f1| ==> f1[i] == f2[i] || (f1[i] in "/\\" && f2[i] in "/\\")
    ensures SanitizeFilePath(f1) == SanitizeFilePath(f2)
  {
    var s1, s2 := SanitizeFilePath(f1), SanitizeFilePath(f2);
    forall i | 0 <= i < |f1| ensures s1[i] == s2[i] {
      if f1[i] != f2[i] {
        assert f1[i] == '/' || f1[i] == '\\';
        assert f2[i] == '/' || f2[i] == '\\';
      }
    }
  }

  // Rewriting steps. Each is a one-line fact Dafny proves unaided; it is stated
  // as a lemma only so that a caller can obtain the rewritten term without the
  // definitions involved being unfolded. None of them is a property of the model.

  lemma AfterNothing(run: SyncRun)
    ensures After([], run) == run
  {
    assert [] + run.writes == run.writes;
  }

  lemma AfterAfter(a: seq<IndexWrite>, b: seq<IndexWrite>, run: SyncRun)
    ensures After(a, After(b, run)) == After(a + b, run)
  {
    assert a + (b + run.writes) == (a + b) + run.writes;
  }

  /** `processPath` is the step the visit takes for a selected configuration. */
  lemma ProcessPathIsRunStep(config: PathConfig, glob: GlobQuery -> seq<string>, r: Result<IndexWrite, SyncError>)
    requires r == Generate(config, glob(Query(config)))
    ensures RunFn(glob)(config) == r
  {
  }
}
