/** The running script: the walker's event handlers and the change callbacks
    they install. Every externally visible action is recorded, in order, as an
    effect: a change watch installed with `fs.watchFile`, a line written with
    `console.log`, and a read issued with `fs.readFile` whose callback will
    compile into a given output path. */
module Watcher {
  import opened Wrappers
  import opened Js
  import opened Paths
  import opened Config
  import opened Selection
  import opened Mapping

  datatype Effect =
    | WatchFile(path: string)
    | Log(line: string)
    | ReadFile(path: string, output: string)

  /** The file status objects a change notification carries (`curr`, `prev`). */
  datatype FileStats = FileStats(mtime: int, size: int)

  /** The watched paths, in the order their watches were installed. */
  function Watches(trace: seq<Effect>): (r: seq<string>)
    ensures |r| <= |trace|
  {
    if trace == [] then []
    else
      var rest := Watches(trace[1..]);
      if trace[0].WatchFile? then [trace[0].path] + rest else rest
  }

  /** A path is watched exactly when the trace holds a watch on it. */
  lemma {:induction false} WatchesMembership(trace: seq<Effect>, p: string)
    ensures p in Watches(trace) <==> WatchFile(p) in trace
    decreases |trace|
  {
    if trace != [] {
      WatchesMembership(trace[1..], p);
      assert WatchFile(p) in trace <==> trace[0] == WatchFile(p) || WatchFile(p) in trace[1..];
    }
  }

  /** Watches are collected piecewise along a trace. */
  lemma {:induction false} WatchesAppend(a: seq<Effect>, b: seq<Effect>)
    ensures Watches(a + b) == Watches(a) + Watches(b)
    decreases |a|
  {
    if a == [] {
      assert a + b == b;
    } else {
      WatchesAppend(a[1..], b);
      assert (a + b)[0] == a[0];
      assert (a + b)[1..] == a[1..] + b;
    }
  }

  /** What `compileLessFile(lessFile)` does: log the output path, then issue the
      read whose callback compiles into that path. */
  function CompileEffects(cfg: Settings, lessFile: string): (r: seq<Effect>)
    requires MapsCleanly(cfg, lessFile)
    ensures Watches(r) == []
  {
    var cssFile := OutputPath(cfg, lessFile);
    [Log("updating: " + cssFile), ReadFile(lessFile, cssFile)]
  }

  /** A file whose change watch the walker may install: a selected file under the root. */
  predicate IsWatchable(cfg: Settings, p: string) {
    IsUnder(cfg.root, p) && IsLessFile(p)
  }

  /** Every watch in the trace is on a watchable file. */
  ghost predicate WatchesWatchable(cfg: Settings, trace: seq<Effect>) {
    forall p :: p in Watches(trace) ==> IsWatchable(cfg, p)
  }

  /** Installing a watch on a watchable file keeps every watch watchable. */
  lemma {:induction false} WatchKeepsWatchable(cfg: Settings, trace: seq<Effect>, p: string)
    requires WatchesWatchable(cfg, trace) && IsWatchable(cfg, p)
    ensures WatchesWatchable(cfg, trace + [WatchFile(p)])
    ensures Watches(trace + [WatchFile(p)]) == Watches(trace) + [p]
  {
    WatchesAppend(trace, [WatchFile(p)]);
    assert Watches([WatchFile(p)]) == [p];
  }

  /** Effects that install no watch leave the watched paths as they were. */
  lemma {:induction false} NoWatchKeepsWatches(cfg: Settings, trace: seq<Effect>, more: seq<Effect>)
    requires Watches(more) == []
    ensures Watches(trace + more) == Watches(trace)
    ensures WatchesWatchable(cfg, trace) ==> WatchesWatchable(cfg, trace + more)
  {
    WatchesAppend(trace, more);
    assert Watches(trace) + [] == Watches(trace);
  }

  class WatchLess {
    const config: Settings
    var trace: seq<Effect>

    ghost predicate Valid()
      reads this
    {
      ValidConfig(config) && WatchesWatchable(config, trace)
    }

    /** The paths with an installed change watch. */
    function Watched(): seq<string>
      reads this
    {
      Watches(trace)
    }

    /** Start-up: resolve the configuration; nothing has happened yet. */
    constructor (cwd: string, argv: Argv)
      requires ArgsOk(cwd, argv) && SafeExtension(NormalizeExtension(argv.extension))
      ensures config == ResolveConfig(cwd, argv)
      ensures trace == [] && Valid()
    {
      config := ResolveConfig(cwd, argv);
      trace := [];
      assert Watches([]) == [];
    }

    /** The walker's `directories` handler: continue into the directory exactly
        when its name is not on the ignore list; for an ignored name the
        continuation is never invoked. */
    method OnDirectory(name: string) returns (next: bool)
      ensures next <==> name !in config.ignore
    {
      next := IndexOf(config.ignore, name) == -1;
    }

    /** The walker's `file` handler: a selected file gets one change watch on its
        resolved path, and the walk always continues. No compile is started. */
    method OnFile(dir: string, name: string) returns (next: bool)
      requires Valid() && Within(config.root, dir) && IsSegment(name)
      modifies this
      ensures Valid() && next
      ensures trace == old(trace) + if IsLessFile(name) then [WatchFile(Resolve(dir, name))] else []
      ensures Watched() == old(Watched()) + if IsLessFile(name) then [Resolve(dir, name)] else []
    {
      if IsLessFile(name) {
        var filePath := Resolve(dir, name);
        ResolveWithin(config.root, dir, name);
        ResolveSegment(dir, name);
        SelectedUnderPrefix(DirPrefix(dir), name);
        WatchKeepsWatchable(config, trace, filePath);
        trace := trace + [WatchFile(filePath)];
      } else {
        assert trace + [] == trace;
      }
      next := true;
    }

    /** The walker's `errors` handler: the error is dropped and the walk continues. */
    method OnErrors(dir: string) returns (next: bool)
      ensures next
    {
      next := true;
    }

    /** `compileLessFile(lessFile)`: the log line naming the output comes before
        the read of the source file. */
    method CompileLessFile(lessFile: string)
      requires Valid() && MapsCleanly(config, lessFile)
      modifies this
      ensures Valid()
      ensures trace == old(trace) + CompileEffects(config, lessFile)
      ensures Watched() == old(Watched())
    {
      var cssFile := OutputPath(config, lessFile);
      NoWatchKeepsWatches(config, trace, CompileEffects(config, lessFile));
      trace := trace + [Log("updating: " + cssFile), ReadFile(lessFile, cssFile)];
    }

    /** A change notification on a watched file, whatever the file statuses it
        carries: the watch's callback compiles that same file. */
    method OnChange(path: string, curr: FileStats, prev: FileStats)
      requires Valid() && path in Watched()
      modifies this
      ensures Valid()
      ensures MapsCleanly(config, path)
      ensures trace == old(trace) + CompileEffects(config, path)
      ensures Watched() == old(Watched())
    {
      SourceMapsCleanly(config, path);
      CompileLessFile(path);
    }
  }

  /** Each notification produces exactly one log line, naming the output of the
      notified file and issued before the read of that file. */
  lemma {:induction false} CompileEffectsOrder(cfg: Settings, lessFile: string)
    requires MapsCleanly(cfg, lessFile)
    ensures var r := CompileEffects(cfg, lessFile);
      |r| == 2 && r[0] == Log("updating: " + OutputPath(cfg, lessFile))
      && r[1].ReadFile? && r[1].path == lessFile && r[1].output == OutputPath(cfg, lessFile)
  {
  }
}
