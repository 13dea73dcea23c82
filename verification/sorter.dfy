/**
 * The decision rules of the sorter's command-line front end (main.go):
 * validating the configuration, choosing the output verbosity, the file
 * processor and the override checker, and the two override checkers
 * themselves. File operations, template execution and printing are not
 * part of this model.
 */
module Sorter {
  import opened Wrappers

  /** The verbosity levels of output.go, in increasing order. */
  const Quiet: int := 0
  const Verbose: int := 1
  const Debug: int := 2

  /** The values buildConfig reads from the command line. */
  datatype Arguments = Arguments(
    srcDir: string, destDir: string,
    dryRun: bool, move: bool, override: bool,
    template: string)

  datatype Config = Config(
    srcDir: string, destDir: string,
    dryRun: bool, move: bool, override: bool,
    template: string, verbosity: int)

  /** The two ways buildConfig rejects a command line (both wrap ErrConfig). */
  datatype ConfigError = SourceDirRequired | DryRunWithMove

  /** A configuration buildConfig can produce. */
  predicate Consistent(config: Config)
  {
    config.srcDir != "" && !(config.dryRun && config.move)
  }

  /**
   * buildConfig: a missing source directory is reported first, then the
   * clash of dry run and move; otherwise every value is copied unchanged.
   */
  function BuildConfig(args: Arguments, verbosity: int): (r: Result<Config, ConfigError>)
    ensures r.Failure? <==> args.srcDir == "" || (args.dryRun && args.move)
    ensures r.Failure? ==> (r.error == SourceDirRequired <==> args.srcDir == "")
    ensures r.Success? ==>
      Consistent(r.value)
      && r.value.srcDir == args.srcDir && r.value.destDir == args.destDir
      && r.value.dryRun == args.dryRun && r.value.move == args.move
      && r.value.override == args.override && r.value.template == args.template
      && r.value.verbosity == verbosity
  {
    if args.srcDir == "" then Failure(SourceDirRequired)
    else if args.dryRun && args.move then Failure(DryRunWithMove)
    else Success(Config(args.srcDir, args.destDir, args.dryRun, args.move,
                        args.override, args.template, verbosity))
  }

  /** Every consistent configuration comes from some command line. */
  lemma ConsistentConfigsAreBuilt(config: Config)
    requires Consistent(config)
    ensures BuildConfig(Arguments(config.srcDir, config.destDir, config.dryRun, config.move,
                                  config.override, config.template), config.verbosity)
            == Success(config)
  {
  }

  /** The writer of output.go: only its verbosity level matters here. */
  class OutputWriter {
    var verbosity: int

    constructor(verbosity: int)
      ensures this.verbosity == verbosity
    {
      this.verbosity := verbosity;
    }

    /** OutputWriter.Write prints a message of `level` exactly when this holds. */
    predicate Shows(level: int)
      reads this
    {
      level <= verbosity
    }
  }

  /** The level createOutputWriter settles on for a `-v` count. */
  function WriterLevel(count: int): (level: int)
    ensures level == Quiet || level == Verbose || level == Debug
    ensures level == Verbose <==> count == 1
    ensures level == Debug <==> count >= 2
  {
    if count == Verbose then Verbose
    else if count >= Debug then Debug
    else Quiet
  }

  /** createOutputWriter: starts Quiet and raises the level from the count. */
  method CreateOutputWriter(config: Config) returns (w: OutputWriter)
    ensures fresh(w)
    ensures w.verbosity == WriterLevel(config.verbosity)
  {
    w := new OutputWriter(Quiet);
    if config.verbosity == Verbose {
      w.verbosity := Verbose;
    } else if config.verbosity >= Debug {
      w.verbosity := Debug;
    }
  }

  /** The three file processors, as a tag rather than a function value. */
  datatype FileProcessor = Copy | Move | DryRun

  /** The processor determineFileProcessor picks: dry run wins over move. */
  function ProcessorFor(config: Config): (p: FileProcessor)
    ensures p == DryRun <==> config.dryRun
    ensures p == Move <==> !config.dryRun && config.move
    ensures p == Copy <==> !config.dryRun && !config.move
  {
    if config.dryRun then DryRun
    else if config.move then Move
    else Copy
  }

  /**
   * determineFileProcessor: picks the processor and, in a dry run whose
   * configured count is below Verbose, raises the writer to Verbose; the
   * writer is otherwise left as it was.
   */
  method DetermineFileProcessor(config: Config, w: OutputWriter) returns (p: FileProcessor)
    modifies w
    ensures p == ProcessorFor(config)
    ensures w.verbosity == if config.dryRun && config.verbosity < Verbose then Verbose else old(w.verbosity)
  {
    p := Copy;
    if config.move {
      p := Move;
    }
    if config.dryRun {
      p := DryRun;
      if config.verbosity < Verbose {
        w.verbosity := Verbose;
      }
    }
  }

  /** The checker used when overriding is off: nothing is ever reported as existing. */
  class NoOverrideChecker {
    constructor()
    {
    }

    method DestinationFileExists(destPath: string) returns (seen: bool)
      ensures !seen
    {
      seen := false;
    }
  }

  /** The checker used when overriding is on: remembers every destination asked about. */
  class MemoryOverrideChecker {
    var seenFiles: set<string>

    constructor()
      ensures seenFiles == {}
    {
      seenFiles := {};
    }

    /** Look up, then insert: reports whether `destPath` was seen before, then records it. */
    method DestinationFileExists(destPath: string) returns (seen: bool)
      modifies this
      ensures seen <==> destPath in old(seenFiles)
      ensures seenFiles == old(seenFiles) + {destPath}
    {
      if destPath in seenFiles {
        return true;
      }
      seenFiles := seenFiles + {destPath};
      return false;
    }
  }

  /**
   * The replies of a memory checker holding `seen` to the queries in order,
   * one call of DestinationFileExists after another.
   */
  function Replies(seen: set<string>, queries: seq<string>): (replies: seq<bool>)
    ensures |replies| == |queries|
    decreases |queries|
  {
    if queries == [] then []
    else [queries[0] in seen] + Replies(seen + {queries[0]}, queries[1..])
  }

  /**
   * A memory checker reports a destination as existing exactly when it was
   * already known or was asked about earlier in the same run.
   */
  lemma {:induction false} RepliesAreRepeats(seen: set<string>, queries: seq<string>)
    ensures forall i :: 0 <= i < |queries| ==>
      (Replies(seen, queries)[i] <==> queries[i] in seen || queries[i] in queries[..i])
    decreases |queries|
  {
    if queries != [] {
      var q, rest := queries[0], queries[1..];
      RepliesAreRepeats(seen + {q}, rest);
      forall i | 0 <= i < |queries|
        ensures Replies(seen, queries)[i] <==> queries[i] in seen || queries[i] in queries[..i]
      {
        if i > 0 {
          assert Replies(seen, queries)[i] == Replies(seen + {q}, rest)[i - 1];
          assert queries[..i] == [q] + rest[..i - 1];
          assert queries[i] == rest[i - 1];
        }
      }
    }
  }

  /** Starting from an empty memory, the first query for a path reports "not seen", every later one "seen". */
  lemma FreshRunReportsOnlyRepeats(queries: seq<string>, i: nat, j: nat)
    requires i < j < |queries| && queries[i] == queries[j]
    requires forall k :: 0 <= k < i ==> queries[k] != queries[i]
    ensures !Replies({}, queries)[i] && Replies({}, queries)[j]
  {
    RepliesAreRepeats({}, queries);
    assert queries[j] == queries[..j][i];
  }

  /** The override checker interface, as the choice of its two implementations. */
  datatype OverrideChecker =
    | NoOverride(none: NoOverrideChecker)
    | Memory(memory: MemoryOverrideChecker)

  /** The objects a call through the interface may change. */
  function Footprint(c: OverrideChecker): set<object>
  {
    if c.Memory? then {c.memory} else {}
  }

  /** OverrideChecker.DestinationFileExists, dispatched to the implementation in `c`. */
  method DestinationFileExists(c: OverrideChecker, destPath: string) returns (seen: bool)
    modifies Footprint(c)
    ensures seen <==> c.Memory? && destPath in old(c.memory.seenFiles)
    ensures c.Memory? ==> c.memory.seenFiles == old(c.memory.seenFiles) + {destPath}
  {
    match c
    case NoOverride(none) =>
      seen := none.DestinationFileExists(destPath);
    case Memory(memory) =>
      seen := memory.DestinationFileExists(destPath);
  }

  /** determineOverrideChecker: a fresh, empty memory exactly when overriding is on. */
  method DetermineOverrideChecker(config: Config) returns (c: OverrideChecker)
    ensures c.Memory? <==> config.override
    ensures c.Memory? ==> fresh(c.memory) && c.memory.seenFiles == {}
  {
    var none := new NoOverrideChecker();
    c := NoOverride(none);
    if config.override {
      var memory := new MemoryOverrideChecker();
      c := Memory(memory);
    }
  }

  /**
   * The first three steps of createMediaSorter: writer, processor and
   * checker. A dry run always shows Verbose messages, and a run without
   * override never reports a destination as existing.
   */
  method CreateSorterParts(config: Config) returns (w: OutputWriter, p: FileProcessor, c: OverrideChecker)
    ensures fresh(w)
    ensures p == ProcessorFor(config)
    ensures config.dryRun ==> w.Shows(Verbose)
    ensures !config.dryRun ==> w.verbosity == WriterLevel(config.verbosity)
    ensures c.Memory? <==> config.override
    ensures c.Memory? ==> fresh(c.memory) && c.memory.seenFiles == {}
  {
    w := CreateOutputWriter(config);
    p := DetermineFileProcessor(config, w);
    c := DetermineOverrideChecker(config);
  }
}
