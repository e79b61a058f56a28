/**
 The command line, `main` (lines 240-318): the checks on the parsed
 arguments, the pattern list and mode the run uses, and the exit status.
 Argument parsing itself is outside the model: `CliArgs` is what the parser
 produces (a flag missing from the command line has its default).
 */
module Cli {
  import opened Base
  import opened Matcher
  import opened Archive
  import opened Batch

  datatype CliArgs = CliArgs(
    files: seq<seq<char>>,          // positional, one or more
    patterns: seq<seq<char>>,       // every `--remove`; empty when none was given
    regex: bool,
    output: Option<seq<char>>,      // `--output`
    outputSuffix: seq<char>,        // `--output-suffix`, `_cleaned` by default
    caseSensitive: bool,            // false with `--case-insensitive`
    backup: bool,                   // false with `--no-backup`
    dryRun: bool,
    removePageNumbers: bool)

  /** The three reasons the program stops before processing anything. */
  datatype UsageError = MissingFiles | NoPatterns | OutputWithManyFiles

  /** What the batch is run with; note that `--output` has no place here. */
  datatype Config = Config(files: seq<seq<char>>, job: Job, outputSuffix: seq<char>)

  /** Lines 285-289: page headers, lines holding only a number, bracketed numbers. */
  const PageNumberPatterns: seq<seq<char>> := ["Page\\s+\\d+", "^\\s*\\d+\\s*$", "\\[\\s*\\d+\\s*\\]"]

  /** The exit status of a usage error. */
  const UsageExit := 2

  /** `args.output` is truthy: given and not empty. */
  predicate OutputGiven(args: CliArgs)
  {
    args.output.Some? && |args.output.value| > 0
  }

  /**
   Lines 254 and 275-301: at least one file, at least one pattern source,
   `--output` only with a single file; then the user's patterns followed by
   the page-number patterns when asked, which also switch on regex mode;
   `--no-backup`, `--dry-run` and `--output-suffix` reach the batch as given.
   */
  function Configure(args: CliArgs): (r: Result<Config, UsageError>)
    ensures r.Failure? <==> |args.files| == 0 || (|args.patterns| == 0 && !args.removePageNumbers)
                            || (OutputGiven(args) && |args.files| > 1)
    ensures r.Failure? && |args.files| == 0 ==> r.error == MissingFiles
    ensures r.Ok? ==> r.value.files == args.files && |r.value.job.patterns| > 0
    ensures r.Ok? ==> args.patterns <= r.value.job.patterns
    ensures r.Ok? ==> |r.value.job.patterns| == |args.patterns| + (if args.removePageNumbers then |PageNumberPatterns| else 0)
    ensures r.Ok? && args.removePageNumbers ==> r.value.job.patterns[|args.patterns|..] == PageNumberPatterns
    ensures r.Ok? ==> (r.value.job.opts.useRegex <==> args.regex || args.removePageNumbers)
    ensures r.Ok? ==> r.value.job.opts.caseSensitive == args.caseSensitive
    ensures r.Ok? ==> r.value.job.backup == args.backup && r.value.job.dryRun == args.dryRun
    ensures r.Ok? ==> r.value.outputSuffix == args.outputSuffix
  {
    if |args.files| == 0 then Failure(MissingFiles)
    else if |args.patterns| == 0 && !args.removePageNumbers then Failure(NoPatterns)
    else if OutputGiven(args) && |args.files| > 1 then Failure(OutputWithManyFiles)
    else
      var patterns := if args.removePageNumbers then args.patterns + PageNumberPatterns else args.patterns;
      var useRegex := if args.removePageNumbers then true else args.regex;
      Ok(Config(args.files, Job(patterns, Options(useRegex, args.caseSensitive), args.backup, args.dryRun),
                args.outputSuffix))
  }

  /**
   The arguments whose run stops: regex mode, case-sensitive mode, or
   non-empty literal patterns (an empty case-insensitive literal pattern
   makes the removal loop spin forever).
   */
  predicate Runnable(args: CliArgs)
  {
    args.regex || args.removePageNumbers || args.caseSensitive
    || forall k :: 0 <= k < |args.patterns| ==> |args.patterns[k]| > 0
  }

  lemma RunnableConfig(args: CliArgs)
    requires Runnable(args) && Configure(args).Ok?
    ensures Terminates(Configure(args).value.job.patterns, Configure(args).value.job.opts)
  {
  }

  /** `--output` never reaches the batch: two runs that differ only in it are configured alike. */
  lemma OutputIgnored(args: CliArgs, other: Option<seq<char>>)
    requires Configure(args).Ok? && Configure(args.(output := other)).Ok?
    ensures Configure(args.(output := other)) == Configure(args)
  {
  }

  /** With only page-number removal asked for, the run is the three page patterns in regex mode. */
  lemma PageNumbersOnly(args: CliArgs)
    requires |args.files| > 0 && |args.patterns| == 0 && args.removePageNumbers
    requires !OutputGiven(args) || |args.files| == 1
    ensures Configure(args).Ok?
    ensures Configure(args).value.job.patterns == PageNumberPatterns
    ensures Configure(args).value.job.opts.useRegex
  {
  }

  /**
   The program: a usage error exits with 2 before anything is read;
   otherwise the batch runs on a fresh report, its jobs, success count and
   report are the ones returned, and the status is 0 when at
   least one archive was processed successfully and 1 when none was. The
   final summary is printed from the report, which a dry run leaves at zero.
   */
  method Run(args: CliArgs, disk: Disk, engine: RegexEngine, codec: Codec)
    returns (exitCode: int, successful: nat, outcomes: seq<JobOutcome>, report: Report)
    requires Configure(args).Ok? ==> Runnable(args)
    ensures Configure(args).Failure? ==> outcomes == []
    ensures Configure(args).Ok? ==>
              var job := Configure(args).value.job;
              && Terminates(job.patterns, job.opts)
              && BatchOf(Resolve(args.files, disk), outcomes, args.outputSuffix, job, disk, engine, codec)
              && successful == CountSuccess(outcomes)
              && report == RecordAll(Report(0, []), outcomes)
    ensures exitCode == UsageExit <==> Configure(args).Failure?
    ensures Configure(args).Failure? ==> successful == 0 && report == Report(0, [])
    ensures Configure(args).Ok? ==> (exitCode == 0 <==> successful > 0) && (exitCode == 0 || exitCode == 1)
    ensures Configure(args).Ok? ==> successful <= |Resolve(args.files, disk)|
    ensures args.dryRun ==> report == Report(0, [])
    ensures !args.dryRun ==> |report.filesProcessed| == successful
  {
    match Configure(args)
    case Failure(_) =>
      return UsageExit, 0, [], Report(0, []);
    case Ok(cfg) =>
      RunnableConfig(args);
      successful, outcomes, report := ProcessMultiple(cfg.files, cfg.job, cfg.outputSuffix, disk, engine, codec, Report(0, []));
      exitCode := if successful > 0 then 0 else 1;
  }
}
