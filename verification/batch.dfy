/**
 The batch driver, `process_multiple` (lines 196-237): resolve the command
 line's file arguments to archives, derive each job's output path from the
 output suffix, run the jobs in order and count the successful ones. The
 file system is a parameter: which paths are existing files, what a
 wildcard argument expands to, and what each path holds.
 */
module Batch {
  import opened Base
  import opened Text
  import opened Matcher
  import opened Paths
  import opened Archive

  /**
   The file system as the batch sees it; `archive` is `None` for a file that
   is no ZIP. `canon` names the file a path refers to: a relative argument
   such as `book.epub` and the absolute path a glob returns for it are two
   spellings with one `canon`. Resolution reads the disk once, before the
   first job; every job then reads it as the jobs before it left it.
   */
  datatype Disk = Disk(isFile: Path -> bool, glob: seq<char> -> seq<Path>, canon: Path -> seq<char>,
                       archive: Path -> Option<seq<Entry>>)

  /**
   `Path(arg)`: the parent is everything up to and including the last `/`,
   so `/book.epub` (parent `/`) and `book.epub` (no parent) stay apart; an
   argument without a name gives `None`.
   */
  function ParsePath(arg: seq<char>): (r: Option<Path>)
    ensures r.Some? ==> '/' !in r.value.name && arg == r.value.parent + r.value.name
    ensures r.Some? ==> r.value.parent == [] || r.value.parent[|r.value.parent| - 1] == '/'
    ensures r.None? <==> |arg| == 0 || arg[|arg| - 1] == '/'
  {
    match LastIndexOf(arg, '/')
    case Some(i) =>
      if i + 1 < |arg| then
        assert arg == arg[..i + 1] + arg[i + 1..];
        Some(Path(arg[..i + 1], arg[i + 1..]))
      else None
    case None => if |arg| > 0 then Some(Path([], arg)) else None
  }

  /** Different arguments name different files. */
  lemma ParsePathInjective(a: seq<char>, b: seq<char>)
    requires ParsePath(a).Some? && ParsePath(a) == ParsePath(b)
    ensures a == b
  {
  }

  /** Line 210: an existing file whose suffix is `.epub` in any letter case. */
  predicate IsEpubFile(p: Path, disk: Disk)
  {
    disk.isFile(p) && LowerStr(Suffix(p.name)) == ".epub"
  }

  predicate HasWildcard(arg: seq<char>)
  {
    '*' in arg || '?' in arg
  }

  /**
   Lines 209-215 for one argument: an EPUB file is taken as it is, a
   wildcard argument is expanded (whatever it matches), anything else is
   skipped with a warning.
   */
  function ResolveArg(arg: seq<char>, disk: Disk): (r: seq<Path>)
    ensures !HasWildcard(arg) ==> |r| <= 1
    ensures |r| == 1 && !HasWildcard(arg) ==> ParsePath(arg) == Some(r[0]) && IsEpubFile(r[0], disk)
    ensures ParsePath(arg).Some? && IsEpubFile(ParsePath(arg).value, disk) ==> r == [ParsePath(arg).value]
    ensures HasWildcard(arg) && !(ParsePath(arg).Some? && IsEpubFile(ParsePath(arg).value, disk)) ==> r == disk.glob(arg)
  {
    var p := ParsePath(arg);
    if p.Some? && IsEpubFile(p.value, disk) then [p.value]
    else if HasWildcard(arg) then disk.glob(arg)
    else []
  }

  /** All arguments, in order. */
  function Resolve(args: seq<seq<char>>, disk: Disk): seq<Path>
    decreases |args|
  {
    if |args| == 0 then [] else ResolveArg(args[0], disk) + Resolve(args[1..], disk)
  }

  /** Resolution respects argument order: the files of `a + b` are those of `a`, then those of `b`. */
  lemma {:induction false} ResolveAppend(a: seq<seq<char>>, b: seq<seq<char>>, disk: Disk)
    ensures Resolve(a + b, disk) == Resolve(a, disk) + Resolve(b, disk)
    decreases |a|
  {
    if |a| == 0 {
      assert a + b == b;
    } else {
      assert (a + b)[0] == a[0];
      assert (a + b)[1..] == a[1..] + b;
      ResolveAppend(a[1..], b, disk);
    }
  }

  /**
   Lines 225-227 as written: a non-empty suffix gives no output path (so
   the job falls back to `_cleaned`), and the empty suffix gives the name
   stem + "" + suffix, which is the input file itself.
   */
  function OutputPathArg(file: Path, outputSuffix: seq<char>): (r: Option<Path>)
    ensures r.None? <==> |outputSuffix| > 0
    ensures r.Some? ==> r.value == file
  {
    if |outputSuffix| > 0 then None
    else
      StemSuffix(file.name);
      Some(WithName(file, Stem(file.name) + outputSuffix + Suffix(file.name)))
  }

  /** One iteration of the batch loop (lines 225-233), on the disk as it is when the job starts. */
  function RunJob(file: Path, outputSuffix: seq<char>, job: Job, disk: Disk, engine: RegexEngine, codec: Codec): JobOutcome
    requires Terminates(job.patterns, job.opts)
  {
    ProcessEpub(file, disk.archive(file), OutputPathArg(file, outputSuffix), job, engine, codec)
  }

  /** The disk after a file copy or a ZIP write put `content` in the file `p` names, under every spelling. */
  function Store(disk: Disk, p: Path, content: Option<seq<Entry>>): Disk
  {
    Disk(q => disk.canon(q) == disk.canon(p) || disk.isFile(q), disk.glob, disk.canon,
         q => if disk.canon(q) == disk.canon(p) then content else disk.archive(q))
  }

  /**
   What one job leaves for the jobs after it: first the backup, a copy of
   the input (line 170), then the written archive (line 180).
   */
  function AfterJob(disk: Disk, input: Path, o: JobOutcome): Disk
  {
    var backedUp := if o.backup.Some? then Store(disk, o.backup.value, disk.archive(input)) else disk;
    if o.output.Some? then Store(backedUp, o.output.value.path, Some(o.output.value.entries)) else backedUp
  }

  /** The disk after jobs with these outcomes ran on these files, in order. */
  function DiskAfter(disk: Disk, files: seq<Path>, outcomes: seq<JobOutcome>): Disk
    requires |outcomes| == |files|
    decreases |files|
  {
    if |files| == 0 then disk
    else
      var n := |files| - 1;
      AfterJob(DiskAfter(disk, files[..n], outcomes[..n]), files[n], outcomes[n])
  }

  /**
   `outcomes` are the jobs of lines 224-233 on `files`: the jobs on all but
   the last file, then the job on the last file, run on the disk those
   earlier jobs left behind (`BatchJobAt` states it job by job).
   */
  predicate BatchOf(files: seq<Path>, outcomes: seq<JobOutcome>, outputSuffix: seq<char>, job: Job, disk: Disk,
                    engine: RegexEngine, codec: Codec)
    requires Terminates(job.patterns, job.opts)
    decreases |files|
  {
    && |outcomes| == |files|
    && (|files| > 0 ==>
          var n := |files| - 1;
          && BatchOf(files[..n], outcomes[..n], outputSuffix, job, disk, engine, codec)
          && outcomes[n] == RunJob(files[n], outputSuffix, job, DiskAfter(disk, files[..n], outcomes[..n]), engine, codec))
  }

  /** The job leaves neither a backup nor an output. */
  predicate WritesNothing(o: JobOutcome)
  {
    o.output.None? && o.backup.None?
  }

  /** The job wrote its output or its backup to the file `q` names. */
  predicate Writes(o: JobOutcome, q: Path, canon: Path -> seq<char>)
  {
    (o.output.Some? && canon(o.output.value.path) == canon(q)) || (o.backup.Some? && canon(o.backup.value) == canon(q))
  }

  /** What every job outcome satisfies, whatever the disk held. */
  predicate WellFormed(o: JobOutcome, file: Path, outputSuffix: seq<char>, dryRun: bool)
  {
    && (o.success <==> o.total > 0)
    && (!o.success || dryRun ==> WritesNothing(o))
    && (!dryRun ==> (o.output.Some? <==> o.success))
    && (o.output.Some? ==> o.output.value.path == OutputTarget(file, OutputPathArg(file, outputSuffix)))
    && (o.backup.Some? ==> o.backup.value == BackupPath(file))
  }

  /** Number of successful jobs. */
  function CountSuccess(os: seq<JobOutcome>): nat
    decreases |os|
  {
    if |os| == 0 then 0 else CountSuccess(os[..|os| - 1]) + (if os[|os| - 1].success then 1 else 0)
  }

  /** Sum of the jobs' counts. */
  function ChangesOf(os: seq<JobOutcome>): nat
    decreases |os|
  {
    if |os| == 0 then 0 else ChangesOf(os[..|os| - 1]) + os[|os| - 1].total
  }

  /** The report after the jobs, in order. */
  function RecordAll(report: Report, os: seq<JobOutcome>): Report
    decreases |os|
  {
    if |os| == 0 then report else Record(RecordAll(report, os[..|os| - 1]), os[|os| - 1])
  }

  /**
   The batch: the file arguments are resolved once, then every resolved
   file gets one job, in order, on the disk the earlier jobs left, with the
   output path derived from the suffix; the result is the number of
   successes. A dry run reads the original disk throughout and leaves the
   report as it was; a real run adds every written archive's count and path.
   */
  method ProcessMultiple(fileArgs: seq<seq<char>>, job: Job, outputSuffix: seq<char>,
                         disk: Disk, engine: RegexEngine, codec: Codec, report: Report)
    returns (successful: nat, outcomes: seq<JobOutcome>, after: Report)
    requires Terminates(job.patterns, job.opts)
    ensures BatchOf(Resolve(fileArgs, disk), outcomes, outputSuffix, job, disk, engine, codec)
    ensures job.dryRun ==> forall i :: 0 <= i < |outcomes| ==>
              outcomes[i] == RunJob(Resolve(fileArgs, disk)[i], outputSuffix, job, disk, engine, codec)
    ensures successful == CountSuccess(outcomes) && successful <= |outcomes|
    ensures successful > 0 <==> exists i :: 0 <= i < |outcomes| && outcomes[i].success
    ensures after == RecordAll(report, outcomes)
    ensures job.dryRun ==> after == report
    ensures !job.dryRun ==> after.changesMade == report.changesMade + ChangesOf(outcomes)
    ensures !job.dryRun ==> |after.filesProcessed| == |report.filesProcessed| + successful
  {
    var files := Resolve(fileArgs, disk);
    var current := disk;
    successful, outcomes, after := 0, [], report;
    var k := 0;
    while k < |files|
      invariant k <= |files| && |outcomes| == k
      invariant BatchOf(files[..k], outcomes, outputSuffix, job, disk, engine, codec)
      invariant current == DiskAfter(disk, files[..k], outcomes)
      invariant successful == CountSuccess(outcomes)
      invariant after == RecordAll(report, outcomes)
    {
      var o := RunJob(files[k], outputSuffix, job, current, engine, codec);
      if o.success {
        successful := successful + 1;
      }
      after := Record(after, o);
      AppendOutcome(report, outcomes, o);
      BatchStep(files, k, outcomes, o, outputSuffix, job, disk, engine, codec);
      outcomes := outcomes + [o];
      current := AfterJob(current, files[k], o);
      k := k + 1;
    }
    assert files[..k] == files;
    FinishedBatch(files, outcomes, outputSuffix, job, disk, engine, codec, report);
  }

  /** What a finished batch reports, and what its dry jobs read. */
  lemma FinishedBatch(files: seq<Path>, outcomes: seq<JobOutcome>, outputSuffix: seq<char>, job: Job, disk: Disk,
                      engine: RegexEngine, codec: Codec, report: Report)
    requires Terminates(job.patterns, job.opts)
    requires BatchOf(files, outcomes, outputSuffix, job, disk, engine, codec)
    ensures job.dryRun ==> forall i :: 0 <= i < |outcomes| ==>
              outcomes[i] == RunJob(files[i], outputSuffix, job, disk, engine, codec)
    ensures CountSuccess(outcomes) <= |outcomes|
    ensures CountSuccess(outcomes) > 0 <==> exists i :: 0 <= i < |outcomes| && outcomes[i].success
    ensures job.dryRun ==> RecordAll(report, outcomes) == report
    ensures !job.dryRun ==> RecordAll(report, outcomes).changesMade == report.changesMade + ChangesOf(outcomes)
    ensures !job.dryRun ==>
              |RecordAll(report, outcomes).filesProcessed| == |report.filesProcessed| + CountSuccess(outcomes)
  {
    BatchJobFacts(files, outcomes, outputSuffix, job, disk, engine, codec);
    if job.dryRun {
      DryJobsReadOriginal(files, outcomes, outputSuffix, job, disk, engine, codec);
    }
    BatchReport(files, outcomes, outputSuffix, job.dryRun, report);
  }

  /** One more job extends the success count, the summed count and the report by that job alone. */
  lemma AppendOutcome(report: Report, os: seq<JobOutcome>, o: JobOutcome)
    ensures CountSuccess(os + [o]) == CountSuccess(os) + (if o.success then 1 else 0)
    ensures ChangesOf(os + [o]) == ChangesOf(os) + o.total
    ensures RecordAll(report, os + [o]) == Record(RecordAll(report, os), o)
  {
    assert (os + [o])[..|os|] == os;
  }

  /** A batch followed by one more job on the disk it left is a batch. */
  lemma BatchOfSnoc(files: seq<Path>, outcomes: seq<JobOutcome>, x: Path, o: JobOutcome, outputSuffix: seq<char>,
                    job: Job, disk: Disk, engine: RegexEngine, codec: Codec)
    requires Terminates(job.patterns, job.opts)
    requires BatchOf(files, outcomes, outputSuffix, job, disk, engine, codec)
    requires o == RunJob(x, outputSuffix, job, DiskAfter(disk, files, outcomes), engine, codec)
    ensures BatchOf(files + [x], outcomes + [o], outputSuffix, job, disk, engine, codec)
    ensures DiskAfter(disk, files + [x], outcomes + [o]) == AfterJob(DiskAfter(disk, files, outcomes), x, o)
  {
    assert (files + [x])[..|files|] == files && (outcomes + [o])[..|files|] == outcomes;
  }

  /** One iteration of the batch loop extends the batch of the first `k` files to the first `k + 1`. */
  lemma BatchStep(files: seq<Path>, k: nat, outcomes: seq<JobOutcome>, o: JobOutcome, outputSuffix: seq<char>,
                  job: Job, disk: Disk, engine: RegexEngine, codec: Codec)
    requires Terminates(job.patterns, job.opts)
    requires k < |files| && BatchOf(files[..k], outcomes, outputSuffix, job, disk, engine, codec)
    requires o == RunJob(files[k], outputSuffix, job, DiskAfter(disk, files[..k], outcomes), engine, codec)
    ensures BatchOf(files[..k + 1], outcomes + [o], outputSuffix, job, disk, engine, codec)
    ensures DiskAfter(disk, files[..k + 1], outcomes + [o]) == AfterJob(DiskAfter(disk, files[..k], outcomes), files[k], o)
  {
    BatchOfSnoc(files[..k], outcomes, files[k], o, outputSuffix, job, disk, engine, codec);
    assert files[..k] + [files[k]] == files[..k + 1];
  }

  /** The first `n` jobs of a batch are a batch of the first `n` files. */
  lemma {:induction false} BatchOfPrefix(files: seq<Path>, outcomes: seq<JobOutcome>, n: nat, outputSuffix: seq<char>,
                      job: Job, disk: Disk, engine: RegexEngine, codec: Codec)
    requires Terminates(job.patterns, job.opts)
    requires BatchOf(files, outcomes, outputSuffix, job, disk, engine, codec) && n <= |files|
    ensures BatchOf(files[..n], outcomes[..n], outputSuffix, job, disk, engine, codec)
    decreases |files|
  {
    if n < |files| {
      var m := |files| - 1;
      BatchOfPrefix(files[..m], outcomes[..m], n, outputSuffix, job, disk, engine, codec);
      assert files[..m][..n] == files[..n] && outcomes[..m][..n] == outcomes[..n];
    } else {
      assert files[..n] == files && outcomes[..n] == outcomes;
    }
  }

  /** Job `i` of a batch runs on the disk the first `i` jobs left behind. */
  lemma BatchJobAt(files: seq<Path>, outcomes: seq<JobOutcome>, i: nat, outputSuffix: seq<char>,
                   job: Job, disk: Disk, engine: RegexEngine, codec: Codec)
    requires Terminates(job.patterns, job.opts)
    requires BatchOf(files, outcomes, outputSuffix, job, disk, engine, codec) && i < |files|
    ensures |outcomes| == |files|
    ensures outcomes[i] == RunJob(files[i], outputSuffix, job, DiskAfter(disk, files[..i], outcomes[..i]), engine, codec)
  {
    BatchOfPrefix(files, outcomes, i + 1, outputSuffix, job, disk, engine, codec);
    assert files[..i + 1][..i] == files[..i] && outcomes[..i + 1][..i] == outcomes[..i];
    assert files[..i + 1][i] == files[i] && outcomes[..i + 1][i] == outcomes[i];
  }

  /** Every job of a batch is a job outcome: its verdict, its writes and where they go. */
  lemma BatchJobFacts(files: seq<Path>, outcomes: seq<JobOutcome>, outputSuffix: seq<char>,
                      job: Job, disk: Disk, engine: RegexEngine, codec: Codec)
    requires Terminates(job.patterns, job.opts)
    requires BatchOf(files, outcomes, outputSuffix, job, disk, engine, codec)
    ensures forall i :: 0 <= i < |outcomes| ==> WellFormed(outcomes[i], files[i], outputSuffix, job.dryRun)
  {
    forall i | 0 <= i < |outcomes|
      ensures WellFormed(outcomes[i], files[i], outputSuffix, job.dryRun)
    {
      BatchJobAt(files, outcomes, i, outputSuffix, job, disk, engine, codec);
      var d := DiskAfter(disk, files[..i], outcomes[..i]);
      assert outcomes[i] == ProcessEpub(files[i], d.archive(files[i]), OutputPathArg(files[i], outputSuffix), job, engine, codec);
    }
  }

  /** Jobs that write nothing leave the disk exactly as they found it. */
  lemma {:induction false} DryKeepsDisk(disk: Disk, files: seq<Path>, outcomes: seq<JobOutcome>)
    requires |outcomes| == |files|
    requires forall i :: 0 <= i < |outcomes| ==> WritesNothing(outcomes[i])
    ensures DiskAfter(disk, files, outcomes) == disk
    decreases |files|
  {
    if |files| > 0 {
      var n := |files| - 1;
      assert forall i :: 0 <= i < n ==> outcomes[..n][i] == outcomes[i];
      DryKeepsDisk(disk, files[..n], outcomes[..n]);
    }
  }

  /** A path no job wrote keeps its contents. */
  lemma {:induction false} DiskAfterKeeps(disk: Disk, files: seq<Path>, outcomes: seq<JobOutcome>, q: Path)
    requires |outcomes| == |files|
    requires forall i :: 0 <= i < |outcomes| ==> !Writes(outcomes[i], q, disk.canon)
    ensures DiskAfter(disk, files, outcomes).canon == disk.canon
    ensures DiskAfter(disk, files, outcomes).archive(q) == disk.archive(q)
    decreases |files|
  {
    if |files| > 0 {
      var n := |files| - 1;
      assert forall i :: 0 <= i < n ==> outcomes[..n][i] == outcomes[i];
      DiskAfterKeeps(disk, files[..n], outcomes[..n], q);
      AfterJobEffect(DiskAfter(disk, files[..n], outcomes[..n]), files[n], outcomes[n], q);
    }
  }

  /**
   A job's writes: its output path then holds the written archive, its
   backup (unless the output overwrote it) holds the input as it was before
   the job, and every path other than its output and its backup keeps what
   it held.
   */
  lemma AfterJobEffect(disk: Disk, input: Path, o: JobOutcome, q: Path)
    ensures o.output.Some? ==> AfterJob(disk, input, o).archive(o.output.value.path) == Some(o.output.value.entries)
    ensures o.backup.Some? && (o.output.None? || disk.canon(o.output.value.path) != disk.canon(o.backup.value)) ==>
              AfterJob(disk, input, o).archive(o.backup.value) == disk.archive(input)
    ensures AfterJob(disk, input, o).canon == disk.canon
    ensures !Writes(o, q, disk.canon) ==> AfterJob(disk, input, o).archive(q) == disk.archive(q)
  {
  }

  /** Every job of a dry batch reads the disk as it was before the batch. */
  lemma DryJobsReadOriginal(files: seq<Path>, outcomes: seq<JobOutcome>, outputSuffix: seq<char>,
                            job: Job, disk: Disk, engine: RegexEngine, codec: Codec)
    requires Terminates(job.patterns, job.opts) && job.dryRun
    requires BatchOf(files, outcomes, outputSuffix, job, disk, engine, codec)
    ensures forall i :: 0 <= i < |outcomes| ==> outcomes[i] == RunJob(files[i], outputSuffix, job, disk, engine, codec)
  {
    BatchJobFacts(files, outcomes, outputSuffix, job, disk, engine, codec);
    forall i | 0 <= i < |outcomes|
      ensures outcomes[i] == RunJob(files[i], outputSuffix, job, disk, engine, codec)
    {
      BatchJobAt(files, outcomes, i, outputSuffix, job, disk, engine, codec);
      assert forall j :: 0 <= j < i ==> outcomes[..i][j] == outcomes[j];
      DryKeepsDisk(disk, files[..i], outcomes[..i]);
    }
  }

  /** `q` names a file that is neither the output nor the backup of a job on one of `files`, under any spelling. */
  predicate Untouched(q: Path, files: seq<Path>, outputSuffix: seq<char>, canon: Path -> seq<char>)
  {
    forall i :: 0 <= i < |files| ==>
      && canon(q) != canon(OutputTarget(files[i], OutputPathArg(files[i], outputSuffix)))
      && canon(q) != canon(BackupPath(files[i]))
  }

  /** No job reads a file an earlier job of the batch could have written. */
  predicate Independent(files: seq<Path>, outputSuffix: seq<char>, canon: Path -> seq<char>)
  {
    forall j :: 0 <= j < |files| ==> Untouched(files[j], files[..j], outputSuffix, canon)
  }

  /**
   With the empty suffix, two spellings of one file are not independent:
   the first job's output is the file the second job reads.
   */
  lemma AliasesNotIndependent(f: Path, g: Path, canon: Path -> seq<char>)
    requires canon(f) == canon(g)
    ensures !Independent([f, g], "", canon)
  {
    var files := [f, g];
    assert files[..1] == [f] && files[1] == g;
    assert OutputTarget(f, OutputPathArg(f, "")) == f;
    assert canon(g) == canon(OutputTarget(files[..1][0], OutputPathArg(files[..1][0], "")));
    assert !Untouched(files[1], files[..1], "", canon);
  }

  /** A file no earlier job could write still holds, when its own job starts, what it held before the batch. */
  lemma UntouchedKept(files: seq<Path>, outcomes: seq<JobOutcome>, k: nat, outputSuffix: seq<char>,
                      job: Job, disk: Disk, engine: RegexEngine, codec: Codec)
    requires Terminates(job.patterns, job.opts)
    requires BatchOf(files, outcomes, outputSuffix, job, disk, engine, codec)
    requires k < |files| && Untouched(files[k], files[..k], outputSuffix, disk.canon)
    ensures DiskAfter(disk, files[..k], outcomes[..k]).archive(files[k]) == disk.archive(files[k])
  {
    BatchJobFacts(files, outcomes, outputSuffix, job, disk, engine, codec);
    forall i | 0 <= i < k
      ensures !Writes(outcomes[..k][i], files[k], disk.canon)
    {
      assert files[..k][i] == files[i] && outcomes[..k][i] == outcomes[i];
    }
    DiskAfterKeeps(disk, files[..k], outcomes[..k], files[k]);
  }

  /** What the finished batch loop reports, from the jobs it ran. */
  lemma BatchReport(files: seq<Path>, outcomes: seq<JobOutcome>, outputSuffix: seq<char>, dryRun: bool, report: Report)
    requires |outcomes| == |files|
    requires forall i :: 0 <= i < |outcomes| ==> WellFormed(outcomes[i], files[i], outputSuffix, dryRun)
    ensures CountSuccess(outcomes) <= |outcomes|
    ensures CountSuccess(outcomes) > 0 <==> exists i :: 0 <= i < |outcomes| && outcomes[i].success
    ensures dryRun ==> RecordAll(report, outcomes) == report
    ensures !dryRun ==> RecordAll(report, outcomes).changesMade == report.changesMade + ChangesOf(outcomes)
    ensures !dryRun ==> |RecordAll(report, outcomes).filesProcessed| == |report.filesProcessed| + CountSuccess(outcomes)
  {
    CountSuccessBounds(outcomes);
    if dryRun {
      NothingWrittenReport(report, outcomes);
    } else {
      WrittenReport(report, outcomes);
    }
  }

  /** The success count is at most the number of jobs, and positive exactly when some job succeeded. */
  lemma {:induction false} CountSuccessBounds(os: seq<JobOutcome>)
    ensures CountSuccess(os) <= |os|
    ensures CountSuccess(os) > 0 <==> exists i :: 0 <= i < |os| && os[i].success
    decreases |os|
  {
    if |os| > 0 {
      var init := os[..|os| - 1];
      CountSuccessBounds(init);
      assert forall i :: 0 <= i < |init| ==> init[i] == os[i];
      if CountSuccess(os) == 0 {
        forall i | 0 <= i < |os|
          ensures !os[i].success
        {
          if i < |init| {
            assert !init[i].success;
          }
        }
      }
    }
  }

  /** Jobs that wrote nothing leave the report as it was. */
  lemma {:induction false} NothingWrittenReport(report: Report, os: seq<JobOutcome>)
    requires forall i :: 0 <= i < |os| ==> os[i].output.None?
    ensures RecordAll(report, os) == report
    decreases |os|
  {
    if |os| > 0 {
      NothingWrittenReport(report, os[..|os| - 1]);
    }
  }

  /**
   Jobs that wrote exactly when they succeeded add their summed count, and
   one output path per success, to the report.
   */
  lemma {:induction false} WrittenReport(report: Report, os: seq<JobOutcome>)
    requires forall i :: 0 <= i < |os| ==> (os[i].output.Some? <==> os[i].success)
    requires forall i :: 0 <= i < |os| ==> (os[i].success <==> os[i].total > 0)
    ensures RecordAll(report, os).changesMade == report.changesMade + ChangesOf(os)
    ensures |RecordAll(report, os).filesProcessed| == |report.filesProcessed| + CountSuccess(os)
    ensures report.filesProcessed <= RecordAll(report, os).filesProcessed
    decreases |os|
  {
    if |os| > 0 {
      WrittenReport(report, os[..|os| - 1]);
    }
  }

  /**
   A dry batch reports the same number of successes and the same summed
   count as the real batch, as long as no file of the batch is the output or
   the backup of an earlier one: the real jobs write to the disk, and a later
   job reads what they wrote (see `LaterJobReadsEarlierOutput`).
   */
  lemma BatchDryRunSameCounts(files: seq<Path>, dry: seq<JobOutcome>, live: seq<JobOutcome>,
                              outputSuffix: seq<char>, job: Job, disk: Disk, engine: RegexEngine, codec: Codec)
    requires Terminates(job.patterns, job.opts)
    requires Independent(files, outputSuffix, disk.canon)
    requires BatchOf(files, dry, outputSuffix, job.(dryRun := true), disk, engine, codec)
    requires BatchOf(files, live, outputSuffix, job.(dryRun := false), disk, engine, codec)
    ensures CountSuccess(dry) == CountSuccess(live) && ChangesOf(dry) == ChangesOf(live)
  {
    forall k | 0 <= k < |files|
      ensures dry[k].success == live[k].success && dry[k].total == live[k].total
    {
      JobsAgree(files, dry, live, k, outputSuffix, job, disk, engine, codec);
    }
    SameCounts(dry, live);
  }

  /** Outcomes that agree job by job on the verdict and the count agree on the totals. */
  lemma {:induction false} SameCounts(xs: seq<JobOutcome>, ys: seq<JobOutcome>)
    requires |xs| == |ys|
    requires forall k :: 0 <= k < |xs| ==> xs[k].success == ys[k].success && xs[k].total == ys[k].total
    ensures CountSuccess(xs) == CountSuccess(ys) && ChangesOf(xs) == ChangesOf(ys)
    decreases |xs|
  {
    if |xs| > 0 {
      var n := |xs| - 1;
      assert forall k :: 0 <= k < n ==> xs[..n][k] == xs[k] && ys[..n][k] == ys[k];
      SameCounts(xs[..n], ys[..n]);
    }
  }

  /** Dry job `k` and real job `k` of an independent batch agree on the verdict and the count. */
  lemma JobsAgree(files: seq<Path>, dry: seq<JobOutcome>, live: seq<JobOutcome>, k: nat,
                  outputSuffix: seq<char>, job: Job, disk: Disk, engine: RegexEngine, codec: Codec)
    requires Terminates(job.patterns, job.opts)
    requires Independent(files, outputSuffix, disk.canon) && k < |files|
    requires BatchOf(files, dry, outputSuffix, job.(dryRun := true), disk, engine, codec)
    requires BatchOf(files, live, outputSuffix, job.(dryRun := false), disk, engine, codec)
    ensures |dry| == |live| == |files|
    ensures dry[k].success == live[k].success && dry[k].total == live[k].total
  {
    DryJobsReadOriginal(files, dry, outputSuffix, job.(dryRun := true), disk, engine, codec);
    BatchJobAt(files, live, k, outputSuffix, job.(dryRun := false), disk, engine, codec);
    UntouchedKept(files, live, k, outputSuffix, job.(dryRun := false), disk, engine, codec);
    DryRunSameCounts(files[k], disk.archive(files[k]), OutputPathArg(files[k], outputSuffix), job, engine, codec);
  }

  /**
   The same file named twice with the empty suffix, under one spelling or
   two (`book.epub` and the absolute path `*.epub` expands to): the first
   real job writes its output over the file, so the second job reads that
   output, while the second job of a dry batch reads the original archive.
   */
  lemma LaterJobReadsEarlierOutput(f: Path, g: Path, outcomes: seq<JobOutcome>, job: Job, disk: Disk,
                                   engine: RegexEngine, codec: Codec)
    requires Terminates(job.patterns, job.opts)
    requires disk.canon(f) == disk.canon(g)
    requires BatchOf([f, g], outcomes, "", job, disk, engine, codec)
    ensures job.dryRun ==> outcomes[1] == RunJob(g, "", job, disk, engine, codec)
    ensures !job.dryRun && outcomes[0].success ==>
              && outcomes[0].output.Some?
              && outcomes[1] == ProcessEpub(g, Some(outcomes[0].output.value.entries), Some(g), job, engine, codec)
  {
    assert [f, g][..1] == [f] && [f, g][..0] == [] && outcomes[..1] == [outcomes[0]] && outcomes[..0] == [];
    BatchJobFacts([f, g], outcomes, "", job, disk, engine, codec);
    BatchJobAt([f, g], outcomes, 1, "", job, disk, engine, codec);
    assert DiskAfter(disk, [f], outcomes[..1]) == AfterJob(disk, f, outcomes[0]);
    AfterJobEffect(disk, f, outcomes[0], g);
    if job.dryRun {
      DryJobsReadOriginal([f, g], outcomes, "", job, disk, engine, codec);
    }
  }

  /**
   Partial failure: in a batch of three files where the middle one is no
   ZIP (and is not written by the first job) and the jobs on the other two
   succeed, the batch counts exactly two successes.
   */
  lemma BatchPartialFailure(a: Path, b: Path, c: Path, outcomes: seq<JobOutcome>, outputSuffix: seq<char>,
                            job: Job, disk: Disk, engine: RegexEngine, codec: Codec)
    requires Terminates(job.patterns, job.opts)
    requires BatchOf([a, b, c], outcomes, outputSuffix, job, disk, engine, codec)
    requires disk.archive(b).None? && Untouched(b, [a], outputSuffix, disk.canon)
    requires outcomes[0].success && outcomes[2].success
    ensures CountSuccess(outcomes) == 2
  {
    MiddleJobFails(a, b, c, outcomes, outputSuffix, job, disk, engine, codec);
    CountOfThree(outcomes);
  }

  /** The job on a file that is no ZIP, and that the first job did not write, fails. */
  lemma MiddleJobFails(a: Path, b: Path, c: Path, outcomes: seq<JobOutcome>, outputSuffix: seq<char>,
                       job: Job, disk: Disk, engine: RegexEngine, codec: Codec)
    requires Terminates(job.patterns, job.opts)
    requires BatchOf([a, b, c], outcomes, outputSuffix, job, disk, engine, codec)
    requires disk.archive(b).None? && Untouched(b, [a], outputSuffix, disk.canon)
    ensures !outcomes[1].success
  {
    assert [a, b, c][..1] == [a] && [a, b, c][1] == b;
    BatchJobAt([a, b, c], outcomes, 1, outputSuffix, job, disk, engine, codec);
    UntouchedKept([a, b, c], outcomes, 1, outputSuffix, job, disk, engine, codec);
  }

  /** The success count of three jobs, job by job. */
  lemma CountOfThree(os: seq<JobOutcome>)
    requires |os| == 3
    ensures CountSuccess(os) == (if os[0].success then 1 else 0) + (if os[1].success then 1 else 0)
                                + (if os[2].success then 1 else 0)
  {
    assert os[..2][..1] == os[..1] && os[..2][1] == os[1] && os[..1][0] == os[0] && os[..1][..0] == [];
    assert CountSuccess(os[..1]) == (if os[0].success then 1 else 0);
    assert CountSuccess(os[..2]) == CountSuccess(os[..1]) + (if os[1].success then 1 else 0);
  }

  /**
   Any non-empty output suffix is ignored: a real run writes to the
   `_cleaned` name, whatever suffix was asked for.
   */
  lemma CustomSuffixIgnored(file: Path, outputSuffix: seq<char>, job: Job, disk: Disk, engine: RegexEngine, codec: Codec)
    requires Terminates(job.patterns, job.opts) && |outputSuffix| > 0
    requires RunJob(file, outputSuffix, job, disk, engine, codec).output.Some?
    ensures RunJob(file, outputSuffix, job, disk, engine, codec).output.value.path
         == Path(file.parent, Stem(file.name) + "_cleaned" + Suffix(file.name))
  {
  }

  /** The empty output suffix makes a real run write its output over the input archive. */
  lemma EmptySuffixOverwritesInput(file: Path, job: Job, disk: Disk, engine: RegexEngine, codec: Codec)
    requires Terminates(job.patterns, job.opts)
    requires RunJob(file, "", job, disk, engine, codec).output.Some?
    ensures RunJob(file, "", job, disk, engine, codec).output.value.path == file
  {
  }
}
