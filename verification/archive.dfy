/**
 One archive job, `process_epub_zip` (lines 94-194), as a pure function of
 the extracted file tree. The ZIP container, the scratch directory, the
 UTF-8 codec and the HTML library are outside the model: an archive is the
 list of its files (relative path and bytes) in the order the tree is walked,
 `None` when `zipfile.is_zipfile` rejects the input, and parsing and
 serialising a markup file are parameters.
 */
module Archive {
  import opened Base
  import opened Matcher
  import opened Markup
  import opened Paths

  type Bytes = seq<bv8>

  /** A file of the extracted tree: its path relative to the archive root and its bytes. */
  datatype Entry = Entry(path: seq<char>, data: Bytes)

  /** `read_text(errors='ignore')` followed by `BeautifulSoup`, and `str(soup)` followed by `write_text`. */
  datatype Codec = Codec(parse: Bytes -> Document, render: Document -> Bytes)

  /** The settings one job runs with. */
  datatype Job = Job(patterns: seq<seq<char>>, opts: Options, backup: bool, dryRun: bool)

  /** Result of the markup passes: total count, names of modified files, and the tree afterwards. */
  datatype Scan = Scan(total: nat, modified: seq<seq<char>>, entries: seq<Entry>)

  /** The archive a real run writes, and where. */
  datatype Written = Written(path: Path, entries: seq<Entry>)

  /** What a job returns and leaves behind. */
  datatype JobOutcome = JobOutcome(success: bool, total: nat, modified: seq<seq<char>>,
                                   backup: Option<Path>, output: Option<Written>)

  /** The counters of the remover object (lines 29-30), updated by real runs only. */
  datatype Report = Report(changesMade: nat, filesProcessed: seq<Path>)

  const Failed := JobOutcome(false, 0, [], None, None)

  /** The final component of a relative path (`Path.name`). */
  function BaseName(path: seq<char>): seq<char>
  {
    match LastIndexOf(path, '/')
    case Some(i) => path[i + 1..]
    case None => path
  }

  /** `rglob('*' + ext)`: the file name ends with `ext`. */
  predicate Matches(path: seq<char>, ext: seq<char>)
  {
    var name := BaseName(path);
    |name| >= |ext| && name[|name| - |ext|..] == ext
  }

  /** A file one of the two markup passes reads. */
  predicate IsMarkup(path: seq<char>)
  {
    Matches(path, ".html") || Matches(path, ".xhtml")
  }

  /**
   One file of a pass (lines 123-134): a file of the pass is parsed and
   rewritten; when it had changes its name is recorded and, unless this is a
   dry run, its new text replaces it in the scratch tree.
   */
  function ScanFile(e: Entry, ext: seq<char>, job: Job, engine: RegexEngine, codec: Codec): Result<Scan, PatternError>
    requires Terminates(job.patterns, job.opts)
  {
    if !Matches(e.path, ext) then Ok(Scan(0, [], [e]))
    else
      match Rewrite(codec.parse(e.data), job.patterns, job.opts, engine)
      case Failure(err) => Failure(err)
      case Ok(rw) =>
        if rw.changes > 0 then
          var e' := if job.dryRun then e else Entry(e.path, codec.render(rw.doc));
          Ok(Scan(rw.changes, [BaseName(e.path)], [e']))
        else Ok(Scan(0, [], [e]))
  }

  /** One pass over the whole tree for one extension; a pattern error aborts it. */
  function ScanPass(entries: seq<Entry>, ext: seq<char>, job: Job, engine: RegexEngine, codec: Codec)
    : Result<Scan, PatternError>
    requires Terminates(job.patterns, job.opts)
    decreases |entries|
  {
    if |entries| == 0 then Ok(Scan(0, [], []))
    else
      match ScanFile(entries[0], ext, job, engine, codec)
      case Failure(err) => Failure(err)
      case Ok(first) =>
        match ScanPass(entries[1..], ext, job, engine, codec)
        case Failure(err) => Failure(err)
        case Ok(rest) => Ok(Scan(first.total + rest.total, first.modified + rest.modified, first.entries + rest.entries))
  }

  /** The `.html` pass and then the `.xhtml` pass (lines 123-153). */
  function ScanArchive(entries: seq<Entry>, job: Job, engine: RegexEngine, codec: Codec): Result<Scan, PatternError>
    requires Terminates(job.patterns, job.opts)
  {
    match ScanPass(entries, ".html", job, engine, codec)
    case Failure(err) => Failure(err)
    case Ok(html) =>
      match ScanPass(html.entries, ".xhtml", job, engine, codec)
      case Failure(err) => Failure(err)
      case Ok(xhtml) => Ok(Scan(html.total + xhtml.total, html.modified + xhtml.modified, xhtml.entries))
  }

  /** Lines 174-177: the given output path, or the derived `_cleaned` name. */
  function OutputTarget(input: Path, outputPath: Option<Path>): Path
  {
    match outputPath
    case Some(p) => p
    case None => CleanedPath(input)
  }

  /**
   The job: reject a non-ZIP input, scan, and then decide. No count means
   `False` and nothing written; a dry run means `True` and nothing written;
   a real run writes the backup when asked and the whole scratch tree to the
   output path. A pattern that fails to compile is caught and gives `False`.
   */
  function ProcessEpub(input: Path, archive: Option<seq<Entry>>, outputPath: Option<Path>,
                       job: Job, engine: RegexEngine, codec: Codec): (r: JobOutcome)
    requires Terminates(job.patterns, job.opts)
    ensures r.success <==> r.total > 0
    ensures !r.success || job.dryRun ==> r.backup.None? && r.output.None?
    ensures !job.dryRun ==> (r.output.Some? <==> r.success)
    ensures r.backup.Some? ==> job.backup && r.backup.value == BackupPath(input)
    ensures r.output.Some? ==> archive.Some? && SameLayout(archive.value, r.output.value.entries)
    ensures r.output.Some? ==> r.output.value.path == OutputTarget(input, outputPath)
  {
    match archive
    case None => Failed
    case Some(entries) =>
      match ScanArchive(entries, job, engine, codec)
      case Failure(_) => Failed
      case Ok(scan) =>
        ScanArchiveEffect(entries, job, engine, codec);
        if scan.total == 0 then JobOutcome(false, 0, scan.modified, None, None)
        else if job.dryRun then JobOutcome(true, scan.total, scan.modified, None, None)
        else
          JobOutcome(true, scan.total, scan.modified,
                     if job.backup then Some(BackupPath(input)) else None,
                     Some(Written(OutputTarget(input, outputPath), scan.entries)))
  }

  /** Lines 187-188: a written archive adds its count and its path to the report. */
  function Record(report: Report, o: JobOutcome): (r: Report)
    ensures r.changesMade >= report.changesMade
    ensures report.filesProcessed <= r.filesProcessed
    ensures o.output.None? <==> r == report
  {
    match o.output
    case Some(w) => Report(report.changesMade + o.total, report.filesProcessed + [w.path])
    case None => report
  }

  // ---------------------------------------------------------------------------
  // Properties
  // ---------------------------------------------------------------------------

  /** The passes keep the tree's shape: the same files at the same paths, in the same walk order. */
  predicate SameLayout(before: seq<Entry>, after: seq<Entry>)
  {
    |after| == |before| && forall i :: 0 <= i < |before| ==> after[i].path == before[i].path
  }

  /**
   What a pass may do to the tree: a file outside the pass keeps its bytes,
   a file of the pass keeps them or gets a re-rendered document, and in a
   dry run, or when nothing was counted, the tree is untouched.
   */
  predicate PassEffect(before: seq<Entry>, after: seq<Entry>, ext: seq<char>, total: nat, job: Job, engine: RegexEngine, codec: Codec)
    requires Terminates(job.patterns, job.opts)
  {
    && PassShape(before, after, ext, job, engine, codec)
    && (job.dryRun || total == 0 ==> after == before)
  }

  /** Same layout; a file outside the pass keeps its bytes, a file of the pass keeps them or is re-rendered. */
  predicate PassShape(before: seq<Entry>, after: seq<Entry>, ext: seq<char>, job: Job, engine: RegexEngine, codec: Codec)
    requires Terminates(job.patterns, job.opts)
  {
    && SameLayout(before, after)
    && (forall i :: 0 <= i < |before| && !Matches(before[i].path, ext) ==> after[i] == before[i])
    && (forall i :: 0 <= i < |before| ==>
          after[i] == before[i] || Rendered(before[i], after[i], job, engine, codec))
  }

  /** What a real pass must do: every file of the pass whose rewrite counted something is re-rendered. */
  predicate PassWrites(before: seq<Entry>, after: seq<Entry>, ext: seq<char>, job: Job, engine: RegexEngine, codec: Codec)
    requires Terminates(job.patterns, job.opts)
    requires |after| == |before|
  {
    !job.dryRun ==>
      forall i :: 0 <= i < |before| && Matches(before[i].path, ext) && Changed(before[i], job, engine, codec) ==>
        Rendered(before[i], after[i], job, engine, codec)
  }

  /** Every file of the pass whose rewrite counted nothing keeps its bytes, in a real run as in a dry one. */
  predicate PassKeeps(before: seq<Entry>, after: seq<Entry>, ext: seq<char>, job: Job, engine: RegexEngine, codec: Codec)
    requires Terminates(job.patterns, job.opts)
    requires |after| == |before|
  {
    forall i :: 0 <= i < |before| && Matches(before[i].path, ext) && !Changed(before[i], job, engine, codec) ==>
      after[i] == before[i]
  }

  /** The rewrite of the file's parse succeeds and counts something. */
  predicate Changed(e: Entry, job: Job, engine: RegexEngine, codec: Codec)
    requires Terminates(job.patterns, job.opts)
  {
    var rw := Rewrite(codec.parse(e.data), job.patterns, job.opts, engine);
    rw.Ok? && rw.value.changes > 0
  }

  /** `after` is `before` with its text replaced by the serialised rewrite of its parse. */
  predicate Rendered(before: Entry, after: Entry, job: Job, engine: RegexEngine, codec: Codec)
    requires Terminates(job.patterns, job.opts)
  {
    var rw := Rewrite(codec.parse(before.data), job.patterns, job.opts, engine);
    rw.Ok? && after == Entry(before.path, codec.render(rw.value.doc))
  }

  /** Everything a pass does to the tree, from its shape and from the dry or empty case. */
  lemma ScanPassEffect(entries: seq<Entry>, ext: seq<char>, job: Job, engine: RegexEngine, codec: Codec)
    requires Terminates(job.patterns, job.opts)
    requires ScanPass(entries, ext, job, engine, codec).Ok?
    ensures PassEffect(entries, ScanPass(entries, ext, job, engine, codec).value.entries, ext,
                       ScanPass(entries, ext, job, engine, codec).value.total, job, engine, codec)
  {
    ScanPassShape(entries, ext, job, engine, codec);
    ScanPassUntouched(entries, ext, job, engine, codec);
  }

  /** A pass is its files' scans side by side: file `i` of the result is what `ScanFile` makes of file `i`. */
  lemma {:induction false} ScanPassPointwise(entries: seq<Entry>, ext: seq<char>, job: Job, engine: RegexEngine, codec: Codec)
    requires Terminates(job.patterns, job.opts)
    requires ScanPass(entries, ext, job, engine, codec).Ok?
    ensures |ScanPass(entries, ext, job, engine, codec).value.entries| == |entries|
    ensures forall i :: 0 <= i < |entries| ==>
              && ScanFile(entries[i], ext, job, engine, codec).Ok?
              && ScanFile(entries[i], ext, job, engine, codec).value.entries == [ScanPass(entries, ext, job, engine, codec).value.entries[i]]
    decreases |entries|
  {
    if |entries| > 0 {
      var first := ScanFile(entries[0], ext, job, engine, codec).value;
      ScanPassPointwise(entries[1..], ext, job, engine, codec);
      var rest := ScanPass(entries[1..], ext, job, engine, codec).value;
      assert |first.entries| == 1;
      forall i | 1 <= i < |entries|
        ensures ScanFile(entries[i], ext, job, engine, codec) == ScanFile(entries[1..][i - 1], ext, job, engine, codec)
        ensures (first.entries + rest.entries)[i] == rest.entries[i - 1]
      {
      }
    }
  }

  /**
   One file: it is kept unless it belongs to the pass and its rewrite
   counted something, and then, unless this is a dry run, it is re-rendered.
   */
  lemma ScanFileFacts(e: Entry, ext: seq<char>, job: Job, engine: RegexEngine, codec: Codec)
    requires Terminates(job.patterns, job.opts)
    requires ScanFile(e, ext, job, engine, codec).Ok?
    ensures |ScanFile(e, ext, job, engine, codec).value.entries| == 1
    ensures !Matches(e.path, ext) || !Changed(e, job, engine, codec) || job.dryRun ==>
              ScanFile(e, ext, job, engine, codec).value.entries[0] == e
    ensures Matches(e.path, ext) && Changed(e, job, engine, codec) && !job.dryRun ==>
              Rendered(e, ScanFile(e, ext, job, engine, codec).value.entries[0], job, engine, codec)
  {
  }

  /** A pass keeps the layout and only re-renders files of the pass. */
  lemma ScanPassShape(entries: seq<Entry>, ext: seq<char>, job: Job, engine: RegexEngine, codec: Codec)
    requires Terminates(job.patterns, job.opts)
    requires ScanPass(entries, ext, job, engine, codec).Ok?
    ensures PassShape(entries, ScanPass(entries, ext, job, engine, codec).value.entries, ext, job, engine, codec)
  {
    ScanPassPointwise(entries, ext, job, engine, codec);
    forall i | 0 <= i < |entries|
    {
      ScanFileFacts(entries[i], ext, job, engine, codec);
    }
  }

  /** A dry pass, or one that counted nothing, leaves the tree as it was. */
  lemma {:induction false} ScanPassUntouched(entries: seq<Entry>, ext: seq<char>, job: Job, engine: RegexEngine, codec: Codec)
    requires Terminates(job.patterns, job.opts)
    requires ScanPass(entries, ext, job, engine, codec).Ok?
    ensures job.dryRun || ScanPass(entries, ext, job, engine, codec).value.total == 0 ==>
              ScanPass(entries, ext, job, engine, codec).value.entries == entries
    decreases |entries|
  {
    if |entries| > 0 {
      var first := ScanFile(entries[0], ext, job, engine, codec).value;
      ScanPassUntouched(entries[1..], ext, job, engine, codec);
      var rest := ScanPass(entries[1..], ext, job, engine, codec).value;
      if job.dryRun || first.total + rest.total == 0 {
        assert first.entries == [entries[0]];
        assert first.entries + rest.entries == [entries[0]] + entries[1..] == entries;
      }
    }
  }

  /** A real pass re-renders every file of the pass that counted something. */
  lemma ScanPassWrites(entries: seq<Entry>, ext: seq<char>, job: Job, engine: RegexEngine, codec: Codec)
    requires Terminates(job.patterns, job.opts)
    requires ScanPass(entries, ext, job, engine, codec).Ok?
    ensures |ScanPass(entries, ext, job, engine, codec).value.entries| == |entries|
    ensures PassWrites(entries, ScanPass(entries, ext, job, engine, codec).value.entries, ext, job, engine, codec)
  {
    ScanPassPointwise(entries, ext, job, engine, codec);
    forall i | 0 <= i < |entries|
    {
      ScanFileFacts(entries[i], ext, job, engine, codec);
    }
  }

  /** A pass rewrites a file only when its rewrite counted something. */
  lemma ScanPassKeepsUnchanged(entries: seq<Entry>, ext: seq<char>, job: Job, engine: RegexEngine, codec: Codec)
    requires Terminates(job.patterns, job.opts)
    requires ScanPass(entries, ext, job, engine, codec).Ok?
    ensures |ScanPass(entries, ext, job, engine, codec).value.entries| == |entries|
    ensures PassKeeps(entries, ScanPass(entries, ext, job, engine, codec).value.entries, ext, job, engine, codec)
  {
    ScanPassPointwise(entries, ext, job, engine, codec);
    forall i | 0 <= i < |entries|
    {
      ScanFileFacts(entries[i], ext, job, engine, codec);
    }
  }

  /**
   Both passes together keep the layout and touch only markup files, and in
   a real run every markup file whose rewrite counted something ends up
   re-rendered, while one whose rewrite counted nothing keeps its bytes.
   */
  lemma ScanArchiveEffect(entries: seq<Entry>, job: Job, engine: RegexEngine, codec: Codec)
    requires Terminates(job.patterns, job.opts)
    requires ScanArchive(entries, job, engine, codec).Ok?
    ensures SameLayout(entries, ScanArchive(entries, job, engine, codec).value.entries)
    ensures forall i :: 0 <= i < |entries| && !IsMarkup(entries[i].path) ==>
              ScanArchive(entries, job, engine, codec).value.entries[i] == entries[i]
    ensures job.dryRun ==> ScanArchive(entries, job, engine, codec).value.entries == entries
    ensures !job.dryRun ==> forall i :: 0 <= i < |entries| && IsMarkup(entries[i].path) && Changed(entries[i], job, engine, codec) ==>
              Rendered(entries[i], ScanArchive(entries, job, engine, codec).value.entries[i], job, engine, codec)
    ensures forall i :: 0 <= i < |entries| && IsMarkup(entries[i].path) && !Changed(entries[i], job, engine, codec) ==>
              ScanArchive(entries, job, engine, codec).value.entries[i] == entries[i]
  {
    var html := ScanPass(entries, ".html", job, engine, codec).value;
    ScanPassEffect(entries, ".html", job, engine, codec);
    ScanPassEffect(html.entries, ".xhtml", job, engine, codec);
    ScanPassWrites(entries, ".html", job, engine, codec);
    ScanPassWrites(html.entries, ".xhtml", job, engine, codec);
    ScanPassKeepsUnchanged(entries, ".html", job, engine, codec);
    ScanPassKeepsUnchanged(html.entries, ".xhtml", job, engine, codec);
    XhtmlUnaffected(entries);
  }

  /** An input `zipfile` rejects gives `False` and leaves nothing behind. */
  lemma InvalidArchiveFails(input: Path, outputPath: Option<Path>, job: Job, engine: RegexEngine, codec: Codec)
    requires Terminates(job.patterns, job.opts)
    ensures ProcessEpub(input, None, outputPath, job, engine, codec) == Failed
    ensures Record(Report(0, []), Failed) == Report(0, [])
  {
  }

  /**
   `True` exactly when the archive opened, every pattern compiled and the
   two passes counted something; a `False` job writes no backup and no
   output and leaves the report as it was.
   */
  lemma SuccessIffChanges(input: Path, archive: Option<seq<Entry>>, outputPath: Option<Path>,
                          job: Job, engine: RegexEngine, codec: Codec, report: Report)
    requires Terminates(job.patterns, job.opts)
    ensures ProcessEpub(input, archive, outputPath, job, engine, codec).success
        <==> archive.Some? && ScanArchive(archive.value, job, engine, codec).Ok?
             && ScanArchive(archive.value, job, engine, codec).value.total > 0
    ensures !ProcessEpub(input, archive, outputPath, job, engine, codec).success ==>
              && ProcessEpub(input, archive, outputPath, job, engine, codec).backup.None?
              && ProcessEpub(input, archive, outputPath, job, engine, codec).output.None?
              && Record(report, ProcessEpub(input, archive, outputPath, job, engine, codec)) == report
  {
  }

  /**
   A dry run writes neither backup nor output and leaves the report as it
   was, whatever it counted.
   */
  lemma DryRunWritesNothing(input: Path, archive: Option<seq<Entry>>, outputPath: Option<Path>,
                            job: Job, engine: RegexEngine, codec: Codec, report: Report)
    requires Terminates(job.patterns, job.opts) && job.dryRun
    ensures ProcessEpub(input, archive, outputPath, job, engine, codec).backup.None?
    ensures ProcessEpub(input, archive, outputPath, job, engine, codec).output.None?
    ensures Record(report, ProcessEpub(input, archive, outputPath, job, engine, codec)) == report
  {
  }

  /**
   A dry run counts what the real run counts: same verdict, same total and
   the same modified files.
   */
  lemma DryRunSameCounts(input: Path, archive: Option<seq<Entry>>, outputPath: Option<Path>,
                         job: Job, engine: RegexEngine, codec: Codec)
    requires Terminates(job.patterns, job.opts)
    ensures var dry := ProcessEpub(input, archive, outputPath, job.(dryRun := true), engine, codec);
            var live := ProcessEpub(input, archive, outputPath, job.(dryRun := false), engine, codec);
            dry.success == live.success && dry.total == live.total && dry.modified == live.modified
  {
    if archive.Some? {
      ScanArchiveSameCounts(archive.value, job, engine, codec);
    }
  }

  lemma {:induction false} ScanPassSameCounts(entries: seq<Entry>, ext: seq<char>, job: Job, engine: RegexEngine, codec: Codec)
    requires Terminates(job.patterns, job.opts)
    ensures var dry := ScanPass(entries, ext, job.(dryRun := true), engine, codec);
            var live := ScanPass(entries, ext, job.(dryRun := false), engine, codec);
            dry.Ok? == live.Ok? && (dry.Ok? ==> dry.value.total == live.value.total && dry.value.modified == live.value.modified)
    decreases |entries|
  {
    if |entries| > 0 {
      ScanPassSameCounts(entries[1..], ext, job, engine, codec);
    }
  }

  /** The `.xhtml` pass reads only `.xhtml` files, which the `.html` pass never rewrites. */
  lemma ScanArchiveSameCounts(entries: seq<Entry>, job: Job, engine: RegexEngine, codec: Codec)
    requires Terminates(job.patterns, job.opts)
    ensures var dry := ScanArchive(entries, job.(dryRun := true), engine, codec);
            var live := ScanArchive(entries, job.(dryRun := false), engine, codec);
            dry.Ok? == live.Ok? && (dry.Ok? ==> dry.value.total == live.value.total && dry.value.modified == live.value.modified)
  {
    var jd, jr := job.(dryRun := true), job.(dryRun := false);
    ScanPassSameCounts(entries, ".html", job, engine, codec);
    if ScanPass(entries, ".html", jr, engine, codec).Ok? {
      var hd := ScanPass(entries, ".html", jd, engine, codec).value.entries;
      var hr := ScanPass(entries, ".html", jr, engine, codec).value.entries;
      ScanPassEffect(entries, ".html", jd, engine, codec);
      ScanPassEffect(entries, ".html", jr, engine, codec);
      XhtmlUnaffected(entries);
      assert forall i :: 0 <= i < |entries| && Matches(entries[i].path, ".xhtml") ==> hr[i] == entries[i];
      ScanPassSameCounts(hd, ".xhtml", job, engine, codec);
      ScanPassOnlyReadsPass(hd, hr, ".xhtml", jr, engine, codec);
    }
  }

  /** No file name ends in both `.html` and `.xhtml`. */
  lemma XhtmlUnaffected(entries: seq<Entry>)
    ensures forall i :: 0 <= i < |entries| && Matches(entries[i].path, ".xhtml") ==> !Matches(entries[i].path, ".html")
  {
    forall i | 0 <= i < |entries| && Matches(entries[i].path, ".xhtml")
      ensures !Matches(entries[i].path, ".html")
    {
      var name := BaseName(entries[i].path);
      assert name[|name| - 5] == 'x';
    }
  }

  /**
   A pass depends only on the files it reads: two trees with the same layout
   that agree on the files of the pass give the same counts.
   */
  lemma {:induction false} ScanPassOnlyReadsPass(a: seq<Entry>, b: seq<Entry>, ext: seq<char>, job: Job, engine: RegexEngine, codec: Codec)
    requires Terminates(job.patterns, job.opts)
    requires SameLayout(a, b)
    requires forall i :: 0 <= i < |a| && Matches(a[i].path, ext) ==> a[i] == b[i]
    ensures ScanPass(a, ext, job, engine, codec).Ok? == ScanPass(b, ext, job, engine, codec).Ok?
    ensures ScanPass(a, ext, job, engine, codec).Ok? ==>
              && ScanPass(a, ext, job, engine, codec).value.total == ScanPass(b, ext, job, engine, codec).value.total
              && ScanPass(a, ext, job, engine, codec).value.modified == ScanPass(b, ext, job, engine, codec).value.modified
    decreases |a|
  {
    if |a| > 0 {
      assert a[0].path == b[0].path;
      ScanPassOnlyReadsPass(a[1..], b[1..], ext, job, engine, codec);
    }
  }

  /**
   A real run that counted something writes the whole scratch tree to the
   given path, or to the `_cleaned` name when none was given, backs the
   input up to `.epub.bak` exactly when asked, and adds its count and its
   output path to the report.
   */
  lemma RealRunOutcome(input: Path, entries: seq<Entry>, outputPath: Option<Path>,
                       job: Job, engine: RegexEngine, codec: Codec, report: Report)
    requires Terminates(job.patterns, job.opts) && !job.dryRun
    requires ScanArchive(entries, job, engine, codec).Ok? && ScanArchive(entries, job, engine, codec).value.total > 0
    ensures var o := ProcessEpub(input, Some(entries), outputPath, job, engine, codec);
            && o.success
            && o.total == ScanArchive(entries, job, engine, codec).value.total
            && o.backup == (if job.backup then Some(Path(input.parent, Stem(input.name) + ".epub.bak")) else None)
            && o.output.Some?
            && o.output.value.path == (if outputPath.Some? then outputPath.value
                                       else Path(input.parent, Stem(input.name) + "_cleaned" + Suffix(input.name)))
            && Record(report, o) == Report(report.changesMade + o.total, report.filesProcessed + [o.output.value.path])
  {
  }

  /**
   Archive fidelity: the written archive holds the files of the extracted
   tree, in the tree's walk order (lines 181-184), at the same paths; every
   non-markup file is byte-identical. `entries` is that walk, not the input
   ZIP's own entry order.
   */
  lemma WrittenArchiveFidelity(input: Path, entries: seq<Entry>, outputPath: Option<Path>,
                               job: Job, engine: RegexEngine, codec: Codec)
    requires Terminates(job.patterns, job.opts)
    requires ProcessEpub(input, Some(entries), outputPath, job, engine, codec).output.Some?
    ensures var w := ProcessEpub(input, Some(entries), outputPath, job, engine, codec).output.value;
            && SameLayout(entries, w.entries)
            && forall i :: 0 <= i < |entries| && !IsMarkup(entries[i].path) ==> w.entries[i] == entries[i]
  {
    ScanArchiveEffect(entries, job, engine, codec);
  }
}
