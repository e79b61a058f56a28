# EPUB text remover — a Dafny model

This project models `epub_text_remover.py`, a command-line tool that deletes
text patterns from EPUB books. It treats each book as a ZIP archive. It runs
every `.html` and then every `.xhtml` file through an HTML parser and deletes
the patterns from every text node. Then it repacks the whole tree into a new
archive, next to an optional `.epub.bak` backup of the original.

The model follows the program's layers:

- `text.dfy` (`Text`): ASCII lower-casing, `str.find`, and the subsequence
  relation used to say that an operation only deletes characters.
- `literal.dfy` (`Literal`): the two literal removal modes for one pattern.
  - Case-sensitive mode is `str.count` followed by `str.replace(p, '')`. It is
    characterised against an independent left-to-right split of the text at
    the pattern.
  - Case-insensitive mode is the scan-and-splice loop. It searches a
    lower-cased copy and cuts the original-case text.
- `matcher.dfy` (`Matcher`): the ordered pattern list applied to one text
  node, including regex mode. Regex mode goes through an engine given as a
  parameter.
- `markup.dfy` (`Markup`): the walk over a parsed document's text nodes. A
  node is replaced only when its text changed, and the counts are summed.
- `paths.dfy` (`Paths`): the pathlib behaviour the naming relies on (`stem`,
  `suffix`, `with_suffix`, `with_name`), the backup name and the `_cleaned`
  name.
- `archive.dfy` (`Archive`): one archive job (`process_epub_zip`), as a
  function of the extracted tree. It covers:
  - the two markup passes;
  - the `False`/`True` decision;
  - the backup and output artifacts;
  - the report counters.
- `batch.dfy` (`Batch`): `process_multiple`. It resolves the file arguments,
  derives the output path from the output suffix, runs the jobs in order and
  counts successes.
- `cli.dfy` (`Cli`): `main`. It validates the parsed arguments, builds the
  pattern list and mode, runs the batch on a fresh report, and returns the
  exit status.

Things the program calls but which are not part of it are parameters:

- the regular-expression engine;
- the HTML parser and serialiser together with the UTF-8 codec (`Codec`);
- the file system (`Disk`: which paths are files, what a wildcard expands to,
  which file a path names, and what archive a path holds). The relative
  argument `book.epub` and the absolute path that `*.epub` expands to are
  two spellings of one file.

## Behaviour as written

The code has these consequences, which the model keeps:

- Case-sensitive removal is `str.replace`, which is **not** idempotent: a
  cut can join two halves into a new occurrence. Deleting `foo` from
  `fofooo` leaves `foo`, so a second run counts and removes again
  (`Literal.ReplaceAllNotIdempotent`).
- The case-insensitive loop never advances `pos` (lines 75-78). Every search
  restarts at index 0 of the shortened text, so it also removes occurrences
  that a cut creates. On the same lower-case input the two literal modes
  therefore give different texts and counts (`Literal.ModesDiverge`). In
  exchange, the loop's result holds no occurrence in any casing
  (`Literal.RemoveRestartFree`), and a second case-insensitive run removes
  nothing (`Literal.CaseInsensitiveIdempotent`).
- An empty literal pattern behaves differently in the two modes.
  - Case-sensitive: `str.count` reports one match per position and
    `str.replace` deletes nothing, so the count grows while the text is kept
    (`Matcher.EmptyPatternCountsWithoutRemoving`).
  - Case-insensitive: the loop never stops, so the model requires non-empty
    patterns in that mode only (`Matcher.Terminates`, `Cli.Runnable`).
- A regex that fails to compile is not passed on to the caller. The generic
  handler at line 192 catches it and the job returns `False`. An input that is
  not a ZIP also gives `False`, not a distinct error.
- The output-suffix test at line 225 is inverted.
  - A non-empty suffix gives no output path, so the job writes to the
    `_cleaned` name whatever suffix was asked for (`Batch.CustomSuffixIgnored`).
  - The empty suffix names the input file itself, so the output overwrites the
    input (`Batch.EmptySuffixOverwritesInput`).
- `--output` is validated but never reaches the batch (line 296,
  `Cli.OutputIgnored`).
- The dry-run summary prints `changes_made`. Only real runs update it, so a
  dry run always reports 0 total changes (`Batch.ProcessMultiple`, `Cli.Run`).
- Each job reads the disk as the earlier jobs of the batch left it. A real
  job writes its backup (line 170) and its output (line 180) before the next
  job opens its input. With the empty suffix, the same file named twice is
  read the second time as the first job's output, while a dry batch reads
  the original twice (`Batch.LaterJobReadsEarlierOutput`). This holds also
  for two spellings of one file, as in `--output-suffix "" book.epub "*.epub"`
  (lines 211 and 213). A dry batch therefore predicts the real one's counts
  only when no file of the batch, under any spelling, is an earlier job's
  output or backup (`Batch.BatchDryRunSameCounts`,
  `Batch.AliasesNotIndependent`).

## Model

| member | source | states |
|---|---|---|
| `Text.LowerStr` | epub_text_remover.py:72-77 | lower-casing keeps the length and maps every character on its own (ASCII letters to lower case) |
| `Text.FindFrom` | epub_text_remover.py:78 | `find(p, pos)` returns the first occurrence at or after `pos`; it answers -1 (`None`) exactly when there is none from `pos` on |
| `Text.Find` | epub_text_remover.py:78-80 | `find` fails exactly when the pattern occurs nowhere; otherwise it gives an occurrence with none before it |
| `Text.FindFold` | epub_text_remover.py:77-80 | the case-folded search reports the first position at or after its start where the pattern matches up to case, and fails exactly when there is none |
| `Text.OccursLowerIffFold` | epub_text_remover.py:72-78 | the lower-cased pattern occurs in the lower-cased text at a position exactly when the pattern matches the original text there up to case |
| `Text.LowerFindIsFindFold` | epub_text_remover.py:77-78 | `lower().find(pattern.lower(), pos)` and the case-folded search give the same answer |
| `Text.FoldFreeIsLowerFree` | epub_text_remover.py:77-80 | no match up to case exactly when the lower-cased pattern occurs nowhere in the lower-cased text |
| `Text.SubseqSplice` | epub_text_remover.py:81 | cutting a span out of a text leaves a subsequence of it |
| `Literal.Count` | epub_text_remover.py:65 | computes `text.count(pattern)`: the occurrences a left-to-right, non-overlapping scan finds, and `len(text) + 1` for the empty pattern; `Literal.CountAndReplaceBySplit` ties it to the independent split |
| `Literal.ReplaceAll` | epub_text_remover.py:67 | computes `text.replace(pattern, '')`: the text without the occurrences that scan finds, and the text itself for the empty pattern; characterised by `Literal.CountAndReplaceBySplit`, `Literal.ReplaceAllLength` and `Literal.ReplaceAllSubseq` |
| `Literal.RemoveRestart` | epub_text_remover.py:72-82 | computes the case-insensitive loop: find the first case-folded occurrence from index 0, cut it out of the original-case text, start again, and count the cuts; `Literal.RemoveCaseInsensitive` proves the loop as written equal to it |
| `Literal.Split` | epub_text_remover.py:65-67 | the cut of a text at the occurrences a left-to-right, non-overlapping scan finds: rejoining the pieces with the pattern gives the text back, each cut is at the first occurrence after the previous one, and the last piece holds none |
| `Literal.FreeUntouched` | epub_text_remover.py:65-67 | with no occurrence, `count` is 0 and `replace` leaves the text as it is |
| `Literal.CountAndReplaceBySplit` | epub_text_remover.py:65-67 | any left-to-right cut determines both results: `count` is the number of separators and `replace` is the pieces without them |
| `Literal.CaseSensitiveRemoval` | epub_text_remover.py:64-68 | case-sensitive removal counts exactly the non-overlapping occurrences of a left-to-right scan and deletes those and nothing else |
| `Literal.ReplaceAllLength` | epub_text_remover.py:65-67 | every counted occurrence takes exactly `len(pattern)` characters out (for every pattern, the empty one included) |
| `Literal.ReplaceAllSubseq` | epub_text_remover.py:67 | `replace(p, '')` only deletes characters |
| `Literal.RemoveRestartLength` | epub_text_remover.py:76-82 | every count of the case-insensitive loop takes exactly `len(pattern)` characters out of the text |
| `Literal.RemoveRestartFree` | epub_text_remover.py:76-80 | the case-insensitive loop stops only when no occurrence in any casing is left |
| `Literal.RemoveRestartSubseq` | epub_text_remover.py:81 | the case-insensitive loop only deletes characters; the survivors keep their order and their case |
| `Literal.NoFoldNoRemoval` | epub_text_remover.py:76-80 | a text without an occurrence in any casing comes out of the loop unchanged, with count 0 |
| `Literal.SearchLowered` | epub_text_remover.py:77-78 | searching the lower-cased copy from `pos` finds the first position where the original text matches the pattern up to case |
| `Literal.RemoveCaseInsensitive` | epub_text_remover.py:72-84 | the loop as written (search from `pos` = 0, splice, repeat) terminates and computes the recursive definition, with the same guarantees |
| `Literal.CaseInsensitiveIdempotent` | epub_text_remover.py:72-82 | a second case-insensitive run removes nothing |
| `Literal.ReplaceAllNotIdempotent` | epub_text_remover.py:64-68 | `replace` can create a new occurrence, so a second case-sensitive run can count again |
| `Literal.ModesDiverge` | epub_text_remover.py:64-82 | on the same lower-case input the two literal modes give different texts and counts |
| `Literal.CaseInsensitiveExample` | epub_text_remover.py:72-84 | `FOO bar foo BAR` without `foo` in any casing is ` bar  BAR` with count 2, and the surviving text keeps its case |
| `Matcher.ApplyPattern` | epub_text_remover.py:54-87 | computes one pattern: in regex mode the engine's substitution and match count, or a compile error; otherwise case-sensitive `count`/`replace` or the case-insensitive loop; a pattern that counted nothing leaves the text as it was |
| `Matcher.ApplyPatterns` | epub_text_remover.py:53-87 | computes the pattern list in order, each pattern on the previous one's output, with the counts added and the first error aborting; characterised by `Matcher.ApplyPatternsAppend` and `Matcher.LiteralOnlyDeletes` |
| `Matcher.NoPatternsNoChange` | epub_text_remover.py:53 | an empty pattern list changes nothing and counts nothing |
| `Matcher.ApplyPatternsAppend` | epub_text_remover.py:53-87 | patterns apply in list order, each to the previous output: running `ps + qs` is running `qs` on the result of `ps`, with the counts added |
| `Matcher.SinglePatternCaseSensitive` | epub_text_remover.py:64-68 | one case-sensitive pattern yields the text without the scanned occurrences, and their number |
| `Matcher.EmptyPatternCountsWithoutRemoving` | epub_text_remover.py:64-68 | the empty case-sensitive pattern keeps the text but counts its length plus one |
| `Matcher.OnePatternDeletes` | epub_text_remover.py:63-87 | one literal pattern only deletes, `len(pattern)` characters per count, and counts zero exactly when the text is unchanged |
| `Matcher.LiteralOnlyDeletes` | epub_text_remover.py:53-87 | a literal pattern list never fails, only deletes characters, never counts more than it deletes, and counts zero exactly when the text is unchanged |
| `Markup.RewriteNode` | epub_text_remover.py:50-90 | computes one node: an element as it is, a text node through the pattern list, replaced only when its text changed; characterised by `Markup.RewriteNodeEffect` |
| `Markup.Rewrite` | epub_text_remover.py:49-92 | computes the document: every node rewritten in order, the counts summed, the first pattern error aborting; characterised by `Markup.RewriteShape` and `Markup.RewriteAppend` |
| `Markup.RewriteShape` | epub_text_remover.py:49-92 | every node is visited in order; the document fails exactly when some node fails, and node `i` of the result is node `i` rewritten |
| `Markup.RewriteNodeEffect` | epub_text_remover.py:49-90 | an element is never touched; a text node becomes the pattern loop's output, and it is replaced exactly when that output differs from its text |
| `Markup.RewriteAppend` | epub_text_remover.py:49-92 | nodes are independent: rewriting two halves and joining them is rewriting the whole, and the counts add |
| `Markup.RewriteSingle` | epub_text_remover.py:49-92 | a one-node document counts what the pattern loop counts on that node |
| `Markup.NoTextNoChange` | epub_text_remover.py:49-92 | a document without text nodes comes back unchanged with count 0, even with patterns that do not compile |
| `Markup.LiteralCountZeroIffUnchanged` | epub_text_remover.py:47-92 | with non-empty literal patterns, a document counts zero exactly when no node changed |
| `Paths.Suffix` | epub_text_remover.py:176 | computes `PurePath.suffix`: from the last dot when that dot is neither the first nor the last character of the name, otherwise empty; characterised by `Paths.StemSuffix` |
| `Paths.Stem` | epub_text_remover.py:169 | computes `PurePath.stem`: the name without its suffix; characterised by `Paths.StemSuffix` |
| `Paths.BackupPath` | epub_text_remover.py:169 | computes `with_suffix('.epub.bak')`; characterised by `Paths.BackupName` |
| `Paths.CleanedPath` | epub_text_remover.py:175-177 | computes `with_name(stem + '_cleaned' + suffix)`; characterised by `Paths.CleanedName` |
| `Paths.StemSuffix` | epub_text_remover.py:176 | stem and suffix put back together give the name; a suffix is empty or a dot followed by at least one character and no further dot |
| `Paths.BackupName` | epub_text_remover.py:168-169 | the backup sits beside the input and is the stem followed by `.epub.bak`; `book.epub` backs up to `book.epub.bak` |
| `Paths.CleanedName` | epub_text_remover.py:174-177 | the derived output sits beside the input and is named stem, `_cleaned`, suffix; `book.epub` gives `book_cleaned.epub` |
| `Paths.ArtifactNamesDistinct` | epub_text_remover.py:168-177 | the input, its backup and its derived output are three different paths |
| `Archive.ScanFile` | epub_text_remover.py:123-134 | computes one file of a pass: a file outside the pass as it is; otherwise its parse rewritten, its name recorded when it counted something, and its text replaced by the serialised rewrite unless this is a dry run |
| `Archive.ScanPass` | epub_text_remover.py:123-134 | computes one pass over the whole tree, file by file, with the counts and the modified names collected and the first pattern error aborting; characterised by `Archive.ScanPassEffect`, `Archive.ScanPassWrites` and `Archive.ScanPassSameCounts` |
| `Archive.ScanArchive` | epub_text_remover.py:123-153 | computes the `.html` pass and then the `.xhtml` pass on its result, with both counts added; characterised by `Archive.ScanArchiveEffect` and `Archive.ScanArchiveSameCounts` |
| `Archive.OutputTarget` | epub_text_remover.py:174-177 | computes the output path: the given one, or the `_cleaned` name beside the input; characterised by `Archive.RealRunOutcome` |
| `Archive.ScanPassPointwise` | epub_text_remover.py:123-134 | a pass treats its files one at a time: file `i` of its result is what scanning file `i` on its own gives |
| `Archive.ScanFileFacts` | epub_text_remover.py:123-134 | one file is kept when it is outside the pass, its rewrite counted nothing, or the run is dry; otherwise it is replaced by the serialised rewrite of its parse |
| `Archive.ScanPassEffect` | epub_text_remover.py:123-134 | a pass keeps every path in place, leaves files outside the pass alone, replaces a file of the pass only by the serialised rewrite of its parse, and changes nothing in a dry run or when it counted nothing |
| `Archive.ScanPassShape` | epub_text_remover.py:123-134 | a pass keeps every path in place, leaves files outside the pass as they were, and either keeps a file of the pass or replaces it by the serialised rewrite of its parse |
| `Archive.ScanPassUntouched` | epub_text_remover.py:123-134 | a dry pass, or one that counted nothing, gives back the tree as it was |
| `Archive.ScanPassWrites` | epub_text_remover.py:133-134 | in a real run, every file of the pass whose rewrite counted something is replaced by the serialised rewrite |
| `Archive.ScanPassKeepsUnchanged` | epub_text_remover.py:129-134 | a file of the pass whose rewrite counted nothing keeps its bytes, in a real run as in a dry one |
| `Archive.ScanArchiveEffect` | epub_text_remover.py:122-153 | the `.html` and `.xhtml` passes together keep the tree's layout, touch only markup files, leave a dry run's tree untouched, leave a markup file whose rewrite counted nothing as it was, and in a real run replace every markup file whose rewrite counted something by its serialised rewrite (lines 129-134, 145-150) |
| `Archive.ProcessEpub` | epub_text_remover.py:94-194 | a job succeeds exactly when it counted something; a failed job or a dry run leaves no backup and no output; a backup exists only when asked for and is the `.epub.bak` path; a written archive has the input's layout |
| `Archive.Record` | epub_text_remover.py:187-188 | the report only grows, and it changes exactly when an archive was written |
| `Archive.InvalidArchiveFails` | epub_text_remover.py:107-109 | an input that is not a ZIP gives `False` and leaves nothing behind |
| `Archive.SuccessIffChanges` | epub_text_remover.py:107-190 | `True` exactly when the archive opened, every pattern compiled and something was counted; a `False` job writes nothing and leaves the report as it was |
| `Archive.DryRunWritesNothing` | epub_text_remover.py:161-165 | a dry run writes neither backup nor output and leaves the report as it was |
| `Archive.ScanPassSameCounts` | epub_text_remover.py:129-134 | a pass counts the same and lists the same modified files whether or not it writes |
| `Archive.ScanArchiveSameCounts` | epub_text_remover.py:123-153 | the `.xhtml` pass sees no file the `.html` pass rewrote, so both passes together count the same in a dry run and a real run |
| `Archive.DryRunSameCounts` | epub_text_remover.py:129-165 | a dry run reaches the same verdict, count and modified-file list as the real run |
| `Archive.RealRunOutcome` | epub_text_remover.py:166-188 | a real run that counted something backs up exactly when asked, writes to the given path or the `_cleaned` name, and adds its count and path to the report |
| `Archive.WrittenArchiveFidelity` | epub_text_remover.py:179-184 | the written archive holds the files of the extracted tree, in the tree's walk order, at the same paths, and every non-markup file is byte-identical |
| `Batch.ParsePath` | epub_text_remover.py:209 | a parsed argument's name holds no `/`; its parent is empty or ends in `/`, and parent and name put back together give the argument; only an empty argument or one ending in `/` has no name |
| `Batch.ParsePathInjective` | epub_text_remover.py:209 | two different arguments never parse to the same path, so `/book.epub` and `book.epub` stay apart |
| `Batch.ResolveArg` | epub_text_remover.py:209-215 | an `.epub` file (suffix in any case) is taken as it is; an argument without wildcards yields at most that file; any other argument with `*` or `?` yields exactly what its glob expands to |
| `Batch.Resolve` | epub_text_remover.py:208-215 | computes the resolved file list: each argument resolved in turn and the results concatenated; characterised by `Batch.ResolveArg` and `Batch.ResolveAppend` |
| `Batch.ResolveAppend` | epub_text_remover.py:208-215 | the resolved files follow the order of the arguments |
| `Batch.OutputPathArg` | epub_text_remover.py:225-227 | a non-empty suffix gives no output path; the empty suffix gives the input path itself |
| `Batch.RunJob` | epub_text_remover.py:224-233 | computes one iteration of the batch loop: the archive job on the file as the disk holds it when the job starts, with the output path the suffix derives; characterised by `Batch.BatchJobFacts` |
| `Batch.AfterJob` | epub_text_remover.py:168-184 | computes the disk a job leaves: its backup copy of the input (line 170), then its written archive at the output path (line 180); characterised by `Batch.AfterJobEffect` |
| `Batch.ProcessMultiple` | epub_text_remover.py:196-237 | the arguments are resolved once; then one job per resolved file, in order, each on the disk the earlier jobs left (a dry run's jobs all read the original disk); the result is the number of successes, positive exactly when one job succeeded; a dry run leaves the report as it was; a real run adds every job's count and one path per success |
| `Batch.FinishedBatch` | epub_text_remover.py:223-237 | a finished batch counts at most one success per job, positive exactly when some job succeeded; its dry jobs all read the original disk; a dry batch leaves the report as it was and a real one adds the summed count and one path per success |
| `Batch.AfterJobEffect` | epub_text_remover.py:168-184 | after a job, the file its output path names holds the written archive; its backup, unless the output is the same file, holds the input as it was before the job (line 170); and every file other than its output and its backup, under any spelling, holds what it held before |
| `Batch.BatchOfSnoc` | epub_text_remover.py:224-233 | one more job, run on the disk the batch so far left, extends the batch; the disk after it is that job's writes on top |
| `Batch.BatchStep` | epub_text_remover.py:224-233 | running the job on file `k` on the disk the first `k` jobs left extends the batch of the first `k` files by one |
| `Batch.BatchOfPrefix` | epub_text_remover.py:224-233 | the first `n` jobs of a batch are the batch of the first `n` files |
| `Batch.BatchJobAt` | epub_text_remover.py:224-233 | job `i` of a batch is the job on file `i`, run on the disk that the first `i` jobs left |
| `Batch.BatchJobFacts` | epub_text_remover.py:168-188 | every job of a batch succeeds exactly when it counted something, writes nothing when it fails or in a dry run, writes its output exactly when it succeeds in a real run, and writes only its own output and backup paths |
| `Batch.DryKeepsDisk` | epub_text_remover.py:161-165 | jobs that write nothing leave the disk exactly as it was |
| `Batch.DiskAfterKeeps` | epub_text_remover.py:168-184 | a file that no job of the batch wrote, under any spelling, still holds what it held before the batch |
| `Batch.DryJobsReadOriginal` | epub_text_remover.py:161-165 | every job of a dry batch reads the disk as it was before the batch |
| `Batch.UntouchedKept` | epub_text_remover.py:168-184 | a file that is no earlier job's output or backup under any spelling holds, when its own job starts, what it held before the batch |
| `Batch.LaterJobReadsEarlierOutput` | epub_text_remover.py:170-184 | with the empty suffix and two spellings of one file (or the same spelling twice), the second real job reads the first job's written archive, while the second dry job reads the original again |
| `Batch.AliasesNotIndependent` | epub_text_remover.py:209-213 | with the empty suffix, two spellings of one file, such as `book.epub` and the absolute path `*.epub` expands to, never form a batch whose dry run is guaranteed to predict the real one |
| `Batch.CountSuccessBounds` | epub_text_remover.py:223-237 | the success count is at most the number of jobs and is positive exactly when some job succeeded |
| `Batch.NothingWrittenReport` | epub_text_remover.py:187-188 | jobs that wrote nothing leave the report unchanged |
| `Batch.WrittenReport` | epub_text_remover.py:187-188 | jobs that wrote exactly when they succeeded add their summed count and one path per success |
| `Batch.SameCounts` | epub_text_remover.py:223-237 | outcomes that agree job by job on the verdict and the count give the same success count and the same summed count |
| `Batch.JobsAgree` | epub_text_remover.py:161-188 | in a batch where no file is an earlier job's output or backup under any spelling, dry job `k` and real job `k` reach the same verdict and count |
| `Batch.BatchDryRunSameCounts` | epub_text_remover.py:223-237 | when no file of the batch is an earlier job's output or backup under any spelling, a dry batch counts the same successes and the same changes as the real batch |
| `Batch.MiddleJobFails` | epub_text_remover.py:107-109 | the job on a file that holds no ZIP, and that the first job did not write, fails |
| `Batch.CountOfThree` | epub_text_remover.py:223-233 | three jobs count one success per successful job |
| `Batch.BatchPartialFailure` | epub_text_remover.py:223-237 | in a batch of three files where the middle one holds no ZIP (and the first job did not write it) and the jobs on the other two succeed, the batch counts two successes |
| `Batch.CustomSuffixIgnored` | epub_text_remover.py:225-227 | with any non-empty suffix, a written output goes to the `_cleaned` name |
| `Batch.EmptySuffixOverwritesInput` | epub_text_remover.py:225-227 | with the empty suffix, a written output goes to the input path |
| `Cli.Configure` | epub_text_remover.py:254-301 | the arguments are rejected exactly when there is no file, no pattern source, or `--output` with several files; otherwise the files are the arguments' files, the patterns are the user's followed by the three page-number patterns when asked, which also switch on regex mode, and `--no-backup`, `--dry-run` and `--output-suffix` reach the batch unchanged |
| `Cli.RunnableConfig` | epub_text_remover.py:282-292 | arguments that avoid empty case-insensitive literal patterns give a pattern list whose removal loops all stop |
| `Cli.OutputIgnored` | epub_text_remover.py:296-301 | two runs that differ only in `--output` are configured alike |
| `Cli.PageNumbersOnly` | epub_text_remover.py:282-292 | with only `--remove-page-numbers`, the run uses exactly the three page patterns in regex mode |
| `Cli.Run` | epub_text_remover.py:273-318 | a usage error exits with 2 and runs no job; otherwise the jobs are the batch on the resolved files with the configured job and suffix, the success count and the report are that batch's, and the status is 0 exactly when some job succeeded and 1 otherwise; a dry run's report stays at zero |

## Left out

- HTML parsing and serialisation (BeautifulSoup), together with
  `read_text(errors='ignore')` and `write_text`. They are the `Codec`
  parameter, and a document is its sequence of nodes. Whether serialising an
  untouched tree gives back the original bytes is not modelled.
- Regular-expression semantics (`re.compile`, `findall`, `sub`). The engine
  is a parameter, so the regex examples of the page-number patterns are not
  proved.
- ZIP reading and writing, the scratch directory, DEFLATE and `shutil.copy2`.
  An archive is the list of its files in walk order; `rglob` order is taken
  as given.
- Archive.WrittenArchiveFidelity: the program does not keep the input's
  entry order or compression. It writes the files in `rglob` order, all with
  `ZIP_DEFLATED` (line 180), so `mimetype` is neither stored uncompressed nor
  guaranteed to come first. The model states only that the written archive
  follows the walk order of the extracted tree.
- Directories and other non-files inside an archive. A directory whose name
  ends in `.html` would make `read_text` raise; the model's entries are files
  only.
- I/O errors and every exception other than a non-ZIP input and a regex that
  does not compile. A failure after the backup was written would leave the
  backup behind; that is not modelled.
- Logging, `verbose`, timestamps, the blank line between files, and the text
  of the final summary. The summary's numbers are the report fields.
- Argument parsing itself, including `-h`. `CliArgs` is what the parser
  produces.
- Batch.ParsePath: no path normalisation (repeated or trailing slashes, `.`
  segments, other separators). It keeps everything up to the last `/`, that
  `/` included, as the parent. An argument ending in `/` has no name.
- Wildcard expansion (`Path.cwd().glob`) is a parameter. Its results are not
  filtered to `.epub` files, as in the program. It is read once, before the
  first job, so files the jobs write are never matched.
- Text.LowerStr: models ASCII case mapping only. Python's Unicode `lower()`
  can change a string's length, which would misalign the splice at line 81.
  That case is not modelled.
- Matcher.ApplyPattern: requires a non-empty pattern in case-insensitive
  literal mode, because the program's loop never stops on the empty pattern.
  The same restriction appears as `Terminates` on the functions above it and
  as `Runnable` on the arguments `Cli.Run` accepts; arguments that fail
  validation need no such condition.
- Literal.RemoveCaseInsensitive: the unused `pos` is kept at 0 and is not
  advanced, as in the program.
