/**
 The pattern loop of `remove_text_from_html` (lines 53-87): every pattern of
 the list is applied, in order, to the running text of one text node, and the
 per-pattern counts are added up.

 The regular-expression engine is outside the model: it is a parameter that,
 for a pattern, an ignore-case flag and a text, either reports that the
 pattern does not compile or gives the number of matches `findall` finds and
 the text `sub('', …)` produces.
 */
module Matcher {
  import opened Base
  import opened Text
  import opened Literal

  /** What one regular-expression pass reports: `len(findall(t))` and `sub('', t)`. */
  datatype RegexRun = RegexRun(matches: nat, substituted: seq<char>)

  /** `(pattern, ignoreCase, text)` to a run, or `None` when `re.compile` raises. */
  type RegexEngine = (seq<char>, bool, seq<char>) -> Option<RegexRun>

  /** The two flags that select the removal mode, shared by every pattern of a run. */
  datatype Options = Options(useRegex: bool, caseSensitive: bool)

  /** The running text of one node and the number of removals counted so far. */
  datatype Step = Step(text: seq<char>, changes: nat)

  /** A pattern that fails to compile aborts the whole document. */
  datatype PatternError = PatternError(pattern: seq<char>)

  /**
   The only mode whose loop needs a non-empty pattern to stop is the
   case-insensitive literal one (with `""`, `find` returns 0 forever).
   */
  predicate Terminates(patterns: seq<seq<char>>, opts: Options)
  {
    opts.useRegex || opts.caseSensitive || forall k :: 0 <= k < |patterns| ==> |patterns[k]| > 0
  }

  predicate IsLiteral(opts: Options)
  {
    !opts.useRegex
  }

  /** One pattern applied to the running text of a node (lines 54-87). */
  function ApplyPattern(text: seq<char>, pattern: seq<char>, opts: Options, engine: RegexEngine)
    : Result<Step, PatternError>
    requires opts.useRegex || opts.caseSensitive || |pattern| > 0
  {
    if opts.useRegex then
      match engine(pattern, !opts.caseSensitive, text)
      case None => Failure(PatternError(pattern))
      case Some(run) =>
        if run.matches > 0 then Ok(Step(run.substituted, run.matches)) else Ok(Step(text, 0))
    else if opts.caseSensitive then
      var n := Count(text, pattern);
      if n > 0 then Ok(Step(ReplaceAll(text, pattern), n)) else Ok(Step(text, 0))
    else
      var r := RemoveRestart(text, pattern);
      if r.count > 0 then Ok(Step(r.text, r.count)) else Ok(Step(text, 0))
  }

  /** All patterns of the list, in order, each on the output of the previous one. */
  function ApplyPatterns(text: seq<char>, patterns: seq<seq<char>>, opts: Options, engine: RegexEngine)
    : Result<Step, PatternError>
    requires Terminates(patterns, opts)
    decreases |patterns|
  {
    if |patterns| == 0 then Ok(Step(text, 0))
    else
      match ApplyPattern(text, patterns[0], opts, engine)
      case Failure(e) => Failure(e)
      case Ok(first) =>
        match ApplyPatterns(first.text, patterns[1..], opts, engine)
        case Failure(e) => Failure(e)
        case Ok(rest) => Ok(Step(rest.text, first.changes + rest.changes))
  }

  /** Continuing an already computed step with more patterns. */
  function Continue(prior: Result<Step, PatternError>, patterns: seq<seq<char>>, opts: Options, engine: RegexEngine)
    : Result<Step, PatternError>
    requires Terminates(patterns, opts)
  {
    match prior
    case Failure(e) => Failure(e)
    case Ok(s) =>
      match ApplyPatterns(s.text, patterns, opts, engine)
      case Failure(e) => Failure(e)
      case Ok(t) => Ok(Step(t.text, s.changes + t.changes))
  }

  /** An empty pattern list leaves the text as it is and counts nothing. */
  lemma NoPatternsNoChange(text: seq<char>, opts: Options, engine: RegexEngine)
    ensures ApplyPatterns(text, [], opts, engine) == Ok(Step(text, 0))
  {
  }

  /**
   Pattern order: running `ps + qs` is running `ps` and then `qs` on its
   output, and the counts add up.
   */
  lemma {:induction false} ApplyPatternsAppend(text: seq<char>, ps: seq<seq<char>>, qs: seq<seq<char>>,
                                               opts: Options, engine: RegexEngine)
    requires Terminates(ps, opts) && Terminates(qs, opts)
    ensures Terminates(ps + qs, opts)
    ensures ApplyPatterns(text, ps + qs, opts, engine) == Continue(ApplyPatterns(text, ps, opts, engine), qs, opts, engine)
    decreases |ps|
  {
    TerminatesAppend(ps, qs, opts);
    if |ps| == 0 {
      assert ps + qs == qs;
    } else {
      assert (ps + qs)[0] == ps[0];
      assert (ps + qs)[1..] == ps[1..] + qs;
      match ApplyPattern(text, ps[0], opts, engine)
      case Failure(e) =>
      case Ok(first) =>
        ApplyPatternsAppend(first.text, ps[1..], qs, opts, engine);
    }
  }

  lemma TerminatesAppend(ps: seq<seq<char>>, qs: seq<seq<char>>, opts: Options)
    requires Terminates(ps, opts) && Terminates(qs, opts)
    ensures Terminates(ps + qs, opts)
  {
    if !opts.useRegex && !opts.caseSensitive {
      forall k | 0 <= k < |ps + qs|
        ensures |(ps + qs)[k]| > 0
      {
        if k < |ps| {
          assert (ps + qs)[k] == ps[k];
        } else {
          assert (ps + qs)[k] == qs[k - |ps|];
        }
      }
    }
  }

  /**
   One case-sensitive literal pattern removes exactly the occurrences a
   left-to-right scan cuts the text at, and counts them.
   */
  lemma SinglePatternCaseSensitive(text: seq<char>, p: seq<char>, engine: RegexEngine)
    requires |p| > 0
    ensures ApplyPatterns(text, [p], Options(false, true), engine)
         == Ok(Step(Concat(Split(text, p)), |Split(text, p)| - 1))
  {
    CaseSensitiveRemoval(text, p);
    SinglePattern(text, p, Options(false, true), engine);
    if Count(text, p) == 0 {
      SingleSegment(Split(text, p), p);
    }
  }

  /** A one-element pattern list is that pattern's own pass. */
  lemma SinglePattern(text: seq<char>, p: seq<char>, opts: Options, engine: RegexEngine)
    requires opts.useRegex || opts.caseSensitive || |p| > 0
    ensures ApplyPatterns(text, [p], opts, engine) == ApplyPattern(text, p, opts, engine)
  {
    assert [p][0] == p && [p][1..] == [];
  }

  /** One piece, no separator: joining and concatenating agree. */
  lemma SingleSegment(segs: seq<seq<char>>, p: seq<char>)
    requires |segs| == 1
    ensures Concat(segs) == Join(segs, p) == segs[0]
  {
    assert segs[1..] == [];
  }

  /**
   The empty pattern in case-sensitive mode: `count` finds one match per
   position and `replace` deletes nothing, so the text is kept while the
   count still grows by its length plus one.
   */
  lemma EmptyPatternCountsWithoutRemoving(text: seq<char>, engine: RegexEngine)
    ensures ApplyPatterns(text, [""], Options(false, true), engine) == Ok(Step(text, |text| + 1))
  {
    var ps: seq<seq<char>> := [""];
    assert ps[0] == "" && ps[1..] == [];
  }

  /**
   In the literal modes a pattern list only deletes characters: the result
   is a subsequence of the node text, at least one character goes per
   counted removal, and the count is zero exactly when the text is unchanged
   (for non-empty patterns).
   */
  lemma {:induction false} LiteralOnlyDeletes(text: seq<char>, patterns: seq<seq<char>>, opts: Options, engine: RegexEngine)
    requires IsLiteral(opts)
    requires forall k :: 0 <= k < |patterns| ==> |patterns[k]| > 0
    ensures ApplyPatterns(text, patterns, opts, engine).Ok?
    ensures IsSubseq(ApplyPatterns(text, patterns, opts, engine).value.text, text)
    ensures |ApplyPatterns(text, patterns, opts, engine).value.text| + ApplyPatterns(text, patterns, opts, engine).value.changes <= |text|
    ensures ApplyPatterns(text, patterns, opts, engine).value.changes == 0
        <==> ApplyPatterns(text, patterns, opts, engine).value.text == text
    decreases |patterns|
  {
    if |patterns| == 0 {
      SubseqRefl(text);
    } else {
      var p := patterns[0];
      var first := OnePatternDeletes(text, p, opts, engine);
      LiteralOnlyDeletes(first.text, patterns[1..], opts, engine);
      var rest := ApplyPatterns(first.text, patterns[1..], opts, engine).value;
      SubseqTrans(rest.text, first.text, text);
      if rest.text == text {
        // the text never grows, so neither step may have shortened it
        assert |first.text| == |text|;
      }
    }
  }

  /** One literal pattern: the single-step version of `LiteralOnlyDeletes`. */
  lemma OnePatternDeletes(text: seq<char>, p: seq<char>, opts: Options, engine: RegexEngine) returns (s: Step)
    requires IsLiteral(opts) && |p| > 0
    ensures ApplyPattern(text, p, opts, engine) == Ok(s)
    ensures IsSubseq(s.text, text)
    ensures |s.text| + s.changes * |p| == |text|
    ensures |s.text| + s.changes <= |text|
    ensures s.changes == 0 <==> s.text == text
  {
    var n: nat, cut: seq<char>;
    if opts.caseSensitive {
      n, cut := Count(text, p), ReplaceAll(text, p);
      ReplaceAllLength(text, p);
      ReplaceAllSubseq(text, p);
    } else {
      var r := RemoveRestart(text, p);
      RemoveRestartLength(text, p);
      RemoveRestartSubseq(text, p);
      n, cut := r.count, r.text;
    }
    assert ApplyPattern(text, p, opts, engine) == Ok(if n > 0 then Step(cut, n) else Step(text, 0));
    MulAtLeast(n, |p|);
    s := if n > 0 then Step(cut, n) else Step(text, 0);
    if n == 0 {
      SubseqRefl(text);
    }
  }

  lemma MulAtLeast(a: nat, b: nat)
    requires b >= 1
    ensures a <= a * b
  {
  }
}
