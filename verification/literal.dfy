/**
 Literal (non-regex) removal of one pattern from one text string, in the two
 modes of `remove_text_from_html`:

 - case-sensitive: Python's `str.count` followed by `str.replace(p, '')`, a
   left-to-right, non-overlapping count-and-delete-all;
 - case-insensitive: a scan-and-splice loop that searches a lower-cased copy
   and cuts the original-case text, restarting every search at index 0 of the
   already shortened text.

 The two modes are not the same operation (see `ModesDiverge`).
 */
module Literal {
  import opened Base
  import opened Text

  // ---------------------------------------------------------------------------
  // Case-sensitive mode
  // ---------------------------------------------------------------------------

  /** `t.count(p)`; for the empty pattern Python answers `len(t) + 1`. */
  function Count(t: seq<char>, p: seq<char>): nat
    decreases |t|
  {
    if |p| == 0 then |t| + 1
    else if |t| < |p| then 0
    else if t[..|p|] == p then 1 + Count(t[|p|..], p)
    else Count(t[1..], p)
  }

  /** `t.replace(p, '')`; the empty pattern leaves the text as it is. */
  function ReplaceAll(t: seq<char>, p: seq<char>): seq<char>
    decreases |t|
  {
    if |p| == 0 then t
    else if |t| < |p| then t
    else if t[..|p|] == p then ReplaceAll(t[|p|..], p)
    else [t[0]] + ReplaceAll(t[1..], p)
  }

  /** The pieces separated by `p`: `Join([a, b, c], p) == a + p + b + p + c`. */
  function Join(segs: seq<seq<char>>, p: seq<char>): seq<char>
    requires |segs| > 0
  {
    if |segs| == 1 then segs[0] else segs[0] + p + Join(segs[1..], p)
  }

  function Concat(segs: seq<seq<char>>): seq<char>
  {
    if |segs| == 0 then [] else segs[0] + Concat(segs[1..])
  }

  /** A left-to-right scan that has read `seg` finds its first `p` right after it. */
  predicate Leftmost(seg: seq<char>, p: seq<char>)
  {
    forall j :: 0 <= j < |seg| ==> !OccursAt(seg + p, p, j)
  }

  /**
   `segs` is the cut of `t` at the occurrences of `p` that a left-to-right,
   non-overlapping scan finds: rejoining gives `t`, each cut is at the first
   occurrence after the previous one, and the last piece holds none.
   */
  predicate SplitOf(segs: seq<seq<char>>, t: seq<char>, p: seq<char>)
  {
    && |segs| > 0
    && Join(segs, p) == t
    && (forall i :: 0 <= i < |segs| - 1 ==> Leftmost(segs[i], p))
    && Free(segs[|segs| - 1], p)
  }

  /** `t.split(p)`, built with `str.find`. */
  function Split(t: seq<char>, p: seq<char>): (segs: seq<seq<char>>)
    requires |p| > 0
    ensures SplitOf(segs, t, p)
    decreases |t|
  {
    match Find(t, p)
    case None => [t]
    case Some(i) =>
      var rest := Split(t[i + |p|..], p);
      FirstCutLeftmost(t, p, i);
      SplitOfCons(t[..i], rest, t[i + |p|..], p);
      assert t == t[..i] + p + t[i + |p|..];
      [t[..i]] + rest
  }

  /** The text before the first occurrence is a piece the scan cuts off. */
  lemma FirstCutLeftmost(t: seq<char>, p: seq<char>, i: nat)
    requires OccursAt(t, p, i) && forall j :: j < i ==> !OccursAt(t, p, j)
    ensures Leftmost(t[..i], p)
  {
    assert t[..i] + p == t[..i + |p|];
    forall j | 0 <= j < i
      ensures !OccursAt(t[..i] + p, p, j)
    {
      if OccursAt(t[..i] + p, p, j) {
        assert t[j..j + |p|] == t[..i + |p|][j..j + |p|];
        assert OccursAt(t, p, j);
        assert false;
      }
    }
  }

  /** Prepending a leftmost piece to a cut of `rest` gives a cut of `seg + p + rest`. */
  lemma SplitOfCons(seg: seq<char>, segs: seq<seq<char>>, rest: seq<char>, p: seq<char>)
    requires Leftmost(seg, p) && SplitOf(segs, rest, p)
    ensures SplitOf([seg] + segs, seg + p + rest, p)
  {
    var all := [seg] + segs;
    assert all[1..] == segs;
    assert all[|all| - 1] == segs[|segs| - 1];
    forall i | 0 <= i < |all| - 1
      ensures Leftmost(all[i], p)
    {
      if i > 0 {
        assert all[i] == segs[i - 1];
      }
    }
  }

  /** Without an occurrence, counting finds nothing and replacing changes nothing. */
  lemma {:induction false} FreeUntouched(t: seq<char>, p: seq<char>)
    requires |p| > 0 && Free(t, p)
    ensures Count(t, p) == 0 && ReplaceAll(t, p) == t
    decreases |t|
  {
    if |t| >= |p| {
      assert !OccursAt(t, p, 0);
      assert Free(t[1..], p) by {
        forall j | 0 <= j <= |t[1..]|
          ensures !OccursAt(t[1..], p, j)
        {
          if OccursAt(t[1..], p, j) {
            assert t[1..][j..j + |p|] == t[j + 1..j + 1 + |p|];
            assert OccursAt(t, p, j + 1);
            assert false;
          }
        }
      }
      FreeUntouched(t[1..], p);
      assert t == [t[0]] + t[1..];
    }
  }

  /** Past the first character of a leftmost piece, the rest is still leftmost. */
  lemma LeftmostTail(seg: seq<char>, p: seq<char>)
    requires |seg| > 0 && Leftmost(seg, p)
    ensures Leftmost(seg[1..], p)
  {
    assert seg[1..] + p == (seg + p)[1..];
    forall j | 0 <= j < |seg[1..]|
      ensures !OccursAt(seg[1..] + p, p, j)
    {
      if OccursAt(seg[1..] + p, p, j) {
        assert (seg + p)[1..][j..j + |p|] == (seg + p)[j + 1..j + 1 + |p|];
        assert OccursAt(seg + p, p, j + 1);
        assert false;
      }
    }
  }

  /** Scanning across one piece and its separator counts one. */
  lemma {:induction false} SkipSegmentCount(seg: seq<char>, p: seq<char>, rest: seq<char>)
    requires |p| > 0 && Leftmost(seg, p)
    ensures Count(seg + p + rest, p) == 1 + Count(rest, p)
    decreases |seg|
  {
    var t := seg + p + rest;
    if |seg| == 0 {
      assert t == p + rest;
      assert t[..|p|] == p && t[|p|..] == rest;
    } else {
      assert !OccursAt(seg + p, p, 0);
      assert t[..|p|] == (seg + p)[..|p|];
      LeftmostTail(seg, p);
      SkipSegmentCount(seg[1..], p, rest);
      assert t[1..] == seg[1..] + p + rest;
    }
  }

  /** Scanning across one piece and its separator keeps the piece and deletes the separator. */
  lemma {:induction false} SkipSegmentReplace(seg: seq<char>, p: seq<char>, rest: seq<char>)
    requires |p| > 0 && Leftmost(seg, p)
    ensures ReplaceAll(seg + p + rest, p) == seg + ReplaceAll(rest, p)
    decreases |seg|
  {
    var t := seg + p + rest;
    if |seg| == 0 {
      assert t == p + rest;
      assert t[..|p|] == p && t[|p|..] == rest;
    } else {
      assert !OccursAt(seg + p, p, 0);
      assert t[..|p|] == (seg + p)[..|p|];
      LeftmostTail(seg, p);
      SkipSegmentReplace(seg[1..], p, rest);
      assert t[1..] == seg[1..] + p + rest;
      assert [t[0]] + (seg[1..] + ReplaceAll(rest, p)) == seg + ReplaceAll(rest, p);
    }
  }

  /**
   Any left-to-right cut of `t` determines both results of case-sensitive
   removal: the count is the number of separators, and the text is the pieces
   put back together without them.
   */
  lemma {:induction false} CountAndReplaceBySplit(segs: seq<seq<char>>, t: seq<char>, p: seq<char>)
    requires |p| > 0 && SplitOf(segs, t, p)
    ensures Count(t, p) == |segs| - 1
    ensures ReplaceAll(t, p) == Concat(segs)
    decreases |segs|
  {
    if |segs| == 1 {
      FreeUntouched(t, p);
      assert Concat(segs) == segs[0] + Concat([]);
    } else {
      var rest := Join(segs[1..], p);
      assert SplitOf(segs[1..], rest, p) by {
        assert segs[1..][|segs[1..]| - 1] == segs[|segs| - 1];
        forall i | 0 <= i < |segs[1..]| - 1
          ensures Leftmost(segs[1..][i], p)
        {
          assert segs[1..][i] == segs[i + 1];
        }
      }
      CountAndReplaceBySplit(segs[1..], rest, p);
      assert Leftmost(segs[0], p);
      SkipSegmentCount(segs[0], p, rest);
      SkipSegmentReplace(segs[0], p, rest);
    }
  }

  /**
   Case-sensitive removal (lines 64-70): the count is the number of
   non-overlapping occurrences a left-to-right scan finds, every one of them
   is deleted, and nothing else is.
   */
  lemma CaseSensitiveRemoval(t: seq<char>, p: seq<char>)
    requires |p| > 0
    ensures Count(t, p) == |Split(t, p)| - 1
    ensures ReplaceAll(t, p) == Concat(Split(t, p))
    ensures Join(Split(t, p), p) == t
  {
    CountAndReplaceBySplit(Split(t, p), t, p);
  }

  /** Each counted occurrence takes exactly `|p|` characters out of the text. */
  lemma {:induction false} ReplaceAllLength(t: seq<char>, p: seq<char>)
    ensures |ReplaceAll(t, p)| + Count(t, p) * |p| == |t|
    decreases |t|
  {
    if |p| > 0 && |t| >= |p| {
      if t[..|p|] == p {
        ReplaceAllLength(t[|p|..], p);
        assert (1 + Count(t[|p|..], p)) * |p| == |p| + Count(t[|p|..], p) * |p|;
      } else {
        ReplaceAllLength(t[1..], p);
      }
    }
  }

  /** Case-sensitive removal only deletes characters of the original text. */
  lemma {:induction false} ReplaceAllSubseq(t: seq<char>, p: seq<char>)
    ensures IsSubseq(ReplaceAll(t, p), t)
    decreases |t|
  {
    if |p| == 0 || |t| < |p| {
      SubseqRefl(t);
    } else if t[..|p|] == p {
      ReplaceAllSubseq(t[|p|..], p);
      SubseqSplice(t, 0, |p|);
      assert t[..0] + t[|p|..] == t[|p|..];
      SubseqTrans(ReplaceAll(t[|p|..], p), t[|p|..], t);
    } else {
      ReplaceAllSubseq(t[1..], p);
      var r := [t[0]] + ReplaceAll(t[1..], p);
      assert r[0] == t[0] && r[1..] == ReplaceAll(t[1..], p);
    }
  }

  // ---------------------------------------------------------------------------
  // Case-insensitive mode
  // ---------------------------------------------------------------------------

  /** What the case-insensitive loop leaves: the spliced text and the number of splices. */
  datatype Removal = Removal(text: seq<char>, count: nat)

  /**
   The scan-and-splice loop of lines 72-82 as a recursive definition: find the
   first occurrence of the pattern in the text, both lower-cased, cut that
   span out of the original-case text, and start again from index 0.
   */
  function RemoveRestart(t: seq<char>, p: seq<char>): Removal
    requires |p| > 0
    decreases |t|
  {
    match FindFold(t, p, 0)
    case None => Removal(t, 0)
    case Some(i) =>
      var next := RemoveRestart(t[..i] + t[i + |p|..], p);
      Removal(next.text, next.count + 1)
  }

  /** The loop leaves no occurrence of the pattern in any casing. */
  lemma {:induction false} RemoveRestartFree(t: seq<char>, p: seq<char>)
    requires |p| > 0
    ensures FoldFree(RemoveRestart(t, p).text, p)
    decreases |t|
  {
    match FindFold(t, p, 0)
    case None =>
      RestartDone(t, p);
    case Some(i) =>
      RestartStep(t, p, i);
      RemoveRestartFree(t[..i] + t[i + |p|..], p);
  }

  /** The loop only deletes characters: the rest keeps its order and its case. */
  lemma {:induction false} RemoveRestartSubseq(t: seq<char>, p: seq<char>)
    requires |p| > 0
    ensures IsSubseq(RemoveRestart(t, p).text, t)
    decreases |t|
  {
    match FindFold(t, p, 0)
    case None =>
      RestartDone(t, p);
      SubseqRefl(t);
    case Some(i) =>
      RestartStep(t, p, i);
      var cut := t[..i] + t[i + |p|..];
      RemoveRestartSubseq(cut, p);
      SubseqSplice(t, i, |p|);
      SubseqTrans(RemoveRestart(cut, p).text, cut, t);
  }

  /** Every splice of the case-insensitive loop takes exactly `|p|` characters out. */
  lemma {:induction false} RemoveRestartLength(t: seq<char>, p: seq<char>)
    requires |p| > 0
    ensures |RemoveRestart(t, p).text| + RemoveRestart(t, p).count * |p| == |t|
    decreases |t|
  {
    match FindFold(t, p, 0)
    case None =>
      RestartDone(t, p);
    case Some(i) =>
      RestartStep(t, p, i);
      var cut := t[..i] + t[i + |p|..];
      RemoveRestartLength(cut, p);
      OneMore(|RemoveRestart(cut, p).text|, RemoveRestart(cut, p).count, |p|, |cut|);
  }

  lemma OneMore(len: nat, n: nat, k: nat, total: nat)
    requires len + n * k == total
    ensures len + (n + 1) * k == total + k
  {
  }

  /**
   The loop itself, as written: `pos` stays 0, every iteration lower-cases
   the current text, searches it, and splices `len(pattern)` characters out.
   It terminates because every splice shortens the text by `|p| > 0`.
   */
  method RemoveCaseInsensitive(t: seq<char>, p: seq<char>) returns (text: seq<char>, count: nat)
    requires |p| > 0
    ensures Removal(text, count) == RemoveRestart(t, p)
    ensures Free(LowerStr(text), LowerStr(p))
    ensures |text| + count * |p| == |t|
    ensures IsSubseq(text, t)
  {
    var patternLower := LowerStr(p);
    text := t;
    count := 0;
    var pos := 0;
    while true
      invariant RemoveRestart(text, p).text == RemoveRestart(t, p).text
      invariant count + RemoveRestart(text, p).count == RemoveRestart(t, p).count
      decreases |text|
    {
      var index := SearchLowered(text, patternLower, pos, p);
      if index.None? {
        RestartDone(text, p);
        break;
      }
      RestartStep(text, p, index.value);
      text := text[..index.value] + text[index.value + |p|..];
      count := count + 1;
    }
    RemoveRestartLength(t, p);
    RemoveRestartSubseq(t, p);
    RemoveRestartFree(t, p);
    FoldFreeIsLowerFree(text, p);
  }

  /** Lines 77-78: `text.lower().find(patternLower, pos)`, which is the case-folded search. */
  method SearchLowered(text: seq<char>, patternLower: seq<char>, pos: nat, p: seq<char>) returns (index: Option<nat>)
    requires patternLower == LowerStr(p) && pos <= |text|
    ensures index == FindFold(text, p, pos)
  {
    var lowerText := LowerStr(text);
    index := FindFrom(lowerText, patternLower, pos);
    LowerFindIsFindFold(text, p, pos);
  }

  /** No occurrence left: the loop stops with nothing more removed. */
  lemma RestartDone(t: seq<char>, p: seq<char>)
    requires |p| > 0 && FindFold(t, p, 0).None?
    ensures RemoveRestart(t, p).text == t && RemoveRestart(t, p).count == 0
  {
  }

  /** One splice: cutting the first occurrence at `i` leaves one removal fewer to do. */
  lemma RestartStep(t: seq<char>, p: seq<char>, i: nat)
    requires |p| > 0 && FindFold(t, p, 0) == Some(i)
    ensures i + |p| <= |t|
    ensures RemoveRestart(t, p).text == RemoveRestart(t[..i] + t[i + |p|..], p).text
    ensures RemoveRestart(t, p).count == RemoveRestart(t[..i] + t[i + |p|..], p).count + 1
  {
  }

  /**
   After case-insensitive removal no occurrence is left in any casing, so a
   second run removes nothing.
   */
  lemma CaseInsensitiveIdempotent(t: seq<char>, p: seq<char>)
    requires |p| > 0
    ensures RemoveRestart(RemoveRestart(t, p).text, p) == Removal(RemoveRestart(t, p).text, 0)
  {
    RemoveRestartFree(t, p);
    NoFoldNoRemoval(RemoveRestart(t, p).text, p);
  }

  /** A text without an occurrence in any casing is left as it is. */
  lemma NoFoldNoRemoval(t: seq<char>, p: seq<char>)
    requires |p| > 0 && FoldFree(t, p)
    ensures RemoveRestart(t, p) == Removal(t, 0)
  {
    if FindFold(t, p, 0).Some? {
      assert false;
    }
  }

  /**
   `str.replace` is not idempotent: deleting one occurrence can join its
   neighbours into a new one, which a second run removes again.
   */
  lemma ReplaceAllNotIdempotent()
    ensures ReplaceAll("fofooo", "foo") == "foo"
    ensures Count("foo", "foo") == 1
  {
    ReplaceAllExample();
  }

  /**
   The two literal modes differ on the same lower-case input: the restarting
   loop removes the occurrence that a cut creates, `str.replace` does not.
   */
  lemma ModesDiverge()
    ensures Count("fofooo", "foo") == 1 && ReplaceAll("fofooo", "foo") == "foo"
    ensures RemoveRestart("fofooo", "foo") == Removal("", 2)
  {
    ReplaceAllExample();
    RestartExample("fofooo", "foo");
  }

  lemma RestartExample(t0: seq<char>, p: seq<char>)
    requires t0 == "fofooo" && p == "foo"
    ensures RemoveRestart(t0, p) == Removal("", 2)
  {
    assert !FoldAt(t0, p, 0) by { assert Lower(t0[2]) != Lower(p[2]); }
    assert !FoldAt(t0, p, 1) by { assert Lower(t0[1]) != Lower(p[0]); }
    assert FoldAt(t0, p, 2);
    FindFoldAt(t0, p, 2);
    assert t0[..2] + t0[5..] == p;
    RestartWhole(p);
  }

  /** The pattern itself is cut once, leaving nothing. */
  lemma RestartWhole(p: seq<char>)
    requires |p| > 0
    ensures RemoveRestart(p, p) == Removal([], 1)
  {
    assert FoldAt(p, p, 0);
    FindFoldAt(p, p, 0);
    assert p[..0] + p[|p|..] == [];
  }

  lemma ReplaceAllExample()
    ensures Count("fofooo", "foo") == 1 && ReplaceAll("fofooo", "foo") == "foo"
  {
    var p := "foo";
    assert "fofooo"[..3] != p && "fofooo"[1..] == "ofooo";
    assert "ofooo"[..3] != p && "ofooo"[1..] == "fooo";
    assert "fooo"[..3] == p && "fooo"[3..] == "o";
    assert ReplaceAll("o", p) == "o";
    assert ReplaceAll("fooo", p) == "o";
    assert ReplaceAll("ofooo", p) == "oo";
  }

  /** The case-insensitive example: only the matched spans go, the rest keeps its case. */
  lemma CaseInsensitiveExample()
    ensures RemoveRestart("FOO bar foo BAR", "foo") == Removal(" bar  BAR", 2)
  {
    var t0, p := "FOO bar foo BAR", "foo";
    assert FoldAt(t0, p, 0) by {
      assert Lower('F') == 'f' && Lower('O') == 'o';
    }
    FindFoldAt(t0, p, 0);
    assert t0[..0] + t0[3..] == " bar foo BAR";
    ExampleSecondCut(" bar foo BAR", p);
  }

  lemma ExampleSecondCut(t1: seq<char>, p: seq<char>)
    requires t1 == " bar foo BAR" && p == "foo"
    ensures RemoveRestart(t1, p) == Removal(" bar  BAR", 1)
  {
    ExampleSecondFind(t1, p);
    assert t1[..5] + t1[8..] == " bar  BAR";
    ExampleNothingLeft(" bar  BAR", p);
  }

  lemma ExampleSecondFind(t1: seq<char>, p: seq<char>)
    requires t1 == " bar foo BAR" && p == "foo"
    ensures FindFold(t1, p, 0) == Some(5)
  {
    forall j | 0 <= j < 5
      ensures !FoldAt(t1, p, j)
    {
      assert Lower(t1[j]) != Lower(p[0]);
    }
    assert FoldAt(t1, p, 5);
    FindFoldAt(t1, p, 5);
  }

  lemma ExampleNothingLeft(t2: seq<char>, p: seq<char>)
    requires t2 == " bar  BAR" && p == "foo"
    ensures RemoveRestart(t2, p) == Removal(t2, 0)
  {
    forall j | 0 <= j <= |t2|
      ensures !FoldAt(t2, p, j)
    {
      if j < |t2| {
        assert Lower(t2[j]) != Lower(p[0]);
      }
    }
    assert FindFold(t2, p, 0).None?;
  }

  /** `FindFold` reports the first occurrence, whatever way it was located. */
  lemma FindFoldAt(t: seq<char>, p: seq<char>, k: nat)
    requires FoldAt(t, p, k) && forall j :: 0 <= j < k ==> !FoldAt(t, p, j)
    ensures FindFold(t, p, 0) == Some(k)
  {
  }
}
