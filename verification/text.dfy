/**
 Character-level vocabulary: ASCII lower-casing, substring occurrence and
 search (Python's `str.find`), and the subsequence relation used to say that
 an operation only deletes characters.
 */
module Text {
  import opened Base

  /** Lower-cases an ASCII capital letter; every other character is kept. */
  function Lower(c: char): char
  {
    if 'A' <= c <= 'Z' then (c as int + 32) as char else c
  }

  /** `str.lower()` restricted to a one-to-one, length-preserving map. */
  function LowerStr(s: seq<char>): (r: seq<char>)
    ensures |r| == |s|
    ensures forall i :: 0 <= i < |s| ==> r[i] == Lower(s[i])
  {
    seq(|s|, i requires 0 <= i < |s| => Lower(s[i]))
  }

  /** `p` occurs in `s` starting at index `i`. */
  predicate OccursAt(s: seq<char>, p: seq<char>, i: int)
  {
    0 <= i && i + |p| <= |s| && s[i..i + |p|] == p
  }

  /** `p` occurs nowhere in `s`. */
  predicate Free(s: seq<char>, p: seq<char>)
  {
    forall j :: 0 <= j <= |s| ==> !OccursAt(s, p, j)
  }

  /** `s.find(p, from)`: the first occurrence at or after `from`, `None` for -1. */
  function FindFrom(s: seq<char>, p: seq<char>, from: nat): (r: Option<nat>)
    requires from <= |s|
    ensures r.Some? ==> from <= r.value && OccursAt(s, p, r.value)
    ensures r.Some? ==> forall j :: from <= j < r.value ==> !OccursAt(s, p, j)
    ensures r.None? ==> forall j :: from <= j ==> !OccursAt(s, p, j)
    decreases |s| - from
  {
    if from + |p| > |s| then None
    else if s[from..from + |p|] == p then Some(from)
    else FindFrom(s, p, from + 1)
  }

  /** `s.find(p)`. */
  function Find(s: seq<char>, p: seq<char>): (r: Option<nat>)
    ensures r.None? <==> Free(s, p)
    ensures r.Some? ==> OccursAt(s, p, r.value) && forall j :: j < r.value ==> !OccursAt(s, p, j)
  {
    FindFrom(s, p, 0)
  }

  /**
   `p` occurs in `t` at index `i` when both are lower-cased, compared
   character by character on the original texts.
   */
  predicate FoldAt(t: seq<char>, p: seq<char>, i: int)
  {
    0 <= i && i + |p| <= |t| && forall k :: 0 <= k < |p| ==> Lower(t[i + k]) == Lower(p[k])
  }

  /** `p` occurs nowhere in `t`, in any ASCII casing. */
  predicate FoldFree(t: seq<char>, p: seq<char>)
  {
    forall j :: 0 <= j <= |t| ==> !FoldAt(t, p, j)
  }

  /** The first case-folded occurrence at or after `from`. */
  function FindFold(t: seq<char>, p: seq<char>, from: nat): (r: Option<nat>)
    requires from <= |t|
    ensures r.Some? ==> from <= r.value && FoldAt(t, p, r.value)
    ensures r.Some? ==> forall j :: from <= j < r.value ==> !FoldAt(t, p, j)
    ensures r.None? ==> forall j :: from <= j <= |t| ==> !FoldAt(t, p, j)
    decreases |t| - from
  {
    if from + |p| > |t| then None
    else if FoldAt(t, p, from) then Some(from)
    else FindFold(t, p, from + 1)
  }

  /** An occurrence in the lower-cased copies is a case-folded occurrence in the originals. */
  lemma OccursLowerIffFold(t: seq<char>, p: seq<char>, j: int)
    ensures OccursAt(LowerStr(t), LowerStr(p), j) <==> FoldAt(t, p, j)
  {
    var lt, lp := LowerStr(t), LowerStr(p);
    if 0 <= j && j + |p| <= |t| {
      if FoldAt(t, p, j) {
        assert lt[j..j + |p|] == lp by {
          forall k | 0 <= k < |p|
            ensures lt[j..j + |p|][k] == lp[k]
          {
            assert lt[j..j + |p|][k] == lt[j + k];
          }
        }
      }
      if OccursAt(lt, lp, j) {
        forall k | 0 <= k < |p|
          ensures Lower(t[j + k]) == Lower(p[k])
        {
          assert lt[j..j + |p|][k] == lt[j + k];
        }
      }
    }
  }

  /**
   `t.lower().find(p.lower(), from)` is the case-folded search on the
   original texts.
   */
  lemma {:induction false} LowerFindIsFindFold(t: seq<char>, p: seq<char>, from: nat)
    requires from <= |t|
    ensures FindFrom(LowerStr(t), LowerStr(p), from) == FindFold(t, p, from)
    decreases |t| - from
  {
    OccursLowerIffFold(t, p, from);
    if from + |p| <= |t| && !FoldAt(t, p, from) {
      LowerFindIsFindFold(t, p, from + 1);
    }
  }

  /** No case-folded occurrence is no occurrence in the lower-cased copies. */
  lemma FoldFreeIsLowerFree(t: seq<char>, p: seq<char>)
    ensures FoldFree(t, p) <==> Free(LowerStr(t), LowerStr(p))
  {
    forall j | 0 <= j <= |t|
      ensures OccursAt(LowerStr(t), LowerStr(p), j) <==> FoldAt(t, p, j)
    {
      OccursLowerIffFold(t, p, j);
    }
  }

  /** `a` is obtained from `b` by deleting zero or more elements. */
  predicate IsSubseq<T(==)>(a: seq<T>, b: seq<T>)
    decreases |b|
  {
    |a| == 0 || (|b| > 0 && ((a[0] == b[0] && IsSubseq(a[1..], b[1..])) || IsSubseq(a, b[1..])))
  }

  lemma {:induction false} SubseqRefl<T>(a: seq<T>)
    ensures IsSubseq(a, a)
    decreases |a|
  {
    if |a| > 0 {
      SubseqRefl(a[1..]);
    }
  }

  /** Deleting the middle part of `x + y + z` leaves a subsequence. */
  lemma {:induction false} SubseqDropMiddle<T>(x: seq<T>, y: seq<T>, z: seq<T>)
    ensures IsSubseq(x + z, x + y + z)
    decreases |x|, |y|
  {
    if |x| > 0 {
      SubseqDropMiddle(x[1..], y, z);
      assert (x + z)[1..] == x[1..] + z;
      assert (x + y + z)[1..] == x[1..] + y + z;
    } else if |y| > 0 {
      SubseqDropMiddle(x, y[1..], z);
      assert (x + y + z)[1..] == x + y[1..] + z;
    } else {
      assert x + y + z == x + z;
      SubseqRefl(x + z);
    }
  }

  /** Cutting `k` elements out at index `i` leaves a subsequence. */
  lemma SubseqSplice<T>(s: seq<T>, i: nat, k: nat)
    requires i + k <= |s|
    ensures IsSubseq(s[..i] + s[i + k..], s)
  {
    assert s == s[..i] + s[i..i + k] + s[i + k..];
    SubseqDropMiddle(s[..i], s[i..i + k], s[i + k..]);
  }

  lemma {:induction false} SubseqTrans<T>(a: seq<T>, b: seq<T>, c: seq<T>)
    requires IsSubseq(a, b) && IsSubseq(b, c)
    ensures IsSubseq(a, c)
    decreases |c|
  {
    if |a| > 0 {
      if b[0] == c[0] && IsSubseq(b[1..], c[1..]) {
        if a[0] == b[0] && IsSubseq(a[1..], b[1..]) {
          SubseqTrans(a[1..], b[1..], c[1..]);
        } else {
          SubseqTrans(a, b[1..], c[1..]);
        }
      } else {
        SubseqTrans(a, b, c[1..]);
      }
    }
  }
}
