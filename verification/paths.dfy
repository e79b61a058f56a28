/**
 The part of pathlib the naming logic relies on: a path is a parent part
 (kept opaque) and a final component `name`; `suffix` is the name from its
 last dot, unless that dot opens or ends the name, and `stem` is the rest.
 */
module Paths {
  import opened Base

  /** A final path component; pathlib never yields an empty `name` for a file. */
  type FileName = s: seq<char> | |s| > 0 witness "x"

  datatype Path = Path(parent: seq<char>, name: FileName)

  /** `s.rfind(c)`. */
  function LastIndexOf(s: seq<char>, c: char): (r: Option<nat>)
    ensures r.Some? ==> r.value < |s| && s[r.value] == c && forall j :: r.value < j < |s| ==> s[j] != c
    ensures r.None? ==> forall j :: 0 <= j < |s| ==> s[j] != c
  {
    if |s| == 0 then None
    else if s[|s| - 1] == c then Some(|s| - 1)
    else LastIndexOf(s[..|s| - 1], c)
  }

  /** Where `suffix` starts: the last dot, when it is neither the first nor the last character. */
  function SuffixStart(name: seq<char>): Option<nat>
  {
    match LastIndexOf(name, '.')
    case Some(i) => if 0 < i < |name| - 1 then Some(i) else None
    case None => None
  }

  /** `PurePath.suffix`. */
  function Suffix(name: seq<char>): seq<char>
  {
    match SuffixStart(name)
    case Some(i) => name[i..]
    case None => []
  }

  /** `PurePath.stem`. */
  function Stem(name: seq<char>): seq<char>
  {
    match SuffixStart(name)
    case Some(i) => name[..i]
    case None => name
  }

  /**
   The two halves of a name: they put back together to the name, a
   non-empty name has a non-empty stem, and a suffix is empty or a dot
   followed by at least one character and no further dot.
   */
  lemma StemSuffix(name: seq<char>)
    ensures Stem(name) + Suffix(name) == name
    ensures |name| > 0 ==> |Stem(name)| > 0
    ensures Suffix(name) == [] || (|Suffix(name)| >= 2 && Suffix(name)[0] == '.')
    ensures forall j :: 0 < j < |Suffix(name)| ==> Suffix(name)[j] != '.'
  {
  }

  /** `path.with_name(name)`: same parent, new final component. */
  function WithName(p: Path, name: FileName): Path
  {
    Path(p.parent, name)
  }

  /** `path.with_suffix(s)` for a valid suffix: the stem followed by `s`. */
  function WithSuffix(p: Path, s: seq<char>): Path
    requires |s| > 0 && s[0] == '.' && s != "."
  {
    Path(p.parent, Stem(p.name) + s)
  }

  /** Line 169: `input_path.with_suffix('.epub.bak')`. */
  function BackupPath(input: Path): Path
  {
    WithSuffix(input, ".epub.bak")
  }

  /** Lines 175-177: the name derived when no output path was given. */
  function CleanedPath(input: Path): Path
  {
    WithName(input, Stem(input.name) + "_cleaned" + Suffix(input.name))
  }

  /**
   The backup sits next to the input and replaces its suffix by
   `.epub.bak`; for a `.epub` file that is the input name with `.bak` added.
   */
  lemma BackupName(input: Path)
    ensures BackupPath(input).parent == input.parent
    ensures BackupPath(input).name == Stem(input.name) + ".epub.bak"
    ensures Suffix(input.name) == ".epub" ==> BackupPath(input).name == input.name + ".bak"
  {
    StemSuffix(input.name);
  }

  /**
   The derived output sits next to the input and is named stem, `_cleaned`,
   suffix: `book.epub` gives `book_cleaned.epub`.
   */
  lemma CleanedName(input: Path)
    ensures CleanedPath(input).parent == input.parent
    ensures CleanedPath(input).name == Stem(input.name) + "_cleaned" + Suffix(input.name)
    ensures input.name == "book.epub" ==> CleanedPath(input).name == "book_cleaned.epub"
  {
    if input.name == "book.epub" {
      var s := "book.epub";
      assert s[4] == '.';
      assert forall j :: 0 <= j < |s| && j != 4 ==> s[j] != '.';
      assert LastIndexOf(s, '.') == Some(4);
    }
  }

  /** The input, its backup and its derived output are three different files. */
  lemma ArtifactNamesDistinct(input: Path)
    ensures BackupPath(input) != input
    ensures CleanedPath(input) != input
    ensures BackupPath(input) != CleanedPath(input)
  {
    var stem, suffix := Stem(input.name), Suffix(input.name);
    StemSuffix(input.name);
    var b, c := BackupPath(input).name, CleanedPath(input).name;
    assert |c| == |input.name| + 8;
    assert b[|stem|] == '.' && c[|stem|] == '_';
    if |b| == |input.name| {
      // the suffix would have to be `.epub.bak`, which holds a second dot
      assert |suffix| == 9;
      assert input.name[|stem| + 5] == suffix[5] != '.';
      assert b[|stem| + 5] == '.';
    }
  }
}
