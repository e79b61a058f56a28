/**
 The node loop of `remove_text_from_html` (lines 49-51 and 89-92). The HTML
 parser and serialiser are outside the model: a parsed document is the
 sequence of its nodes in document order, where a text node is a string
 `find_all(string=True)` yields and everything else is opaque markup.
 */
module Markup {
  import opened Base
  import opened Matcher

  datatype Node = TextNode(text: seq<char>) | Element(source: seq<char>)

  type Document = seq<Node>

  /** One node after the pattern loop, with its count and whether `replace_with` ran. */
  datatype NodeRewrite = NodeRewrite(node: Node, changes: nat, replaced: bool)

  /** The rewritten document, its summed count, and which nodes were replaced. */
  datatype Rewritten = Rewritten(doc: Document, changes: nat, replaced: seq<bool>)

  /** Lines 50-90 for one node: a text node is replaced only when its text changed. */
  function RewriteNode(node: Node, patterns: seq<seq<char>>, opts: Options, engine: RegexEngine)
    : Result<NodeRewrite, PatternError>
    requires Terminates(patterns, opts)
  {
    match node
    case Element(_) => Ok(NodeRewrite(node, 0, false))
    case TextNode(t) =>
      match ApplyPatterns(t, patterns, opts, engine)
      case Failure(e) => Failure(e)
      case Ok(s) =>
        if s.text != t then Ok(NodeRewrite(TextNode(s.text), s.changes, true))
        else Ok(NodeRewrite(node, s.changes, false))
  }

  /**
   The whole document: every node is visited in order, the first pattern
   error aborts, and the counts of the nodes are added up.
   */
  function Rewrite(doc: Document, patterns: seq<seq<char>>, opts: Options, engine: RegexEngine)
    : Result<Rewritten, PatternError>
    requires Terminates(patterns, opts)
    decreases |doc|
  {
    if |doc| == 0 then Ok(Rewritten([], 0, []))
    else
      match RewriteNode(doc[0], patterns, opts, engine)
      case Failure(e) => Failure(e)
      case Ok(n) =>
        match Rewrite(doc[1..], patterns, opts, engine)
        case Failure(e) => Failure(e)
        case Ok(rest) => Ok(Rewritten([n.node] + rest.doc, n.changes + rest.changes, [n.replaced] + rest.replaced))
  }

  /**
   Every node is visited: the document fails exactly when some node fails,
   and otherwise node `i` of the result is node `i` rewritten.
   */
  lemma {:induction false} RewriteShape(doc: Document, patterns: seq<seq<char>>, opts: Options, engine: RegexEngine)
    requires Terminates(patterns, opts)
    ensures Rewrite(doc, patterns, opts, engine).Ok?
        <==> forall i :: 0 <= i < |doc| ==> RewriteNode(doc[i], patterns, opts, engine).Ok?
    ensures Rewrite(doc, patterns, opts, engine).Ok? ==>
              && |Rewrite(doc, patterns, opts, engine).value.doc| == |doc|
              && |Rewrite(doc, patterns, opts, engine).value.replaced| == |doc|
    ensures Rewrite(doc, patterns, opts, engine).Ok? ==> forall i :: 0 <= i < |doc| ==>
              && Rewrite(doc, patterns, opts, engine).value.doc[i] == RewriteNode(doc[i], patterns, opts, engine).value.node
              && Rewrite(doc, patterns, opts, engine).value.replaced[i] == RewriteNode(doc[i], patterns, opts, engine).value.replaced
    decreases |doc|
  {
    if |doc| > 0 {
      RewriteShape(doc[1..], patterns, opts, engine);
      assert forall i :: 1 <= i < |doc| ==> doc[i] == doc[1..][i - 1];
      if RewriteNode(doc[0], patterns, opts, engine).Ok? && Rewrite(doc[1..], patterns, opts, engine).Failure? {
        var k :| 0 <= k < |doc[1..]| && RewriteNode(doc[1..][k], patterns, opts, engine).Failure?;
        assert RewriteNode(doc[k + 1], patterns, opts, engine).Failure?;
      }
    }
  }

  /**
   Per-node effect: element nodes are never touched, a text node becomes the
   result of the pattern loop on its text, and it counts as replaced exactly
   when that text differs from the original.
   */
  lemma RewriteNodeEffect(doc: Document, i: nat, patterns: seq<seq<char>>, opts: Options, engine: RegexEngine)
    requires Terminates(patterns, opts)
    requires i < |doc| && Rewrite(doc, patterns, opts, engine).Ok?
    ensures i < |Rewrite(doc, patterns, opts, engine).value.doc| && i < |Rewrite(doc, patterns, opts, engine).value.replaced|
    ensures doc[i].Element? ==> Rewrite(doc, patterns, opts, engine).value.doc[i] == doc[i]
    ensures doc[i].Element? ==> !Rewrite(doc, patterns, opts, engine).value.replaced[i]
    ensures doc[i].TextNode? ==> ApplyPatterns(doc[i].text, patterns, opts, engine).Ok?
    ensures doc[i].TextNode? ==>
              Rewrite(doc, patterns, opts, engine).value.doc[i]
              == TextNode(ApplyPatterns(doc[i].text, patterns, opts, engine).value.text)
    ensures doc[i].TextNode? ==>
              (Rewrite(doc, patterns, opts, engine).value.replaced[i]
               <==> ApplyPatterns(doc[i].text, patterns, opts, engine).value.text != doc[i].text)
  {
    RewriteShape(doc, patterns, opts, engine);
    assert RewriteNode(doc[i], patterns, opts, engine).Ok?;
  }

  /** One unfolding of `Rewrite`, field by field. */
  lemma RewriteCons(doc: Document, patterns: seq<seq<char>>, opts: Options, engine: RegexEngine)
    requires Terminates(patterns, opts)
    requires |doc| > 0
    requires RewriteNode(doc[0], patterns, opts, engine).Ok? && Rewrite(doc[1..], patterns, opts, engine).Ok?
    ensures Rewrite(doc, patterns, opts, engine).Ok?
    ensures Rewrite(doc, patterns, opts, engine).value.doc
         == [RewriteNode(doc[0], patterns, opts, engine).value.node] + Rewrite(doc[1..], patterns, opts, engine).value.doc
    ensures Rewrite(doc, patterns, opts, engine).value.changes
         == RewriteNode(doc[0], patterns, opts, engine).value.changes + Rewrite(doc[1..], patterns, opts, engine).value.changes
    ensures Rewrite(doc, patterns, opts, engine).value.replaced
         == [RewriteNode(doc[0], patterns, opts, engine).value.replaced] + Rewrite(doc[1..], patterns, opts, engine).value.replaced
  {
  }

  /**
   Aggregation: the nodes are rewritten independently, so rewriting two
   halves and putting them together is rewriting the whole, and the counts add.
   */
  lemma {:induction false} RewriteAppend(d1: Document, d2: Document, patterns: seq<seq<char>>, opts: Options, engine: RegexEngine)
    requires Terminates(patterns, opts)
    requires Rewrite(d1, patterns, opts, engine).Ok? && Rewrite(d2, patterns, opts, engine).Ok?
    ensures Rewrite(d1 + d2, patterns, opts, engine).Ok?
    ensures Rewrite(d1 + d2, patterns, opts, engine).value.doc
         == Rewrite(d1, patterns, opts, engine).value.doc + Rewrite(d2, patterns, opts, engine).value.doc
    ensures Rewrite(d1 + d2, patterns, opts, engine).value.changes
         == Rewrite(d1, patterns, opts, engine).value.changes + Rewrite(d2, patterns, opts, engine).value.changes
    ensures Rewrite(d1 + d2, patterns, opts, engine).value.replaced
         == Rewrite(d1, patterns, opts, engine).value.replaced + Rewrite(d2, patterns, opts, engine).value.replaced
    decreases |d1|
  {
    if |d1| == 0 {
      assert d1 + d2 == d2;
    } else {
      var d := d1 + d2;
      assert d[0] == d1[0];
      assert d[1..] == d1[1..] + d2;
      assert RewriteNode(d1[0], patterns, opts, engine).Ok?;
      RewriteAppend(d1[1..], d2, patterns, opts, engine);
      RewriteCons(d, patterns, opts, engine);
      RewriteCons(d1, patterns, opts, engine);
      ConsAssoc(RewriteNode(d1[0], patterns, opts, engine).value.node,
                Rewrite(d1[1..], patterns, opts, engine).value.doc, Rewrite(d2, patterns, opts, engine).value.doc);
      ConsAssoc(RewriteNode(d1[0], patterns, opts, engine).value.replaced,
                Rewrite(d1[1..], patterns, opts, engine).value.replaced, Rewrite(d2, patterns, opts, engine).value.replaced);
    }
  }

  lemma ConsAssoc<T>(x: T, a: seq<T>, b: seq<T>)
    ensures [x] + (a + b) == ([x] + a) + b
  {
  }

  /** A one-node document counts exactly what the pattern loop counts on that node. */
  lemma RewriteSingle(node: Node, patterns: seq<seq<char>>, opts: Options, engine: RegexEngine)
    requires Terminates(patterns, opts)
    ensures Rewrite([node], patterns, opts, engine).Ok? <==> RewriteNode(node, patterns, opts, engine).Ok?
    ensures Rewrite([node], patterns, opts, engine).Ok? ==>
              Rewrite([node], patterns, opts, engine).value.changes
              == (if node.TextNode? then ApplyPatterns(node.text, patterns, opts, engine).value.changes else 0)
  {
    assert [node][0] == node && [node][1..] == [];
  }

  /**
   A document without text nodes is returned unchanged with no count, even
   with patterns that would not compile: the pattern loop never runs.
   */
  lemma {:induction false} NoTextNoChange(doc: Document, patterns: seq<seq<char>>, opts: Options, engine: RegexEngine)
    requires Terminates(patterns, opts)
    requires forall i :: 0 <= i < |doc| ==> doc[i].Element?
    ensures Rewrite(doc, patterns, opts, engine).Ok?
    ensures Rewrite(doc, patterns, opts, engine).value.doc == doc
    ensures Rewrite(doc, patterns, opts, engine).value.changes == 0
    ensures forall i :: 0 <= i < |Rewrite(doc, patterns, opts, engine).value.replaced| ==>
              !Rewrite(doc, patterns, opts, engine).value.replaced[i]
    decreases |doc|
  {
    if |doc| > 0 {
      NoTextNoChange(doc[1..], patterns, opts, engine);
      RewriteCons(doc, patterns, opts, engine);
      assert [doc[0]] + doc[1..] == doc;
    }
  }

  /**
   With literal, non-empty patterns the document count is zero exactly when
   no node changed.
   */
  lemma {:induction false} LiteralCountZeroIffUnchanged(doc: Document, patterns: seq<seq<char>>, opts: Options, engine: RegexEngine)
    requires IsLiteral(opts)
    requires forall k :: 0 <= k < |patterns| ==> |patterns[k]| > 0
    ensures Rewrite(doc, patterns, opts, engine).Ok?
    ensures Rewrite(doc, patterns, opts, engine).value.changes == 0 <==> Rewrite(doc, patterns, opts, engine).value.doc == doc
    decreases |doc|
  {
    if |doc| > 0 {
      LiteralCountZeroIffUnchanged(doc[1..], patterns, opts, engine);
      if doc[0].TextNode? {
        LiteralOnlyDeletes(doc[0].text, patterns, opts, engine);
      }
      var n := RewriteNode(doc[0], patterns, opts, engine).value;
      var rest := Rewrite(doc[1..], patterns, opts, engine).value;
      assert doc == [doc[0]] + doc[1..];
      assert n.changes == 0 <==> n.node == doc[0];
      if [n.node] + rest.doc == doc {
        assert n.node == doc[0] && rest.doc == doc[1..];
      }
    }
  }
}
