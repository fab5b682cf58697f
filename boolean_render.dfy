/** `process_tree`: the recursive walk that turns a parse tree back into
    text, and what it gives for the trees the parser builds. */
module BooleanRender {
  import opened Wrappers
  import opened Text
  import opened BooleanTree
  import opened BooleanParser
  import opened BooleanParserProperties
  import opened BooleanParserRules

  /** The opening delimiter of a node, if any. */
  function Opening(n: Node): string
  {
    if n.delimiter.Some? then [n.delimiter.value] else ""
  }

  /** The payload, kept only when it is a string that is not blank. */
  function Payload(n: Node): string
  {
    if n.data.Some? && HasNonSpace(n.data.value) then n.data.value else ""
  }

  /** The closing text `delimiters[node.delimiter]`. */
  function Closing(n: Node, delims: map<char, string>): string
    requires n.delimiter.Some? ==> n.delimiter.value in delims
  {
    if n.delimiter.Some? then delims[n.delimiter.value] else ""
  }

  /** `f" {node.conjunction.name} "`, or nothing for `MISSING`. */
  function Operator(c: Conjunction): string
  {
    if c == Missing then "" else " " + Name(c) + " "
  }

  function Rank(nodes: seq<Node>, node: Option<nat>): nat
  {
    if node.Some? && node.value < |nodes| then |nodes| - node.value else 0
  }

  /** `process_tree(node, delimiters)`: `None` where the lookup of a
      closing delimiter raises `KeyError`. */
  function ProcessTree(nodes: seq<Node>, node: Option<nat>, delims: map<char, string>): Option<string>
    requires WellFormed(nodes) && InArena(nodes, node)
    decreases Rank(nodes, node)
  {
    if node.None? then Some("")
    else
      var n := nodes[node.value];
      var child := ProcessTree(nodes, n.child, delims);
      if child.None? || (n.delimiter.Some? && n.delimiter.value !in delims) then None
      else
        var next := ProcessTree(nodes, n.next, delims);
        if next.None? then None
        else Some(Opening(n) + Payload(n) + child.value + Closing(n, delims) + Operator(n.conjunction) + next.value)
  }

  /** The rendering of a parsed tree, from its root. */
  function Render(t: Tree, delims: map<char, string>): Option<string>
    requires TreeValid(t)
  {
    ProcessTree(t.nodes, Some(t.root), delims)
  }

  /** The nodes `process_tree` visits from `node`: it, and everything
      below its child and after it. */
  function Reach(nodes: seq<Node>, node: Option<nat>): (r: set<nat>)
    requires WellFormed(nodes) && InArena(nodes, node)
    ensures forall j :: j in r ==> j < |nodes|
    decreases Rank(nodes, node)
  {
    if node.None? then {}
    else
      var n := nodes[node.value];
      {node.value} + Reach(nodes, n.child) + Reach(nodes, n.next)
  }

  /** Every delimiter of the nodes in `r` is a key of the table. */
  predicate KnownDelimiters(nodes: seq<Node>, r: set<nat>, delims: map<char, string>)
  {
    forall j :: j in r && j < |nodes| && nodes[j].delimiter.Some? ==> nodes[j].delimiter.value in delims
  }

  /** The walk raises `KeyError` exactly when it visits a node whose
      delimiter is not a key of the table (line 260). */
  lemma {:induction false} RenderDefinedIff(nodes: seq<Node>, node: Option<nat>, delims: map<char, string>)
    requires WellFormed(nodes) && InArena(nodes, node)
    ensures ProcessTree(nodes, node, delims).Some? <==> KnownDelimiters(nodes, Reach(nodes, node), delims)
    decreases Rank(nodes, node)
  {
    if node.Some? {
      var n := nodes[node.value];
      RenderDefinedIff(nodes, n.child, delims);
      RenderDefinedIff(nodes, n.next, delims);
    }
  }

  /** Every tree the parser returns renders with the same table: the walk
      never meets a delimiter the table does not know. */
  lemma ParsedTreesRender(expr: string, cfg: Config)
    ensures ParseSpec(expr, cfg).Ok? ==>
      var t := ParseSpec(expr, cfg).value; TreeValid(t) && Render(t, cfg.delimiters).Some?
  {
    ParseFromSound(expr, cfg, 0, Start);
    ParseResult(expr, cfg);
    if ParseSpec(expr, cfg).Ok? {
      var t := ParseSpec(expr, cfg).value;
      assert KnownDelimiters(t.nodes, Reach(t.nodes, Some(t.root)), cfg.delimiters) by {
        if t != BlankTree {
          assert forall k :: 0 <= k < |t.nodes| ==> NodeFits(cfg, t.nodes[k]);
        }
      }
      RenderDefinedIff(t.nodes, Some(t.root), cfg.delimiters);
    }
  }

  lemma Count6(a: string, b: string, c: string, d: string, e: string, f: string, ch: char)
    ensures Count(a + b + c + d + e + f, ch)
      == Count(a, ch) + Count(b, ch) + Count(c, ch) + Count(d, ch) + Count(e, ch) + Count(f, ch)
  {
    CountAppend(a, b, ch);
    CountAppend(a + b, c, ch);
    CountAppend(a + b + c, d, ch);
    CountAppend(a + b + c + d, e, ch);
    CountAppend(a + b + c + d + e, f, ch);
  }

  /** A node without brackets of its own: its delimiter is one of the
      default table's, and its payload holds no parenthesis or quote. */
  predicate Plain(n: Node)
  {
    && (n.delimiter.Some? ==> n.delimiter.value in DefaultDelimiters)
    && (n.data.Some? ==> '(' !in n.data.value && ')' !in n.data.value && '"' !in n.data.value)
  }

  /** The text a node contributes itself, apart from what is rendered below
      and after it, under the default table. */
  lemma NodeTextBalanced(n: Node)
    requires Plain(n)
    ensures Count(Opening(n), '(') == Count(Closing(n, DefaultDelimiters), ')')
    ensures Count(Opening(n), ')') == 0 && Count(Closing(n, DefaultDelimiters), '(') == 0
    ensures Count(Opening(n), '"') == Count(Closing(n, DefaultDelimiters), '"')
    ensures Count(Payload(n), '(') == 0 && Count(Payload(n), ')') == 0 && Count(Payload(n), '"') == 0
    ensures Count(Operator(n.conjunction), '(') == 0 && Count(Operator(n.conjunction), ')') == 0
    ensures Count(Operator(n.conjunction), '"') == 0
  {
    var p := Payload(n);
    CountAbsent(p, '(');
    CountAbsent(p, ')');
    CountAbsent(p, '"');
    var o := Operator(n.conjunction);
    CountAbsent(o, '(');
    CountAbsent(o, ')');
    CountAbsent(o, '"');
    if n.delimiter.Some? {
      assert n.delimiter.value == '(' || n.delimiter.value == '"';
    }
  }

  /** One level of the walk when nothing below or after the node raises. */
  lemma ProcessTreeNode(nodes: seq<Node>, k: nat, delims: map<char, string>)
    requires WellFormed(nodes) && k < |nodes|
    requires nodes[k].delimiter.Some? ==> nodes[k].delimiter.value in delims
    requires ProcessTree(nodes, nodes[k].child, delims).Some?
    requires ProcessTree(nodes, nodes[k].next, delims).Some?
    ensures ProcessTree(nodes, Some(k), delims) == Some(
      Opening(nodes[k]) + Payload(nodes[k]) + ProcessTree(nodes, nodes[k].child, delims).value
      + Closing(nodes[k], delims) + Operator(nodes[k].conjunction) + ProcessTree(nodes, nodes[k].next, delims).value)
  {
  }

  lemma FitsPlain(n: Node)
    requires NodeFits(Default, n)
    ensures Plain(n)
  {
    if n.data.Some? {
      var d := n.data.value;
      forall c | c in d ensures c != '(' && c != ')' && c != '"' {
        var j :| 0 <= j < |d| && d[j] == c;
        assert IsTextChar(d[j]);
      }
    }
  }

  /** The counts of one level of the walk add up. */
  lemma LevelBalanced(n: Node, child: string, next: string)
    requires Plain(n)
    requires Count(child, '(') == Count(child, ')') && Count(child, '"') % 2 == 0
    requires Count(next, '(') == Count(next, ')') && Count(next, '"') % 2 == 0
    ensures var r := Opening(n) + Payload(n) + child + Closing(n, DefaultDelimiters) + Operator(n.conjunction) + next;
      Count(r, '(') == Count(r, ')') && Count(r, '"') % 2 == 0
  {
    NodeTextBalanced(n);
    var a, b, d, e := Opening(n), Payload(n), Closing(n, DefaultDelimiters), Operator(n.conjunction);
    Count6(a, b, child, d, e, next, '(');
    Count6(a, b, child, d, e, next, ')');
    Count6(a, b, child, d, e, next, '"');
  }

  /** Under the default table a tree of plain nodes renders with as many
      `)` as `(` and an even number of `"`. */
  lemma {:induction false} RenderBalanced(nodes: seq<Node>, node: Option<nat>)
    requires WellFormed(nodes) && InArena(nodes, node)
    requires forall k :: 0 <= k < |nodes| ==> Plain(nodes[k])
    ensures var r := ProcessTree(nodes, node, DefaultDelimiters);
      && r.Some?
      && Count(r.value, '(') == Count(r.value, ')')
      && Count(r.value, '"') % 2 == 0
    decreases Rank(nodes, node)
  {
    if node.Some? {
      var k := node.value;
      RenderBalanced(nodes, nodes[k].child);
      RenderBalanced(nodes, nodes[k].next);
      ProcessTreeNode(nodes, k, DefaultDelimiters);
      LevelBalanced(nodes[k], ProcessTree(nodes, nodes[k].child, DefaultDelimiters).value,
                    ProcessTree(nodes, nodes[k].next, DefaultDelimiters).value);
    }
  }

  /** The text of every expression parsed with the default table has
      balanced parentheses and paired quotes, whether or not the input
      closed them. */
  lemma ParsedRenderBalanced(expr: string)
    ensures ParseSpec(expr, Default).Ok? ==>
      var t := ParseSpec(expr, Default).value;
      && TreeValid(t)
      && var r := Render(t, DefaultDelimiters);
         r.Some? && Count(r.value, '(') == Count(r.value, ')') && Count(r.value, '"') % 2 == 0
  {
    ParseFromSound(expr, Default, 0, Start);
    ParseResult(expr, Default);
    if ParseSpec(expr, Default).Ok? {
      var t := ParseSpec(expr, Default).value;
      forall k | 0 <= k < |t.nodes| ensures Plain(t.nodes[k]) {
        if t != BlankTree {
          FitsPlain(t.nodes[k]);
        }
      }
      RenderBalanced(t.nodes, Some(t.root));
    }
  }

  /** Lines 240-241: `process_tree(None)` is empty, and the tree of blank
      input renders as nothing since its payload is blank. */
  lemma ExampleBlankRendersEmpty(delims: map<char, string>)
    ensures ProcessTree([], None, delims) == Some("")
    ensures Render(BlankTree, delims) == Some("")
  {
    assert !HasNonSpace("");
    ProcessTreeNode(BlankTree.nodes, 0, delims);
    assert "" + "" + "" + "" + "" + "" == "";
  }

  /** `a & b` renders as `ab AND `: the child comes before the operator. */
  lemma ExampleAndRenders()
    ensures TreeValid(AndTree) && Render(AndTree, DefaultDelimiters) == Some("ab AND ")
  {
    var t := AndTree.nodes;
    assert HasNonSpace("a") by { assert !IsSpace("a"[0]); }
    assert HasNonSpace("b") by { assert !IsSpace("b"[0]); }
    ProcessTreeNode(t, 1, DefaultDelimiters);
    assert "" + "b" + "" + "" + "" + "" == "b";
    ProcessTreeNode(t, 0, DefaultDelimiters);
    assert Operator(And) == " AND ";
    assert "" + "a" + "b" + "" + " AND " + "" == "ab AND ";
  }

  /** `"a"` renders as `"a"""`: each quote opened a node, and each node's
      quote is closed when it is rendered. */
  lemma ExampleQuoteRenders()
    ensures TreeValid(QuotedTree) && Render(QuotedTree, DefaultDelimiters) == Some("\"a\"\"\"")
  {
    var t := QuotedTree.nodes;
    assert HasNonSpace("a") by { assert !IsSpace("a"[0]); }
    ProcessTreeNode(t, 2, DefaultDelimiters);
    assert "\"" + "" + "" + "\"" + "" + "" == "\"\"";
    ProcessTreeNode(t, 1, DefaultDelimiters);
    assert "" + "a" + "\"\"" + "" + "" + "" == "a\"\"";
    ProcessTreeNode(t, 0, DefaultDelimiters);
    assert "\"" + "" + "a\"\"" + "\"" + "" + "" == "\"a\"\"\"";
  }

  /** `ab AND `, the rendering of the tree of `a & b`: the word `AND` is
      not the default AND token `&` but text, and it nests under `ab`. */
  lemma ExampleSpacedOperatorIsText()
    ensures ParseSpec("ab AND ", Default) == Ok(SpacedTree)
  {
    SpacedFirst();
    SpacedLast();
  }

  const SpacedTree: Tree := Tree([
    Node(Some("ab"), None, Some(1), None, None, Missing),
    Node(Some("AND"), None, None, None, Some(0), Missing)], 0)

  const SpacedA: Scan := Scan([Fresh(Some("ab"), None)], Some(0), Some(0), [])

  lemma SpacedFirst()
    ensures ScanValid(SpacedA)
    ensures ParseSpec("ab AND ", Default) == ParseFrom("ab AND ", Default, 3, SpacedA)
  {
    var e := "ab AND ";
    assert TextRun(e, 0) == 2 by {
      assert TextRun(e, 2) == 0;
      assert TextRun(e, 1) == 1;
    }
    assert MatchOperator(e[0..], Default).None? by {
      assert e[0..][..1] == "a";
    }
    StepText(e, Default, 0, Start, 2);
    assert e[0..2] == "ab";
    assert AddText(Start, "ab") == SpacedA;
    ParseFromAdvance(e, Default, 0, Start, 2, SpacedA);
    StepSkips(e, Default, 2, SpacedA);
    ParseFromAdvance(e, Default, 2, SpacedA, 3, SpacedA);
  }

  lemma SpacedLast()
    ensures ScanValid(SpacedA)
    ensures ParseFrom("ab AND ", Default, 3, SpacedA) == Ok(SpacedTree)
  {
    var e := "ab AND ";
    assert TextRun(e, 3) == 3 by {
      assert TextRun(e, 6) == 0;
      assert TextRun(e, 5) == 1;
      assert TextRun(e, 4) == 2;
    }
    assert e[3..] == "AND ";
    assert MatchOperator(e[3..], Default).None? by {
      assert "AND "[..1] == "A";
    }
    StepText(e, Default, 3, SpacedA, 3);
    assert e[3..6] == "AND";
    var s3 := AddText(SpacedA, "AND");
    AddTextValid(SpacedA, "AND");
    assert s3.nodes == WithChild(SpacedA.nodes + [Fresh(Some("AND"), None)], 0, 1);
    assert s3.nodes == SpacedTree.nodes;
    assert s3.root == Some(0);
    ParseFromAdvance(e, Default, 3, SpacedA, 6, s3);
    StepSkips(e, Default, 6, s3);
    ParseFromAdvance(e, Default, 6, s3, 7, s3);
  }

  /** The tree of `ab AND ` renders as `abAND`: the data of a node and of
      its child are written with nothing between them. */
  lemma ExampleSpacedRenders()
    ensures TreeValid(SpacedTree) && Render(SpacedTree, DefaultDelimiters) == Some("abAND")
  {
    var t := SpacedTree.nodes;
    assert HasNonSpace("ab") by { assert !IsSpace("ab"[0]); }
    assert HasNonSpace("AND") by { assert !IsSpace("AND"[0]); }
    ProcessTreeNode(t, 1, DefaultDelimiters);
    assert "" + "AND" + "" + "" + "" + "" == "AND";
    ProcessTreeNode(t, 0, DefaultDelimiters);
    assert "" + "ab" + "AND" + "" + "" + "" == "abAND";
  }

  /** Rendering and parsing again is not stable: `a & b` renders as
      `ab AND `, which parses to a different tree, rendered `abAND`, which
      parses to a single node. */
  lemma ExampleReparseUnstable()
    ensures ParseSpec("a & b", Default) == Ok(AndTree)
    ensures TreeValid(AndTree) && Render(AndTree, DefaultDelimiters) == Some("ab AND ")
    ensures ParseSpec("ab AND ", Default) == Ok(SpacedTree) && SpacedTree != AndTree
    ensures TreeValid(SpacedTree) && Render(SpacedTree, DefaultDelimiters) == Some("abAND")
    ensures ParseSpec("abAND", Default) == Ok(Tree([Fresh(Some("abAND"), None)], 0))
  {
    ExampleAndMakesChild();
    ExampleAndRenders();
    ExampleSpacedOperatorIsText();
    ExampleSpacedRenders();
    assert SpacedTree.nodes[0].data != AndTree.nodes[0].data;
    ExampleJoinedWord();
  }

  lemma ExampleJoinedWord()
    ensures ParseSpec("abAND", Default) == Ok(Tree([Fresh(Some("abAND"), None)], 0))
  {
    var w := "abAND";
    forall k | 0 <= k < |w| ensures IsTextChar(w[k]) {
    }
    SingleOperand(w);
  }
}
