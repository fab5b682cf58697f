/** The rule each case of the scan of `parse_boolean_expression` follows,
    stated over the invariant states of the loop, and what the whole parse
    returns: blank input, syntax errors, termination, and worked examples. */
module BooleanParserRules {
  import opened Wrappers
  import opened Text
  import opened BooleanTree
  import opened BooleanParser
  import opened BooleanParserProperties

  /** `k` was attached under `owner`: it is the last node of `owner`'s
      child row, which is the old row (empty if `owner` had no child)
      followed by `k`, and its parent is `owner`. */
  predicate AttachedUnder(before: seq<Node>, after: seq<Node>, owner: nat, k: nat)
    requires WellFormed(before) && WellFormed(after)
    requires owner < |before| <= |after| && k < |after|
  {
    && after[owner].child.Some?
    && Chain(after, after[owner].child.value) == ChildRow(before, owner) + [k]
    && after[k].parent == Some(owner)
  }

  /** Appending a node with no links leaves every existing row as it was. */
  lemma {:induction false} ChainOfAppend(nodes: seq<Node>, n: Node, x: nat)
    requires WellFormed(nodes) && WellFormed(nodes + [n]) && x < |nodes|
    ensures Chain(nodes + [n], x) == Chain(nodes, x)
    decreases |nodes| - x
  {
    assert (nodes + [n])[x] == nodes[x];
    if nodes[x].next.Some? {
      ChainOfAppend(nodes, n, nodes[x].next.value);
    }
  }

  /** A node attached under an older one keeps no child and no sibling. */
  lemma AttachedKeepsNoLinks(nodes: seq<Node>, owner: nat, k: nat)
    requires WellFormed(nodes) && IsNewLast(nodes, k) && owner < k
    ensures var r := AttachUnder(nodes, owner, k); |r| == |nodes| && r[k].child.None? && r[k].next.None?
  {
    if nodes[owner].child.Some? {
      LastBeforeNew(nodes, nodes[owner].child.value, k);
    }
  }

  /** The child row of an owner, before and after a node is appended. */
  function ChildRow(nodes: seq<Node>, owner: nat): seq<nat>
    requires WellFormed(nodes) && owner < |nodes|
  {
    if nodes[owner].child.None? then [] else Chain(nodes, nodes[owner].child.value)
  }

  lemma ChildRowOfAppend(nodes: seq<Node>, n: Node, owner: nat)
    requires WellFormed(nodes) && WellFormed(nodes + [n]) && owner < |nodes|
    ensures ChildRow(nodes + [n], owner) == ChildRow(nodes, owner)
  {
    assert (nodes + [n])[owner] == nodes[owner];
    if nodes[owner].child.Some? {
      ChainOfAppend(nodes, n, nodes[owner].child.value);
    }
  }

  /** Attaching under an owner, seen from the arena before the new node
      was appended: the row grows by the new node. */
  lemma AttachAfterAppend(nodes: seq<Node>, n: Node, owner: nat)
    requires WellFormed(nodes) && LinksConsistent(nodes) && owner < |nodes|
    requires WellFormed(nodes + [n]) && IsNewLast(nodes + [n], |nodes|)
    requires LinksConsistent(nodes + [n])
    ensures WellFormed(AttachUnder(nodes + [n], owner, |nodes|))
    ensures AttachedUnder(nodes, AttachUnder(nodes + [n], owner, |nodes|), owner, |nodes|)
  {
    AttachUnderExtendsRow(nodes + [n], owner, |nodes|);
    ChildRowOfAppend(nodes, n, owner);
  }

  /** Where a freshly built node goes (lines 112-126 and 196-211): it is
      the root of an empty tree, and is otherwise attached under `current`.
      It keeps no child and no sibling, and no other node changes payload. */
  lemma PlaceRule(nodes: seq<Node>, root: Option<nat>, current: Option<nat>, n: Node)
    requires WellFormed(nodes) && LinksConsistent(nodes) && InArena(nodes, root) && InArena(nodes, current)
    requires n == Fresh(n.data, n.delimiter) && (root.Some? ==> current.Some?)
    ensures WellFormed(Place(nodes, root, current, n).0)
    ensures var (r, root') := Place(nodes, root, current, n);
      var k := |nodes|;
      && SamePayload(nodes + [n], r)
      && r[k].child.None? && r[k].next.None?
      && (root.None? ==> r == nodes + [n] && root' == Some(k))
      && (root.Some? ==> root' == root && AttachedUnder(nodes, r, current.value, k))
  {
    PlaceWellFormed(nodes, root, current, n);
    AppendFreshWellFormed(nodes, n);
    PlaceKeepsPayload(nodes, root, current, n);
    if root.Some? {
      var k := |nodes|;
      AttachAfterAppend(nodes, n, current.value);
      AttachedKeepsNoLinks(nodes + [n], current.value, k);
      assert Place(nodes, root, current, n).0 == AttachUnder(nodes + [n], current.value, k);
    }
  }

  /** A new node as `Node(data=..., delimiter=...)` leaves it, apart from
      the parent its placement gives it. */
  predicate Built(n: Node, data: Option<string>, delimiter: Option<char>)
  {
    n == Fresh(data, delimiter).(parent := n.parent)
  }

  /** The payloads of `a + [n]` carried over to `r`, split into the old
      nodes and the new last one. */
  lemma PayloadPrefix(a: seq<Node>, n: Node, r: seq<Node>)
    requires SamePayload(a + [n], r)
    ensures SamePayload(a, r[..|a|])
    ensures r[|a|].data == n.data && r[|a|].delimiter == n.delimiter && r[|a|].conjunction == n.conjunction
  {
    forall k | 0 <= k < |a|
      ensures r[..|a|][k].data == a[k].data && r[..|a|][k].delimiter == a[k].delimiter
      ensures r[..|a|][k].conjunction == a[k].conjunction
    {
      assert (a + [n])[k] == a[k];
    }
    assert (a + [n])[|a|] == n;
  }

  /** Placing a fresh node from an invariant state: node `k` is built as
      `n` says, the older nodes keep their payload, and the node is the
      root of an empty tree or is attached under `current`. */
  lemma PlaceScanRule(cfg: Config, s: Scan, n: Node)
    requires ScanValid(s) && Coherent(cfg, s) && n == Fresh(n.data, n.delimiter)
    ensures WellFormed(Place(s.nodes, s.root, s.current, n).0)
    ensures var (r, root') := Place(s.nodes, s.root, s.current, n); var k := |s.nodes|;
      && |r| == k + 1 && Built(r[k], n.data, n.delimiter)
      && SamePayload(s.nodes, r[..k])
      && (s.root.None? ==> root' == Some(k) && r == [n])
      && (s.root.Some? ==> root' == s.root && AttachedUnder(s.nodes, r, s.current.value, k))
  {
    PlaceRule(s.nodes, s.root, s.current, n);
    var r := Place(s.nodes, s.root, s.current, n).0;
    PayloadPrefix(s.nodes, n, r);
    if s.root.None? {
      assert s.nodes == [];
    }
  }

  /** Lines 109-139: an opening delimiter builds node `k` with that
      delimiter, pushes it and makes it current; it is the root of an empty
      tree and is attached under `current` otherwise. */
  lemma OpenRule(cfg: Config, s: Scan, ch: char)
    requires ScanValid(s) && Coherent(cfg, s)
    ensures ScanValid(Open(s, ch))
    ensures var s' := Open(s, ch); var k := |s.nodes|;
      && |s'.nodes| == k + 1 && Built(s'.nodes[k], None, Some(ch))
      && SamePayload(s.nodes, s'.nodes[..k])
      && s'.stack == s.stack + [k] && s'.current == Some(k)
      && (s.root.None? ==> s'.root == Some(k) && s'.nodes == [Fresh(None, Some(ch))])
      && (s.root.Some? ==> s'.root == s.root && AttachedUnder(s.nodes, s'.nodes, s.current.value, k))
  {
    OpenValid(s, ch);
    PlaceScanRule(cfg, s, Fresh(None, Some(ch)));
  }

  /** Lines 193-219: a text run builds node `k` holding it, which is made
      current; it is the root of an empty tree and is attached under
      `current` otherwise. The stack is untouched. */
  lemma AddTextRule(cfg: Config, s: Scan, text: string)
    requires ScanValid(s) && Coherent(cfg, s)
    ensures ScanValid(AddText(s, text))
    ensures var s' := AddText(s, text); var k := |s.nodes|;
      && |s'.nodes| == k + 1 && Built(s'.nodes[k], Some(text), None)
      && SamePayload(s.nodes, s'.nodes[..k])
      && s'.stack == s.stack && s'.current == Some(k)
      && (s.root.None? ==> s'.root == Some(k) && s'.nodes == [Fresh(Some(text), None)])
      && (s.root.Some? ==> s'.root == s.root && AttachedUnder(s.nodes, s'.nodes, s.current.value, k))
  {
    AddTextValid(s, text);
    PlaceScanRule(cfg, s, Fresh(Some(text), None));
  }

  /** The conditions of the close case (lines 109 and 144). */
  predicate Closing(expr: string, cfg: Config, i: nat, s: Scan)
    requires i < |expr| && ScanValid(s)
  {
    !IsSpace(expr[i]) && expr[i] !in cfg.delimiters && ClosesTop(cfg, s, expr[i])
  }

  /** One pass pops the stack exactly in the close case, where the
      character is the closing text of the top node's delimiter. It then
      leaves the nodes and the root alone and makes the new top current,
      or the closed node when the stack is now empty (lines 144-155). */
  lemma CloseRule(expr: string, cfg: Config, i: nat, s: Scan)
    requires i < |expr| && ScanValid(s) && Coherent(cfg, s)
    ensures var o := Step(expr, cfg, i, s);
      (o.Advance? && |o.scan.stack| < |s.stack|) <==> Closing(expr, cfg, i, s)
    ensures Closing(expr, cfg, i, s) ==>
      var o := Step(expr, cfg, i, s);
      var top := s.stack[|s.stack| - 1];
      var rest := s.stack[..|s.stack| - 1];
      && cfg.delimiters[s.nodes[top].delimiter.value] == [expr[i]]
      && o.Advance? && o.next == i + 1
      && o.scan.nodes == s.nodes && o.scan.root == s.root && o.scan.stack == rest
      && o.scan.current == Some(if rest == [] then top else rest[|rest| - 1])
  {
    var ch := expr[i];
    if IsSpace(ch) {
      StepSkips(expr, cfg, i, s);
    } else if ch in cfg.delimiters {
      StepOpens(expr, cfg, i, s);
    } else if ClosesTop(cfg, s, ch) {
      StepCloses(expr, cfg, i, s);
    } else if MatchOperator(expr[i..], cfg).Some? {
      var (conj, len) := MatchOperator(expr[i..], cfg).value;
      StepOperator(expr, cfg, i, s, conj, len);
    } else {
      var n := TextRun(expr, i);
      StepText(expr, cfg, i, s, n);
    }
  }

  /** Line 109 comes before line 144: a non-space character that is an
      opening delimiter always opens a node, even where it is also the closing text
      of the node on top of the stack, as the default `"` is. */
  lemma OpenWins(expr: string, cfg: Config, i: nat, s: Scan)
    requires i < |expr| && ScanValid(s) && Coherent(cfg, s)
    requires !IsSpace(expr[i]) && expr[i] in cfg.delimiters
    ensures var o := Step(expr, cfg, i, s);
      o.Advance? && |o.scan.stack| == |s.stack| + 1 && o.scan.nodes[|s.nodes|].delimiter == Some(expr[i])
  {
    StepOpens(expr, cfg, i, s);
    OpenRule(cfg, s, expr[i]);
  }

  /** The conditions under which a pass reaches the operator and text
      cases (lines 161 and 191). */
  predicate Wordy(expr: string, cfg: Config, i: nat, s: Scan)
    requires i < |expr| && ScanValid(s)
  {
    !IsSpace(expr[i]) && expr[i] !in cfg.delimiters && !ClosesTop(cfg, s, expr[i])
  }

  /** Lines 161-185: the first operator token that prefixes the rest of the
      input sets the conjunction of `current` and is skipped; with no
      current node a bare node is made current first, and the root when
      there is none, which in a reachable state means nothing was built
      yet. An empty token never advances. */
  lemma OperatorRule(expr: string, cfg: Config, i: nat, s: Scan)
    requires i < |expr| && ScanValid(s) && Coherent(cfg, s) && Wordy(expr, cfg, i, s)
    requires MatchOperator(expr[i..], cfg).Some?
    ensures var (conj, len) := MatchOperator(expr[i..], cfg).value;
      var o := Step(expr, cfg, i, s);
      && (len == 0 ==> o == Fail(Diverges(i)))
      && (len > 0 ==>
            && o.Advance? && o.next == i + len && o.scan.stack == s.stack
            && (s.current.Some? ==>
                  && o.scan.root == s.root && o.scan.current == s.current
                  && o.scan.nodes == WithConjunction(s.nodes, s.current.value, conj))
            && (s.current.None? ==>
                  && o.scan.root == Some(0) && o.scan.current == Some(0)
                  && o.scan.nodes == [Fresh(None, None).(conjunction := conj)]))
  {
    var (conj, len) := MatchOperator(expr[i..], cfg).value;
    StepOperator(expr, cfg, i, s, conj, len);
    if s.current.None? {
      assert s.nodes == [];
      assert WithConjunction([] + [Fresh(None, None)], 0, conj) == [Fresh(None, None).(conjunction := conj)];
    }
  }

  /** Lines 191-219: when no operator matches, the longest run of
      characters other than whitespace and the three characters `(`, `)`
      and `"` (whatever the configured delimiters) becomes a new data node,
      which is attached as `AddTextRule` says and made current. */
  lemma TextRule(expr: string, cfg: Config, i: nat, s: Scan)
    requires i < |expr| && ScanValid(s) && Wordy(expr, cfg, i, s)
    requires MatchOperator(expr[i..], cfg).None? && IsTextChar(expr[i])
    ensures var o := Step(expr, cfg, i, s);
      && o.Advance? && i < o.next <= |expr|
      && (forall j :: i <= j < o.next ==> IsTextChar(expr[j]))
      && (o.next == |expr| || !IsTextChar(expr[o.next]))
      && o.scan == AddText(s, expr[i..o.next])
  {
    var n := TextRun(expr, i);
    assert n > 0 by { assert n == 1 + TextRun(expr, i + 1); }
    StepText(expr, cfg, i, s, n);
  }

  /** A pass fails exactly in these two ways: a non-empty match of no
      case is the `SyntaxError` of line 222 naming the character and its
      index, and an empty operator token is the loop that never ends. */
  lemma StepFails(expr: string, cfg: Config, i: nat, s: Scan)
    requires i < |expr| && ScanValid(s)
    ensures var o := Step(expr, cfg, i, s);
      (o.Fail? && o.error.UnexpectedCharacter?)
      <==> (Wordy(expr, cfg, i, s) && MatchOperator(expr[i..], cfg).None? && !IsTextChar(expr[i]))
    ensures var o := Step(expr, cfg, i, s);
      (o.Fail? && o.error.Diverges?)
      <==> (Wordy(expr, cfg, i, s) && MatchOperator(expr[i..], cfg).Some? && MatchOperator(expr[i..], cfg).value.1 == 0)
    ensures Step(expr, cfg, i, s).Fail? ==>
      Step(expr, cfg, i, s).error in {UnexpectedCharacter(expr[i], i), Diverges(i)}
  {
    var ch := expr[i];
    if IsSpace(ch) {
      StepSkips(expr, cfg, i, s);
    } else if ch in cfg.delimiters {
      StepOpens(expr, cfg, i, s);
    } else if ClosesTop(cfg, s, ch) {
      StepCloses(expr, cfg, i, s);
    } else if MatchOperator(expr[i..], cfg).Some? {
      var (conj, len) := MatchOperator(expr[i..], cfg).value;
      StepOperator(expr, cfg, i, s, conj, len);
    } else {
      var n := TextRun(expr, i);
      StepText(expr, cfg, i, s, n);
    }
  }

  /** With three non-empty operator tokens every pass advances, so the
      loop ends: the parse returns a tree or a `SyntaxError`. */
  lemma {:induction false} NeverDiverges(expr: string, cfg: Config, i: nat, s: Scan)
    requires i <= |expr| && ScanValid(s)
    requires cfg.notToken != [] && cfg.andToken != [] && cfg.orToken != []
    ensures ParseFrom(expr, cfg, i, s).Err? ==> ParseFrom(expr, cfg, i, s).error.UnexpectedCharacter?
    decreases |expr| - i
  {
    if i < |expr| {
      StepFails(expr, cfg, i, s);
      var o := Step(expr, cfg, i, s);
      if o.Advance? {
        ParseFromAdvance(expr, cfg, i, s, o.next, o.scan);
        NeverDiverges(expr, cfg, o.next, o.scan);
      }
    }
  }

  /** Whitespace before anything was built is skipped without effect. */
  lemma {:induction false} SkipBlank(expr: string, cfg: Config, i: nat, j: nat)
    requires i <= j <= |expr| && forall k :: i <= k < j ==> IsSpace(expr[k])
    ensures ParseFrom(expr, cfg, i, Start) == ParseFrom(expr, cfg, j, Start)
    decreases j - i
  {
    if i < j {
      StepSkips(expr, cfg, i, Start);
      ParseFromAdvance(expr, cfg, i, Start, i + 1, Start);
      SkipBlank(expr, cfg, i + 1, j);
    }
  }

  /** The first pass over a non-space character builds the root or fails. */
  lemma FirstTokenBuilds(expr: string, cfg: Config, i: nat)
    requires i < |expr| && !IsSpace(expr[i])
    ensures Step(expr, cfg, i, Start).Advance? ==> Step(expr, cfg, i, Start).scan.root.Some?
  {
    StartCoherent(cfg);
    var ch := expr[i];
    if ch in cfg.delimiters {
      StepOpens(expr, cfg, i, Start);
    } else if MatchOperator(expr[i..], cfg).Some? {
      var (conj, len) := MatchOperator(expr[i..], cfg).value;
      StepOperator(expr, cfg, i, Start, conj, len);
    } else {
      var n := TextRun(expr, i);
      StepText(expr, cfg, i, Start, n);
    }
  }

  /** Every tree the parser returns is the blank tree or fits the
      configuration: the root is node 0 with no parent, the links are
      consistent, every delimiter is a key of the table and every payload
      is a non-empty text run. */
  lemma ParseResult(expr: string, cfg: Config)
    ensures ParseSpec(expr, cfg).Ok? ==>
      var t := ParseSpec(expr, cfg).value; t == BlankTree || TreeFits(cfg, t)
  {
    StartCoherent(cfg);
    ParseFromCoherent(expr, cfg, 0, Start);
  }

  /** Lines 98-104 and 225-226: the parse of empty or all-whitespace input
      is the single node `Node(data="")`, with no delimiter, no links and
      conjunction `MISSING`, and never raises; any other input gives
      another tree or an error. */
  lemma BlankInput(expr: string, cfg: Config)
    ensures ParseSpec(expr, cfg) == Ok(BlankTree) <==> AllSpace(expr)
  {
    var p := LeadingSpaces(expr);
    SkipBlank(expr, cfg, 0, p);
    if p == |expr| {
      assert Finish(Start) == BlankTree;
    } else {
      FirstTokenBuilds(expr, cfg, p);
      StartCoherent(cfg);
      StepCoherent(expr, cfg, p, Start);
      var o := Step(expr, cfg, p, Start);
      if o.Advance? {
        ParseFromAdvance(expr, cfg, p, Start, o.next, o.scan);
        ParseFromCoherent(expr, cfg, o.next, o.scan);
        if ParseSpec(expr, cfg).Ok? {
          assert !NodeFits(cfg, BlankTree.nodes[0]);
        }
      }
    }
  }

  /** A single operand, a run of text characters that does not begin with
      one of the default operator tokens, parses to one data node holding
      the whole input, which is the root. */
  lemma SingleOperand(t: string)
    requires t != [] && forall k :: 0 <= k < |t| ==> IsTextChar(t[k])
    requires t[0] != '&' && t[0] != '|' && t[0] != '-'
    ensures ParseSpec(t, Default) == Ok(Tree([Fresh(Some(t), None)], 0))
  {
    TextRunToEnd(t, 0);
    assert t[0..] == t;
    assert MatchOperator(t, Default).None? by {
      assert t[..1] == [t[0]];
    }
    StepText(t, Default, 0, Start, |t|);
    assert t[0..|t|] == t;
    var s := AddText(Start, t);
    assert s == Scan([Fresh(Some(t), None)], Some(0), Some(0), []);
    ParseFromAdvance(t, Default, 0, Start, |t|, s);
  }

  lemma {:induction false} TextRunToEnd(t: string, i: nat)
    requires i <= |t| && forall k :: i <= k < |t| ==> IsTextChar(t[k])
    ensures TextRun(t, i) == |t| - i
    decreases |t| - i
  {
    if i < |t| {
      TextRunToEnd(t, i + 1);
    }
  }

  /** `a & b`: the text node `a` becomes current, so `b` is attached as its
      child rather than as its sibling. */
  lemma ExampleAndMakesChild()
    ensures ParseSpec("a & b", Default) == Ok(AndTree)
  {
    AndExampleText();
    AndExampleOperator();
    AndExampleLast();
  }

  const AndTree: Tree := Tree([
    Node(Some("a"), None, Some(1), None, None, And),
    Node(Some("b"), None, None, None, Some(0), Missing)], 0)

  const AndExampleA: Scan := Scan([Fresh(Some("a"), None)], Some(0), Some(0), [])
  const AndExampleB: Scan := Scan([Fresh(Some("a"), None).(conjunction := And)], Some(0), Some(0), [])

  lemma AndExampleText()
    ensures ScanValid(AndExampleA)
    ensures ParseSpec("a & b", Default) == ParseFrom("a & b", Default, 2, AndExampleA)
  {
    var e := "a & b";
    assert TextRun(e, 0) == 1 by { assert TextRun(e, 1) == 0; }
    StepText(e, Default, 0, Start, 1);
    assert e[0..1] == "a";
    assert AddText(Start, "a") == AndExampleA;
    ParseFromAdvance(e, Default, 0, Start, 1, AndExampleA);
    StepSkips(e, Default, 1, AndExampleA);
    ParseFromAdvance(e, Default, 1, AndExampleA, 2, AndExampleA);
  }

  lemma AndExampleOperator()
    ensures ScanValid(AndExampleA) && ScanValid(AndExampleB)
    ensures ParseFrom("a & b", Default, 2, AndExampleA) == ParseFrom("a & b", Default, 4, AndExampleB)
  {
    var e := "a & b";
    assert e[2..] == "& b";
    assert !StartsWith("& b", "-") by { assert "& b"[..1] == "&"; }
    assert StartsWith("& b", "&") by { assert "& b"[..1] == "&"; }
    assert MatchOperator(e[2..], Default) == Some((And, 1));
    StepOperator(e, Default, 2, AndExampleA, And, 1);
    assert SetConjunction(AndExampleA, And) == AndExampleB;
    ParseFromAdvance(e, Default, 2, AndExampleA, 3, AndExampleB);
    StepSkips(e, Default, 3, AndExampleB);
    ParseFromAdvance(e, Default, 3, AndExampleB, 4, AndExampleB);
  }

  lemma AndExampleLast()
    ensures ScanValid(AndExampleB)
    ensures ParseFrom("a & b", Default, 4, AndExampleB) == Ok(AndTree)
  {
    var e := "a & b";
    assert TextRun(e, 4) == 1 by { assert TextRun(e, 5) == 0; }
    assert e[4..] == "b";
    assert MatchOperator(e[4..], Default).None? by {
      assert "b"[..1] == "b";
    }
    StepText(e, Default, 4, AndExampleB, 1);
    assert e[4..5] == "b";
    var s3 := AddText(AndExampleB, "b");
    AddTextValid(AndExampleB, "b");
    assert s3.nodes == WithChild(AndExampleB.nodes + [Fresh(Some("b"), None)], 0, 1);
    assert s3.nodes == [
      Node(Some("a"), None, Some(1), None, None, And),
      Node(Some("b"), None, None, None, Some(0), Missing)];
    assert s3.root == Some(0);
    ParseFromAdvance(e, Default, 4, AndExampleB, 5, s3);
  }

  /** A stray closing parenthesis with nothing open is a syntax error at
      index 0. */
  lemma ExampleStrayClose()
    ensures ParseSpec(")", Default) == Err(UnexpectedCharacter(')', 0))
  {
    assert TextRun(")", 0) == 0;
    assert MatchOperator(")"[0..], Default).None? by { assert ")"[0..][..1] == ")"; }
    StepText(")", Default, 0, Start, 0);
    ParseFromFail(")", Default, 0, Start, UnexpectedCharacter(')', 0));
  }

  /** With only `"` configured, `(` is no delimiter and, being excluded from
      text runs, a syntax error. */
  lemma ExampleUnconfiguredOpen()
    ensures ParseSpec("(", Config(map['"' := "\""], "&", "|", "-")) == Err(UnexpectedCharacter('(', 0))
  {
    var cfg := Config(map['"' := "\""], "&", "|", "-");
    assert TextRun("(", 0) == 0;
    assert MatchOperator("("[0..], cfg).None? by { assert "("[0..][..1] == "("; }
    StepText("(", cfg, 0, Start, 0);
    ParseFromFail("(", cfg, 0, Start, UnexpectedCharacter('(', 0));
  }

  /** An empty NOT token matches everywhere and the loop never advances. */
  lemma ExampleEmptyToken()
    ensures ParseSpec("a", Config(DefaultDelimiters, "&", "|", "")) == Err(Diverges(0))
  {
    var cfg := Config(DefaultDelimiters, "&", "|", "");
    assert MatchOperator("a"[0..], cfg) == Some((Not, 0));
    StepOperator("a", cfg, 0, Start, Not, 0);
    ParseFromFail("a", cfg, 0, Start, Diverges(0));
  }

  const UnclosedA: Scan := Scan([Fresh(None, Some('('))], Some(0), Some(0), [0])

  /** `(a` is accepted: the open delimiter is never closed, and `a` is its
      child. */
  lemma ExampleUnclosed()
    ensures ParseSpec("(a", Default) == Ok(Tree([
      Node(None, Some('('), Some(1), None, None, Missing),
      Node(Some("a"), None, None, None, Some(0), Missing)], 0))
  {
    var e := "(a";
    StepOpens(e, Default, 0, Start);
    assert Open(Start, '(') == UnclosedA;
    ParseFromAdvance(e, Default, 0, Start, 1, UnclosedA);
    UnclosedText();
  }

  lemma UnclosedText()
    ensures ScanValid(UnclosedA)
    ensures ParseFrom("(a", Default, 1, UnclosedA) == Ok(Tree([
      Node(None, Some('('), Some(1), None, None, Missing),
      Node(Some("a"), None, None, None, Some(0), Missing)], 0))
  {
    var e := "(a";
    assert TextRun(e, 1) == 1 by { assert TextRun(e, 2) == 0; }
    assert e[1..] == "a";
    assert MatchOperator(e[1..], Default).None? by { assert "a"[..1] == "a"; }
    StepText(e, Default, 1, UnclosedA, 1);
    assert e[1..2] == "a";
    UnclosedAddsText();
    ParseFromAdvance(e, Default, 1, UnclosedA, 2, UnclosedB);
  }

  const UnclosedB: Scan := Scan([
    Node(None, Some('('), Some(1), None, None, Missing),
    Node(Some("a"), None, None, None, Some(0), Missing)], Some(0), Some(1), [0])

  /** The text `a` inside the open `(` becomes its child. */
  lemma UnclosedAddsText()
    ensures ScanValid(UnclosedA) && AddText(UnclosedA, "a") == UnclosedB && ScanValid(UnclosedB)
  {
    AddTextValid(UnclosedA, "a");
    var s2 := AddText(UnclosedA, "a");
    assert s2.nodes == WithChild(UnclosedA.nodes + [Fresh(Some("a"), None)], 0, 1);
    assert s2.nodes == UnclosedB.nodes;
  }

  /** A configuration where the NOT token `-` prefixes the AND token `-&`. */
  const DashConfig: Config := Config(DefaultDelimiters, "-&", "|", "-")

  const DashPlaceholder: Scan := Scan([Fresh(None, None).(conjunction := Not)], Some(0), Some(0), [])

  /** NOT is tried before AND, so `-&b` reads as NOT on a placeholder root
      followed by the text `&b`: operator characters may occur inside a
      text run. */
  lemma ExampleNotBeforeAnd()
    ensures ParseSpec("-&b", DashConfig) == Ok(Tree([
      Node(None, None, Some(1), None, None, Not),
      Node(Some("&b"), None, None, None, Some(0), Missing)], 0))
  {
    var e := "-&b";
    assert MatchOperator(e[0..], DashConfig) == Some((Not, 1)) by { assert e[0..][..1] == "-"; }
    StepOperator(e, DashConfig, 0, Start, Not, 1);
    assert SetConjunction(Start, Not) == DashPlaceholder;
    ParseFromAdvance(e, DashConfig, 0, Start, 1, DashPlaceholder);
    DashText();
  }

  lemma DashText()
    ensures ScanValid(DashPlaceholder)
    ensures ParseFrom("-&b", DashConfig, 1, DashPlaceholder) == Ok(Tree([
      Node(None, None, Some(1), None, None, Not),
      Node(Some("&b"), None, None, None, Some(0), Missing)], 0))
  {
    var e := "-&b";
    assert TextRun(e, 1) == 2 by { assert TextRun(e, 2) == 1 by { assert TextRun(e, 3) == 0; } }
    assert e[1..] == "&b";
    assert MatchOperator(e[1..], DashConfig).None? by { assert "&b"[..1] == "&"; assert "&b"[..2] != "-&"; }
    StepText(e, DashConfig, 1, DashPlaceholder, 2);
    assert e[1..3] == "&b";
    var s2 := AddText(DashPlaceholder, "&b");
    AddTextValid(DashPlaceholder, "&b");
    assert s2.nodes == WithChild(DashPlaceholder.nodes + [Fresh(Some("&b"), None)], 0, 1);
    assert s2.nodes == [
      Node(None, None, Some(1), None, None, Not),
      Node(Some("&b"), None, None, None, Some(0), Missing)];
    assert s2.root == Some(0);
    ParseFromAdvance(e, DashConfig, 1, DashPlaceholder, 3, s2);
  }

  /** The tree of `"a"`: a quote never closes, so the second `"` opens a
      node under `a`, and both quotes stay open. */
  const QuotedTree: Tree := Tree([
    Node(None, Some('"'), Some(1), None, None, Missing),
    Node(Some("a"), None, Some(2), None, Some(0), Missing),
    Node(None, Some('"'), None, None, Some(1), Missing)], 0)

  const QuoteOpen: Scan := Scan([Fresh(None, Some('"'))], Some(0), Some(0), [0])
  const QuoteText: Scan := Scan([
    Node(None, Some('"'), Some(1), None, None, Missing),
    Node(Some("a"), None, None, None, Some(0), Missing)], Some(0), Some(1), [0])

  lemma ExampleQuoteNeverCloses()
    ensures ParseSpec("\"a\"", Default) == Ok(QuotedTree)
  {
    QuoteFirst();
    QuoteInner();
    QuoteLast();
  }

  lemma QuoteFirst()
    ensures ScanValid(QuoteOpen)
    ensures ParseSpec("\"a\"", Default) == ParseFrom("\"a\"", Default, 1, QuoteOpen)
  {
    var e := "\"a\"";
    StepOpens(e, Default, 0, Start);
    assert Open(Start, '"') == QuoteOpen;
    ParseFromAdvance(e, Default, 0, Start, 1, QuoteOpen);
  }

  lemma QuoteInner()
    ensures ScanValid(QuoteOpen)
    ensures ParseFrom("\"a\"", Default, 1, QuoteOpen) == ParseFrom("\"a\"", Default, 2, QuoteText)
  {
    var e := "\"a\"";
    assert TextRun(e, 1) == 1 by { assert TextRun(e, 2) == 0; }
    assert e[1..] == "a\"";
    assert MatchOperator(e[1..], Default).None? by { assert "a\""[..1] == "a"; }
    StepText(e, Default, 1, QuoteOpen, 1);
    assert e[1..2] == "a";
    AddTextValid(QuoteOpen, "a");
    assert AddText(QuoteOpen, "a").nodes == WithChild(QuoteOpen.nodes + [Fresh(Some("a"), None)], 0, 1);
    assert AddText(QuoteOpen, "a") == QuoteText;
    ParseFromAdvance(e, Default, 1, QuoteOpen, 2, QuoteText);
  }

  lemma QuoteLast()
    ensures ScanValid(QuoteText)
    ensures ParseFrom("\"a\"", Default, 2, QuoteText) == Ok(QuotedTree)
  {
    var e := "\"a\"";
    StepOpens(e, Default, 2, QuoteText);
    var s3 := Open(QuoteText, '"');
    OpenValid(QuoteText, '"');
    assert s3.nodes == WithChild(QuoteText.nodes + [Fresh(None, Some('"'))], 1, 2);
    assert s3.nodes == QuotedTree.nodes;
    assert s3.root == Some(0);
    ParseFromAdvance(e, Default, 2, QuoteText, 3, s3);
  }
}
