/** What `parse_boolean_expression` guarantees, proved about the loop
    specification `ParseFrom` / `ParseSpec` of module `BooleanParser`:
    the invariant of the scanner's variables, the rule each of the five
    cases follows, and the shape of every tree it returns. */
module BooleanParserProperties {
  import opened Wrappers
  import opened Text
  import opened BooleanTree
  import opened BooleanParser

  /** Two arenas of the same size whose nodes agree on everything but their
      links. */
  predicate SamePayload(a: seq<Node>, b: seq<Node>)
  {
    && |a| == |b|
    && forall k :: 0 <= k < |a| ==>
         a[k].data == b[k].data && a[k].delimiter == b[k].delimiter && a[k].conjunction == b[k].conjunction
  }

  /** A node as the parser builds it under `cfg`: an opening delimiter is a
      key of the table, and a payload is a non-empty run of text
      characters. */
  predicate NodeFits(cfg: Config, n: Node)
  {
    && (n.delimiter.Some? ==> n.delimiter.value in cfg.delimiters)
    && (n.data.Some? ==> n.data.value != [] && forall j :: 0 <= j < |n.data.value| ==> IsTextChar(n.data.value[j]))
  }

  /** The loop invariant of `parse_boolean_expression` (lines 98-222):
      `root` is unset exactly when `current` is, and then nothing has been
      built; the root is the first node built; every stack entry is a
      delimiter node; every node fits the configuration; and the `parent`
      bookkeeping of `set_child`/`set_next` holds. */
  predicate Coherent(cfg: Config, s: Scan)
    requires ScanValid(s)
  {
    && LinksConsistent(s.nodes)
    && (s.root.None? <==> s.current.None?)
    && (s.root.None? ==> s.nodes == [] && s.stack == [])
    && (s.root.Some? ==> s.root.value == 0)
    && (forall j :: 0 <= j < |s.stack| ==> s.nodes[s.stack[j]].delimiter.Some?)
    && (forall k :: 0 <= k < |s.nodes| ==> NodeFits(cfg, s.nodes[k]))
  }

  /** The tree of blank input (lines 225-226). */
  const BlankTree: Tree := Tree([Fresh(Some(""), None)], 0)

  /** A tree built from at least one token under `cfg`. */
  predicate TreeFits(cfg: Config, t: Tree)
  {
    && t.root == 0
    && TreeValid(t)
    && LinksConsistent(t.nodes)
    && t.nodes[0].parent.None?
    && forall k :: 0 <= k < |t.nodes| ==> NodeFits(cfg, t.nodes[k])
  }

  lemma LinkKeepsPayload(nodes: seq<Node>, root: nat, current: Option<nat>, k: nat)
    requires WellFormed(nodes) && root < k && k < |nodes| && (current.Some? ==> current.value < k)
    ensures SamePayload(nodes, Link(nodes, root, current, k))
  {
    if current.Some? {
      var owner := current.value;
      if nodes[owner].child.None? {
        ChildKeepsPayload(nodes, owner, k);
      } else {
        NextKeepsPayload(nodes, LastOfChain(nodes, nodes[owner].child.value), k);
      }
    } else {
      NextKeepsPayload(nodes, LastOfChain(nodes, root), k);
    }
  }

  lemma ChildKeepsPayload(nodes: seq<Node>, p: nat, c: nat)
    requires p < |nodes| && c < |nodes|
    ensures SamePayload(nodes, WithChild(nodes, p, c))
  {
  }

  lemma NextKeepsPayload(nodes: seq<Node>, s: nat, n: nat)
    requires s < |nodes| && n < |nodes|
    ensures SamePayload(nodes, WithNext(nodes, s, n))
  {
  }

  lemma PlaceKeepsPayload(nodes: seq<Node>, root: Option<nat>, current: Option<nat>, n: Node)
    requires WellFormed(nodes) && InArena(nodes, root) && InArena(nodes, current)
    requires n == Fresh(n.data, n.delimiter)
    ensures SamePayload(nodes + [n], Place(nodes, root, current, n).0)
    ensures WellFormed(Place(nodes, root, current, n).0)
    ensures LinksConsistent(nodes) ==> LinksConsistent(Place(nodes, root, current, n).0)
  {
    AppendFreshWellFormed(nodes, n);
    if root.Some? {
      LinkKeepsPayload(nodes + [n], root.value, current, |nodes|);
      LinkWellFormed(nodes + [n], root.value, current, |nodes|);
    }
  }

  /** Placing a fitting node keeps every node fitting. */
  lemma PlaceFits(cfg: Config, nodes: seq<Node>, root: Option<nat>, current: Option<nat>, n: Node)
    requires WellFormed(nodes) && InArena(nodes, root) && InArena(nodes, current)
    requires n == Fresh(n.data, n.delimiter) && NodeFits(cfg, n)
    requires forall k :: 0 <= k < |nodes| ==> NodeFits(cfg, nodes[k])
    ensures var r := Place(nodes, root, current, n).0;
      forall k :: 0 <= k < |r| ==> NodeFits(cfg, r[k])
  {
    PlaceKeepsPayload(nodes, root, current, n);
    var a := nodes + [n];
    var r := Place(nodes, root, current, n).0;
    forall k | 0 <= k < |r| ensures NodeFits(cfg, r[k]) {
      assert NodeFits(cfg, a[k]);
      assert a[k].data == r[k].data && a[k].delimiter == r[k].delimiter;
    }
  }

  lemma StartCoherent(cfg: Config)
    ensures ScanValid(Start) && Coherent(cfg, Start)
  {
  }

  lemma OpenCoherent(cfg: Config, s: Scan, ch: char)
    requires ScanValid(s) && Coherent(cfg, s) && ch in cfg.delimiters
    ensures ScanValid(Open(s, ch)) && Coherent(cfg, Open(s, ch))
  {
    OpenValid(s, ch);
    var n := Fresh(None, Some(ch));
    PlaceKeepsPayload(s.nodes, s.root, s.current, n);
    PlaceFits(cfg, s.nodes, s.root, s.current, n);
    var placed := Place(s.nodes, s.root, s.current, n);
    PushedCoherent(cfg, s, placed.0, placed.1, n);
  }

  /** The state after an opening delimiter, from the arena `r` and root
      `root'` that placing the new delimiter node `n` gives. */
  lemma PushedCoherent(cfg: Config, s: Scan, r: seq<Node>, root': Option<nat>, n: Node)
    requires ScanValid(s) && Coherent(cfg, s) && n.delimiter.Some?
    requires |r| == |s.nodes| + 1 && WellFormed(r) && LinksConsistent(r)
    requires SamePayload(s.nodes + [n], r)
    requires forall k :: 0 <= k < |r| ==> NodeFits(cfg, r[k])
    requires root' == if s.root.None? then Some(|s.nodes|) else s.root
    ensures var s' := Scan(r, root', Some(|s.nodes|), s.stack + [|s.nodes|]);
      ScanValid(s') && Coherent(cfg, s')
  {
    var k := |s.nodes|;
    var stack := s.stack + [k];
    forall j | 0 <= j < |stack| ensures stack[j] < |r| && r[stack[j]].delimiter.Some? {
      if j < |s.stack| {
        assert stack[j] == s.stack[j];
        assert r[s.stack[j]].delimiter == (s.nodes + [n])[s.stack[j]].delimiter;
      } else {
        assert r[k].delimiter == (s.nodes + [n])[k].delimiter;
      }
    }
  }

  lemma CloseCoherent(cfg: Config, s: Scan)
    requires ScanValid(s) && Coherent(cfg, s) && |s.stack| > 0
    ensures ScanValid(Close(s)) && Coherent(cfg, Close(s))
  {
    CloseValid(s);
    var s' := Close(s);
    assert forall j :: 0 <= j < |s'.stack| ==> s'.stack[j] == s.stack[j];
  }

  lemma SetConjunctionCoherent(cfg: Config, s: Scan, conj: Conjunction)
    requires ScanValid(s) && Coherent(cfg, s)
    ensures ScanValid(SetConjunction(s, conj)) && Coherent(cfg, SetConjunction(s, conj))
  {
    SetConjunctionValid(s, conj);
    if s.current.Some? {
      CurrentConjunctionCoherent(cfg, s, conj);
    } else {
      // no current node, hence no root and nothing built yet
      var a := s.nodes + [Fresh(None, None)];
      AppendFreshWellFormed(s.nodes, Fresh(None, None));
      WithConjunctionKeepsLinks(a, |s.nodes|, conj);
      assert s.nodes == [] && s.stack == [];
      assert SetConjunction(s, conj).nodes == [Fresh(None, None).(conjunction := conj)];
    }
  }

  lemma CurrentConjunctionCoherent(cfg: Config, s: Scan, conj: Conjunction)
    requires ScanValid(s) && Coherent(cfg, s) && s.current.Some?
    ensures ScanValid(SetConjunction(s, conj)) && Coherent(cfg, SetConjunction(s, conj))
  {
    SetConjunctionValid(s, conj);
    var s' := SetConjunction(s, conj);
    WithConjunctionKeepsLinks(s.nodes, s.current.value, conj);
    assert s'.stack == s.stack && s'.root == s.root && s'.current == s.current;
    forall k | 0 <= k < |s.nodes|
      ensures s'.nodes[k].data == s.nodes[k].data && s'.nodes[k].delimiter == s.nodes[k].delimiter
    {
    }
    forall k | 0 <= k < |s'.nodes| ensures NodeFits(cfg, s'.nodes[k]) {
      assert NodeFits(cfg, s.nodes[k]);
    }
  }

  lemma AddTextCoherent(cfg: Config, s: Scan, text: string)
    requires ScanValid(s) && Coherent(cfg, s)
    requires text != [] && forall j :: 0 <= j < |text| ==> IsTextChar(text[j])
    ensures ScanValid(AddText(s, text)) && Coherent(cfg, AddText(s, text))
  {
    AddTextValid(s, text);
    var n := Fresh(Some(text), None);
    PlaceKeepsPayload(s.nodes, s.root, s.current, n);
    PlaceFits(cfg, s.nodes, s.root, s.current, n);
    var s' := AddText(s, text);
    forall j | 0 <= j < |s'.stack| ensures s'.nodes[s'.stack[j]].delimiter.Some? {
      assert s'.nodes[s.stack[j]].delimiter == (s.nodes + [n])[s.stack[j]].delimiter;
    }
  }

  /** What a pass that goes on promises about its new state. */
  predicate Continues(cfg: Config, s: Scan, o: Outcome)
    requires ScanValid(s)
  {
    o.Advance? ==> ScanValid(o.scan) && Coherent(cfg, o.scan) && (s.root.Some? ==> o.scan.root == s.root)
  }

  /** Every pass of the loop body keeps the invariant. */
  lemma StepCoherent(expr: string, cfg: Config, i: nat, s: Scan)
    requires i < |expr| && ScanValid(s) && Coherent(cfg, s)
    ensures Step(expr, cfg, i, s).Advance? ==>
      var o := Step(expr, cfg, i, s);
      && i < o.next <= |expr| && ScanValid(o.scan) && Coherent(cfg, o.scan)
      && (s.root.Some? ==> o.scan.root == s.root)
  {
    StepValid(expr, cfg, i, s);
    var ch := expr[i];
    if IsSpace(ch) {
      StepSkips(expr, cfg, i, s);
    } else if ch in cfg.delimiters {
      OpenStepCoherent(expr, cfg, i, s);
    } else if ClosesTop(cfg, s, ch) {
      CloseStepCoherent(expr, cfg, i, s);
    } else if MatchOperator(expr[i..], cfg).Some? {
      OperatorStepCoherent(expr, cfg, i, s);
    } else {
      TextStepCoherent(expr, cfg, i, s);
    }
  }

  lemma OpenStepCoherent(expr: string, cfg: Config, i: nat, s: Scan)
    requires i < |expr| && ScanValid(s) && Coherent(cfg, s)
    requires !IsSpace(expr[i]) && expr[i] in cfg.delimiters
    ensures Continues(cfg, s, Step(expr, cfg, i, s))
  {
    OpenCoherent(cfg, s, expr[i]);
    StepOpens(expr, cfg, i, s);
  }

  lemma CloseStepCoherent(expr: string, cfg: Config, i: nat, s: Scan)
    requires i < |expr| && ScanValid(s) && Coherent(cfg, s)
    requires !IsSpace(expr[i]) && expr[i] !in cfg.delimiters && ClosesTop(cfg, s, expr[i])
    ensures Continues(cfg, s, Step(expr, cfg, i, s))
  {
    CloseCoherent(cfg, s);
    StepCloses(expr, cfg, i, s);
  }

  lemma OperatorStepCoherent(expr: string, cfg: Config, i: nat, s: Scan)
    requires i < |expr| && ScanValid(s) && Coherent(cfg, s)
    requires !IsSpace(expr[i]) && expr[i] !in cfg.delimiters && !ClosesTop(cfg, s, expr[i])
    requires MatchOperator(expr[i..], cfg).Some?
    ensures Continues(cfg, s, Step(expr, cfg, i, s))
  {
    var (conj, len) := MatchOperator(expr[i..], cfg).value;
    SetConjunctionCoherent(cfg, s, conj);
    StepOperator(expr, cfg, i, s, conj, len);
  }

  lemma TextStepCoherent(expr: string, cfg: Config, i: nat, s: Scan)
    requires i < |expr| && ScanValid(s) && Coherent(cfg, s)
    requires !IsSpace(expr[i]) && expr[i] !in cfg.delimiters && !ClosesTop(cfg, s, expr[i])
    requires MatchOperator(expr[i..], cfg).None?
    ensures Continues(cfg, s, Step(expr, cfg, i, s))
  {
    var n := TextRun(expr, i);
    if n > 0 {
      AddTextCoherent(cfg, s, expr[i..i + n]);
    }
    StepText(expr, cfg, i, s, n);
  }

  /** A state of the scan's variables at index `i`. */
  predicate StateValid(expr: string, st: Option<(nat, Scan)>)
  {
    st.Some? ==> st.value.0 <= |expr| && ScanValid(st.value.1)
  }

  /** One pass of the loop from `st`: `None` once the loop has stopped, at
      the end of the input or on an error. */
  function Next(expr: string, cfg: Config, st: Option<(nat, Scan)>): (r: Option<(nat, Scan)>)
    requires StateValid(expr, st)
    ensures StateValid(expr, r)
    ensures r.Some? ==> st.Some? && st.value.0 < r.value.0
  {
    match st
    case None => None
    case Some((i, s)) =>
      if i == |expr| then None
      else
        StepValid(expr, cfg, i, s);
        match Step(expr, cfg, i, s)
        case Fail(_) => None
        case Advance(j, s') => Some((j, s'))
  }

  /** The scanner's variables after `n` passes of the loop body, or `None`
      once the loop has stopped. */
  function Run(expr: string, cfg: Config, n: nat): (r: Option<(nat, Scan)>)
    ensures StateValid(expr, r)
  {
    if n == 0 then Some((0, Start)) else Next(expr, cfg, Run(expr, cfg, n - 1))
  }

  /** From `st` the rest of the loop gives the parser's result. */
  predicate Agrees(expr: string, cfg: Config, st: Option<(nat, Scan)>)
    requires StateValid(expr, st)
  {
    st.Some? ==> ParseFrom(expr, cfg, st.value.0, st.value.1) == ParseSpec(expr, cfg)
  }

  /** A pass that goes on leaves the rest of the parse unchanged. */
  lemma NextAgrees(expr: string, cfg: Config, st: Option<(nat, Scan)>)
    requires StateValid(expr, st) && Agrees(expr, cfg, st)
    ensures Agrees(expr, cfg, Next(expr, cfg, st))
  {
    if st.Some? && st.value.0 < |expr| {
      var (i, s) := st.value;
      var o := Step(expr, cfg, i, s);
      if o.Advance? {
        ParseFromAdvance(expr, cfg, i, s, o.next, o.scan);
      }
    }
  }

  /** A pass that goes on from an invariant state keeps the invariant. */
  lemma NextCoherent(expr: string, cfg: Config, st: Option<(nat, Scan)>)
    requires StateValid(expr, st) && (st.Some? ==> Coherent(cfg, st.value.1))
    ensures var r := Next(expr, cfg, st); r.Some? ==> Coherent(cfg, r.value.1)
  {
    if st.Some? && st.value.0 < |expr| {
      StepCoherent(expr, cfg, st.value.0, st.value.1);
    }
  }

  /** The states `Run` visits are the states of the parse: from each of
      them the rest of the loop gives the parser's result. */
  lemma {:induction false} RunAgrees(expr: string, cfg: Config, n: nat)
    ensures Agrees(expr, cfg, Run(expr, cfg, n))
  {
    if n > 0 {
      RunAgrees(expr, cfg, n - 1);
      NextAgrees(expr, cfg, Run(expr, cfg, n - 1));
    }
  }

  /** Every state the loop reaches satisfies the invariant. In particular
      there is never a root without a current node, so the branches at
      lines 127-134 and 212-218 (and the `root` test at line 165) never
      run, and every node on the stack has a delimiter that the table
      knows, so `delimiters.get` at line 144 never falls back to `None`. */
  lemma {:induction false} RunCoherent(expr: string, cfg: Config, n: nat)
    ensures Run(expr, cfg, n).Some? ==>
      var s := Run(expr, cfg, n).value.1;
      && Coherent(cfg, s)
      && (s.root.Some? ==> s.current.Some?)
      && forall j :: 0 <= j < |s.stack| ==>
           var d := s.nodes[s.stack[j]].delimiter; d.Some? && d.value in cfg.delimiters
  {
    if n == 0 {
      StartCoherent(cfg);
    } else {
      RunCoherent(expr, cfg, n - 1);
      NextCoherent(expr, cfg, Run(expr, cfg, n - 1));
    }
    if Run(expr, cfg, n).Some? {
      var s := Run(expr, cfg, n).value.1;
      forall j | 0 <= j < |s.stack|
        ensures var d := s.nodes[s.stack[j]].delimiter; d.Some? && d.value in cfg.delimiters
      {
        assert NodeFits(cfg, s.nodes[s.stack[j]]);
      }
    }
  }

  /** The rest of a parse from an invariant state: a tree that fits the
      configuration, or the blank tree when nothing at all was built. */
  lemma {:induction false} ParseFromCoherent(expr: string, cfg: Config, i: nat, s: Scan)
    requires i <= |expr| && ScanValid(s) && Coherent(cfg, s)
    ensures ParseFrom(expr, cfg, i, s).Ok? ==>
      var t := ParseFrom(expr, cfg, i, s).value;
      if s.root.None? then t == BlankTree || TreeFits(cfg, t) else TreeFits(cfg, t)
    decreases |expr| - i
  {
    if i == |expr| {
      if s.root.Some? {
        assert s.nodes[0].parent.None?;
      }
    } else {
      StepCoherent(expr, cfg, i, s);
      var o := Step(expr, cfg, i, s);
      if o.Advance? {
        ParseFromAdvance(expr, cfg, i, s, o.next, o.scan);
        ParseFromCoherent(expr, cfg, o.next, o.scan);
      }
    }
  }
}
