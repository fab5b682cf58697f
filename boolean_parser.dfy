/** `parse_boolean_expression`: a single left-to-right scan that turns a
    boolean query into a tree of `Node`s.

    The scan is specified one iteration at a time (`Step`, one pass of the
    `while i < length` loop body) and as the whole loop (`ParseFrom`);
    `Parse` is the loop itself, over an `Arena`, and is proved to compute
    `ParseSpec`. */
module BooleanParser {
  import opened Wrappers
  import opened Text
  import opened BooleanTree

  /** The grammar the caller configures: opening delimiter to closing text,
      and the three operator spellings. */
  datatype Config = Config(
    delimiters: map<char, string>,
    andToken: string,
    orToken: string,
    notToken: string)

  /** The default arguments of `parse_boolean_expression` and `process_tree`. */
  const DefaultDelimiters: map<char, string> := map['(' := ")", '"' := "\""]
  const Default: Config := Config(DefaultDelimiters, "&", "|", "-")

  /** `SyntaxError` carries the offending character and its index. An empty
      operator token that matches makes the Python loop spin forever
      without advancing; the model reports that as `Diverges`. */
  datatype ParseError = UnexpectedCharacter(ch: char, position: nat) | Diverges(position: nat)

  /** A parsed tree: the arena and the index of the root. */
  datatype Tree = Tree(nodes: seq<Node>, root: nat)

  /** The scanner's variables besides `i`: every node built so far, `root`,
      `current` and the stack of open-delimiter nodes. */
  datatype Scan = Scan(nodes: seq<Node>, root: Option<nat>, current: Option<nat>, stack: seq<nat>)

  const Start: Scan := Scan([], None, None, [])

  predicate InArena(nodes: seq<Node>, o: Option<nat>)
  {
    o.Some? ==> o.value < |nodes|
  }

  predicate ScanValid(s: Scan)
  {
    && WellFormed(s.nodes)
    && InArena(s.nodes, s.root)
    && InArena(s.nodes, s.current)
    && forall j :: 0 <= j < |s.stack| ==> s.stack[j] < |s.nodes|
  }

  predicate TreeValid(t: Tree)
  {
    WellFormed(t.nodes) && t.root < |t.nodes|
  }

  /** A character the text pattern `[^\s()"]` accepts; the excluded set is
      fixed and does not follow the configured delimiters. */
  predicate IsTextChar(c: char)
  {
    !IsSpace(c) && c != '(' && c != ')' && c != '"'
  }

  /** Length of the match of `[^\s()"]+` at `i` (0 when there is none). */
  function TextRun(expr: string, i: nat): (n: nat)
    requires i <= |expr|
    ensures i + n <= |expr|
    ensures forall k :: i <= k < i + n ==> IsTextChar(expr[k])
    ensures i + n == |expr| || !IsTextChar(expr[i + n])
    decreases |expr| - i
  {
    if i < |expr| && IsTextChar(expr[i]) then 1 + TextRun(expr, i + 1) else 0
  }

  /** `stack and ch == delimiters.get(stack[-1].delimiter, None)` */
  predicate ClosesTop(cfg: Config, s: Scan, ch: char)
    requires ScanValid(s)
  {
    && |s.stack| > 0
    && var d := s.nodes[s.stack[|s.stack| - 1]].delimiter;
       d.Some? && d.value in cfg.delimiters && cfg.delimiters[d.value] == [ch]
  }

  /** The operator table, tried in the fixed order NOT, AND, OR; the first
      token that is a prefix of `rest` wins. */
  function MatchOperator(rest: string, cfg: Config): Option<(Conjunction, nat)>
  {
    if StartsWith(rest, cfg.notToken) then Some((Not, |cfg.notToken|))
    else if StartsWith(rest, cfg.andToken) then Some((And, |cfg.andToken|))
    else if StartsWith(rest, cfg.orToken) then Some((Or, |cfg.orToken|))
    else None
  }

  /** The result of one pass of the loop body. */
  datatype Outcome = Advance(next: nat, scan: Scan) | Fail(error: ParseError)

  /** Links a freshly appended node `k` into an existing tree: under
      `current` by the child-or-end-of-row rule, or, when there is a root
      but no current node, after the last node of the root's row. */
  function Link(nodes: seq<Node>, root: nat, current: Option<nat>, k: nat): seq<Node>
    requires WellFormed(nodes) && root < k && k < |nodes| && (current.Some? ==> current.value < k)
  {
    if current.Some? then AttachUnder(nodes, current.value, k)
    else WithNext(nodes, LastOfChain(nodes, root), k)
  }

  /** Places a freshly built node: it becomes the root of an empty tree,
      and is linked into the tree otherwise. */
  function Place(nodes: seq<Node>, root: Option<nat>, current: Option<nat>, n: Node): (r: (seq<Node>, Option<nat>))
    requires WellFormed(nodes) && InArena(nodes, root) && InArena(nodes, current)
    requires n == Fresh(n.data, n.delimiter)
    ensures |r.0| == |nodes| + 1
    ensures r.1 == if root.None? then Some(|nodes|) else root
  {
    var k := |nodes|;
    AppendFreshWellFormed(nodes, n);
    if root.None? then (nodes + [n], Some(k))
    else
      (Link(nodes + [n], root.value, current, k), root)
  }

  lemma PlaceWellFormed(nodes: seq<Node>, root: Option<nat>, current: Option<nat>, n: Node)
    requires WellFormed(nodes) && InArena(nodes, root) && InArena(nodes, current)
    requires n == Fresh(n.data, n.delimiter)
    ensures WellFormed(Place(nodes, root, current, n).0)
  {
    AppendFreshWellFormed(nodes, n);
    if root.Some? {
      LinkWellFormed(nodes + [n], root.value, current, |nodes|);
    }
  }

  lemma LinkWellFormed(nodes: seq<Node>, root: nat, current: Option<nat>, k: nat)
    requires WellFormed(nodes) && IsNewLast(nodes, k) && root < k
    requires current.Some? ==> current.value < k
    ensures WellFormed(Link(nodes, root, current, k))
    ensures LinksConsistent(nodes) ==> LinksConsistent(Link(nodes, root, current, k))
  {
    if current.Some? {
      AttachUnderWellFormed(nodes, current.value, k);
    } else {
      LastBeforeNew(nodes, root, k);
      WithNextAppends(nodes, LastOfChain(nodes, root), k);
    }
  }

  lemma AttachUnderWellFormed(nodes: seq<Node>, owner: nat, k: nat)
    requires WellFormed(nodes) && IsNewLast(nodes, k) && owner < k
    ensures WellFormed(AttachUnder(nodes, owner, k))
    ensures LinksConsistent(nodes) ==> LinksConsistent(AttachUnder(nodes, owner, k))
  {
    if LinksConsistent(nodes) {
      AttachUnderExtendsRow(nodes, owner, k);
    } else {
      AttachUnderOrdered(nodes, owner, k);
    }
  }

  /** Without the parent bookkeeping, attaching still keeps links forward. */
  lemma AttachUnderOrdered(nodes: seq<Node>, owner: nat, k: nat)
    requires WellFormed(nodes) && IsNewLast(nodes, k) && owner < k
    ensures WellFormed(AttachUnder(nodes, owner, k))
  {
    if nodes[owner].child.None? {
      var r := WithChild(nodes, owner, k);
      forall j | 0 <= j < |r|
        ensures r[j].child.Some? ==> j < r[j].child.value < |r|
        ensures r[j].next.Some? ==> j < r[j].next.value < |r|
        ensures r[j].parent.Some? ==> r[j].parent.value < j
      {
        if j != owner && j != k {
          assert r[j] == nodes[j];
        }
      }
    } else {
      var c := nodes[owner].child.value;
      LastBeforeNew(nodes, c, k);
      WithNextAppends(nodes, LastOfChain(nodes, c), k);
    }
  }

  /** Lines 109-139: an opening delimiter starts a new node, which is
      placed, pushed and made current. */
  function Open(s: Scan, ch: char): Scan
    requires ScanValid(s)
  {
    var placed := Place(s.nodes, s.root, s.current, Fresh(None, Some(ch)));
    var k := |s.nodes|;
    Scan(placed.0, placed.1, Some(k), s.stack + [k])
  }

  /** Lines 146-152: the matching closing delimiter pops the stack; the new
      top becomes current, or the closed node if the stack is now empty. */
  function Close(s: Scan): Scan
    requires ScanValid(s) && |s.stack| > 0
  {
    var closed := s.stack[|s.stack| - 1];
    var rest := s.stack[..|s.stack| - 1];
    s.(stack := rest, current := Some(if |rest| > 0 then rest[|rest| - 1] else closed))
  }

  /** Lines 161-185: an operator sets the conjunction of `current`, which is
      first created as a bare node (and made the root if there is none)
      when there is no current node. */
  function SetConjunction(s: Scan, conj: Conjunction): Scan
    requires ScanValid(s)
  {
    if s.current.Some? then
      s.(nodes := WithConjunction(s.nodes, s.current.value, conj))
    else
      var k := |s.nodes|;
      var nodes := WithConjunction(s.nodes + [Fresh(None, None)], k, conj);
      Scan(nodes, if s.root.None? then Some(k) else s.root, Some(k), s.stack)
  }

  /** Lines 193-218: a text run becomes a data node, which is placed and
      made current. */
  function AddText(s: Scan, text: string): Scan
    requires ScanValid(s)
  {
    var placed := Place(s.nodes, s.root, s.current, Fresh(Some(text), None));
    Scan(placed.0, placed.1, Some(|s.nodes|), s.stack)
  }

  /** One pass of the loop body at index `i`, the five cases in the
      source's order. */
  function Step(expr: string, cfg: Config, i: nat, s: Scan): Outcome
    requires i < |expr| && ScanValid(s)
  {
    var ch := expr[i];
    if IsSpace(ch) then Advance(i + 1, s)
    else if ch in cfg.delimiters then Advance(i + 1, Open(s, ch))
    else if ClosesTop(cfg, s, ch) then Advance(i + 1, Close(s))
    else WordStep(expr, cfg, i, s)
  }

  /** The last two cases: an operator (lines 161-185), else a text run
      (lines 191-219), else the syntax error of line 222. */
  function WordStep(expr: string, cfg: Config, i: nat, s: Scan): Outcome
    requires i < |expr| && ScanValid(s)
  {
    match MatchOperator(expr[i..], cfg)
    case Some((conj, len)) =>
      // an empty token: the Python loop repeats this iteration forever
      if len == 0 then Fail(Diverges(i))
      else Advance(i + len, SetConjunction(s, conj))
    case None => TextStep(expr, i, s)
  }

  function TextStep(expr: string, i: nat, s: Scan): Outcome
    requires i < |expr| && ScanValid(s)
  {
    var n := TextRun(expr, i);
    if n == 0 then Fail(UnexpectedCharacter(expr[i], i))
    else Advance(i + n, AddText(s, expr[i..i + n]))
  }

  lemma OpenValid(s: Scan, ch: char)
    requires ScanValid(s)
    ensures ScanValid(Open(s, ch))
  {
    PlaceWellFormed(s.nodes, s.root, s.current, Fresh(None, Some(ch)));
  }

  lemma CloseValid(s: Scan)
    requires ScanValid(s) && |s.stack| > 0
    ensures ScanValid(Close(s))
  {
  }

  lemma SetConjunctionValid(s: Scan, conj: Conjunction)
    requires ScanValid(s)
    ensures ScanValid(SetConjunction(s, conj))
  {
    if s.current.Some? {
      WithConjunctionKeepsLinks(s.nodes, s.current.value, conj);
    } else {
      AppendFreshWellFormed(s.nodes, Fresh(None, None));
      WithConjunctionKeepsLinks(s.nodes + [Fresh(None, None)], |s.nodes|, conj);
    }
  }

  lemma AddTextValid(s: Scan, text: string)
    requires ScanValid(s)
    ensures ScanValid(AddText(s, text))
  {
    PlaceWellFormed(s.nodes, s.root, s.current, Fresh(Some(text), None));
  }

  /** The five cases of `Step` one by one, so that proofs about a single
      pass can use the case they are in without unfolding the others. */
  lemma StepSkips(expr: string, cfg: Config, i: nat, s: Scan)
    requires i < |expr| && ScanValid(s) && IsSpace(expr[i])
    ensures Step(expr, cfg, i, s) == Advance(i + 1, s)
  {
  }

  lemma StepOpens(expr: string, cfg: Config, i: nat, s: Scan)
    requires i < |expr| && ScanValid(s) && !IsSpace(expr[i]) && expr[i] in cfg.delimiters
    ensures Step(expr, cfg, i, s) == Advance(i + 1, Open(s, expr[i]))
  {
  }

  lemma StepCloses(expr: string, cfg: Config, i: nat, s: Scan)
    requires i < |expr| && ScanValid(s) && !IsSpace(expr[i]) && expr[i] !in cfg.delimiters
    requires ClosesTop(cfg, s, expr[i])
    ensures Step(expr, cfg, i, s) == Advance(i + 1, Close(s))
  {
  }

  lemma StepOperator(expr: string, cfg: Config, i: nat, s: Scan, conj: Conjunction, len: nat)
    requires i < |expr| && ScanValid(s) && !IsSpace(expr[i]) && expr[i] !in cfg.delimiters
    requires !ClosesTop(cfg, s, expr[i]) && MatchOperator(expr[i..], cfg) == Some((conj, len))
    ensures Step(expr, cfg, i, s) == if len == 0 then Fail(Diverges(i)) else Advance(i + len, SetConjunction(s, conj))
  {
  }

  lemma StepText(expr: string, cfg: Config, i: nat, s: Scan, n: nat)
    requires i < |expr| && ScanValid(s) && !IsSpace(expr[i]) && expr[i] !in cfg.delimiters
    requires !ClosesTop(cfg, s, expr[i]) && MatchOperator(expr[i..], cfg).None?
    requires n == TextRun(expr, i)
    ensures n == 0 ==> Step(expr, cfg, i, s) == Fail(UnexpectedCharacter(expr[i], i))
    ensures n > 0 ==> Step(expr, cfg, i, s) == Advance(i + n, AddText(s, expr[i..i + n]))
  {
    assert Step(expr, cfg, i, s) == WordStep(expr, cfg, i, s) == TextStep(expr, i, s);
    TextStepIs(expr, i, s, n);
  }

  lemma TextStepIs(expr: string, i: nat, s: Scan, n: nat)
    requires i < |expr| && ScanValid(s) && n == TextRun(expr, i)
    ensures n == 0 ==> TextStep(expr, i, s) == Fail(UnexpectedCharacter(expr[i], i))
    ensures n > 0 ==> TextStep(expr, i, s) == Advance(i + n, AddText(s, expr[i..i + n]))
  {
  }

  /** Each pass of the loop body moves forward and keeps the scanner's
      variables valid. */
  lemma StepValid(expr: string, cfg: Config, i: nat, s: Scan)
    requires i < |expr| && ScanValid(s)
    ensures Step(expr, cfg, i, s).Advance? ==>
      var o := Step(expr, cfg, i, s);
      i < o.next <= |expr| && ScanValid(o.scan)
  {
    var ch := expr[i];
    if IsSpace(ch) {
      StepSkips(expr, cfg, i, s);
    } else if ch in cfg.delimiters {
      OpenValid(s, ch);
      StepOpens(expr, cfg, i, s);
    } else if ClosesTop(cfg, s, ch) {
      CloseValid(s);
      StepCloses(expr, cfg, i, s);
    } else if MatchOperator(expr[i..], cfg).Some? {
      var (conj, len) := MatchOperator(expr[i..], cfg).value;
      SetConjunctionValid(s, conj);
      StepOperator(expr, cfg, i, s, conj, len);
    } else {
      var n := TextRun(expr, i);
      if n > 0 {
        AddTextValid(s, expr[i..i + n]);
      }
      StepText(expr, cfg, i, s, n);
    }
  }

  /** End of input: an empty tree gets the single node `Node(data="")`;
      delimiters still open are left as they are. */
  function Finish(s: Scan): (t: Tree)
    requires ScanValid(s)
    ensures TreeValid(t)
  {
    if s.root.None? then
      AppendFreshWellFormed(s.nodes, Fresh(Some(""), None));
      Tree(s.nodes + [Fresh(Some(""), None)], |s.nodes|)
    else Tree(s.nodes, s.root.value)
  }

  /** The loop from index `i` on. A syntax error is reported at a position
      the scan reached, holding the character found there, which is always
      one of the three characters the text pattern excludes besides
      whitespace. */
  function ParseFrom(expr: string, cfg: Config, i: nat, s: Scan): Result<Tree, ParseError>
    requires i <= |expr| && ScanValid(s)
    decreases |expr| - i
  {
    if i == |expr| then Ok(Finish(s))
    else match Step(expr, cfg, i, s)
      case Fail(e) => Err(e)
      case Advance(j, s') =>
        StepValid(expr, cfg, i, s);
        ParseFrom(expr, cfg, j, s')
  }

  /** A parse that succeeds yields a well-formed tree; a syntax error is
      reported at a position the scan reached, holding the character found
      there, which is always one of the three characters the text pattern
      excludes besides whitespace. */
  lemma {:induction false} ParseFromSound(expr: string, cfg: Config, i: nat, s: Scan)
    requires i <= |expr| && ScanValid(s)
    ensures var r := ParseFrom(expr, cfg, i, s);
      && (r.Ok? ==> TreeValid(r.value))
      && (r.Err? && r.error.UnexpectedCharacter? ==>
            && i <= r.error.position < |expr|
            && expr[r.error.position] == r.error.ch
            && r.error.ch in ['(', ')', '"'])
      && (r.Err? && r.error.Diverges? ==> i <= r.error.position < |expr|)
    decreases |expr| - i
  {
    if i < |expr| {
      StepValid(expr, cfg, i, s);
      match Step(expr, cfg, i, s)
      case Fail(e) =>
      case Advance(j, s') => ParseFromSound(expr, cfg, j, s');
    }
  }

  lemma ParseFromAdvance(expr: string, cfg: Config, i: nat, s: Scan, j: nat, s': Scan)
    requires i < |expr| && ScanValid(s) && Step(expr, cfg, i, s) == Advance(j, s')
    ensures i < j <= |expr| && ScanValid(s')
    ensures ParseFrom(expr, cfg, i, s) == ParseFrom(expr, cfg, j, s')
  {
    StepValid(expr, cfg, i, s);
  }

  lemma ParseFromFail(expr: string, cfg: Config, i: nat, s: Scan, e: ParseError)
    requires i < |expr| && ScanValid(s) && Step(expr, cfg, i, s) == Fail(e)
    ensures ParseFrom(expr, cfg, i, s) == Err(e)
  {
  }

  /** `parse_boolean_expression(expression, delimiters, AND=, OR=, NOT=)` */
  function ParseSpec(expr: string, cfg: Config): Result<Tree, ParseError>
  {
    ParseFrom(expr, cfg, 0, Start)
  }

  /** Lines 112-134 and 196-218: builds a node in the arena and places it
      as `Place` says. */
  method PlaceNode(arena: Arena, root: Option<nat>, current: Option<nat>,
                   data: Option<string>, delimiter: Option<char>) returns (k: nat, root': Option<nat>)
    requires WellFormed(arena.nodes) && InArena(arena.nodes, root) && InArena(arena.nodes, current)
    modifies arena
    ensures k == |old(arena.nodes)|
    ensures (arena.nodes, root') == Place(old(arena.nodes), root, current, Fresh(data, delimiter))
  {
    ghost var before := arena.nodes;
    k := arena.NewNode(data, delimiter);
    AppendFreshWellFormed(before, Fresh(data, delimiter));
    root' := root;
    if root.None? {
      root' := Some(k);
    } else if current.Some? {
      if arena.nodes[current.value].child.None? {
        arena.SetChild(current.value, k);
      } else {
        var sib := arena.LastSibling(arena.nodes[current.value].child.value);
        arena.SetNext(sib, k);
      }
    } else {
      var temp := arena.LastSibling(root.value);
      arena.SetNext(temp, k);
    }
  }

  /** Lines 109-139 on the arena: see `Open`. */
  method OpenDelimiter(arena: Arena, ch: char, root: Option<nat>, current: Option<nat>, stack: seq<nat>)
    returns (root': Option<nat>, current': Option<nat>, stack': seq<nat>)
    requires ScanValid(Scan(arena.nodes, root, current, stack))
    modifies arena
    ensures Scan(arena.nodes, root', current', stack') == Open(Scan(old(arena.nodes), root, current, stack), ch)
  {
    var k;
    k, root' := PlaceNode(arena, root, current, None, Some(ch));
    stack' := stack + [k];   // push
    current' := Some(k);
  }

  /** Lines 161-185 on the arena: see `SetConjunction`. */
  method MarkConjunction(arena: Arena, conj: Conjunction, root: Option<nat>, current: Option<nat>, stack: seq<nat>)
    returns (root': Option<nat>, current': Option<nat>)
    requires ScanValid(Scan(arena.nodes, root, current, stack))
    modifies arena
    ensures Scan(arena.nodes, root', current', stack) == SetConjunction(Scan(old(arena.nodes), root, current, stack), conj)
  {
    root', current' := root, current;
    if current.None? {
      var k := arena.NewNode(None, None);
      current' := Some(k);
      if root.None? {
        root' := current';
      }
    }
    arena.SetConjunction(current'.value, conj);
  }

  /** Lines 193-218 on the arena: see `AddText`. */
  method AddTextNode(arena: Arena, text: string, root: Option<nat>, current: Option<nat>, stack: seq<nat>)
    returns (root': Option<nat>, current': Option<nat>)
    requires ScanValid(Scan(arena.nodes, root, current, stack))
    modifies arena
    ensures Scan(arena.nodes, root', current', stack) == AddText(Scan(old(arena.nodes), root, current, stack), text)
  {
    var k;
    k, root' := PlaceNode(arena, root, current, Some(text), None);
    current' := Some(k);
  }

  /** Lines 146-152 on the scanner's variables: see `Close`. */
  method CloseDelimiter(stack: seq<nat>) returns (current': Option<nat>, stack': seq<nat>)
    requires |stack| > 0
    ensures stack' == stack[..|stack| - 1]
    ensures current' == Some(if |stack'| > 0 then stack'[|stack'| - 1] else stack[|stack| - 1])
  {
    var closed := stack[|stack| - 1];
    stack' := stack[..|stack| - 1];   // pop
    if |stack'| > 0 {
      current' := Some(stack'[|stack'| - 1]);
    } else {
      current' := Some(closed);
    }
  }

  /** One pass of the loop body over the arena: the syntax error the
      parse ends with, or the new index and variables, as `Step` says. */
  method ScanOne(arena: Arena, expr: string, cfg: Config, i: nat,
                 root: Option<nat>, current: Option<nat>, stack: seq<nat>)
    returns (err: Option<ParseError>, i': nat, root': Option<nat>, current': Option<nat>, stack': seq<nat>)
    requires i < |expr| && ScanValid(Scan(arena.nodes, root, current, stack))
    modifies arena
    ensures Step(expr, cfg, i, Scan(old(arena.nodes), root, current, stack))
      == if err.Some? then Fail(err.value) else Advance(i', Scan(arena.nodes, root', current', stack'))
  {
    ghost var before := Scan(arena.nodes, root, current, stack);
    err, root', current', stack' := None, root, current, stack;
    var ch := expr[i];
    if IsSpace(ch) {
      StepSkips(expr, cfg, i, before);
      i' := i + 1;
    } else if ch in cfg.delimiters {
      StepOpens(expr, cfg, i, before);
      root', current', stack' := OpenDelimiter(arena, ch, root, current, stack);
      i' := i + 1;
    } else if |stack| > 0 && ClosesTop(cfg, Scan(arena.nodes, root, current, stack), ch) {
      StepCloses(expr, cfg, i, before);
      current', stack' := CloseDelimiter(stack);
      i' := i + 1;
    } else {
      err, i', root', current' := ScanWord(arena, expr, cfg, i, root, current, stack);
    }
  }

  /** The last two cases of the loop body: an operator or a text run, or
      the syntax error when neither matches. */
  method ScanWord(arena: Arena, expr: string, cfg: Config, i: nat,
                  root: Option<nat>, current: Option<nat>, stack: seq<nat>)
    returns (err: Option<ParseError>, i': nat, root': Option<nat>, current': Option<nat>)
    requires i < |expr| && ScanValid(Scan(arena.nodes, root, current, stack))
    requires !IsSpace(expr[i]) && expr[i] !in cfg.delimiters
    requires !ClosesTop(cfg, Scan(arena.nodes, root, current, stack), expr[i])
    modifies arena
    ensures Step(expr, cfg, i, Scan(old(arena.nodes), root, current, stack))
      == if err.Some? then Fail(err.value) else Advance(i', Scan(arena.nodes, root', current', stack))
  {
    ghost var before := Scan(arena.nodes, root, current, stack);
    err, root', current' := None, root, current;
    var op := MatchOperator(expr[i..], cfg);
    if op.Some? {
      var (conj, len) := op.value;
      StepOperator(expr, cfg, i, before, conj, len);
      if len == 0 {
        // the Python loop would repeat this iteration forever
        return Some(Diverges(i)), i, root, current;
      }
      root', current' := MarkConjunction(arena, conj, root, current, stack);
      i' := i + len;
    } else {
      var n := TextRun(expr, i);
      StepText(expr, cfg, i, before, n);
      if n == 0 {
        return Some(UnexpectedCharacter(expr[i], i)), i, root, current;
      }
      root', current' := AddTextNode(arena, expr[i..i + n], root, current, stack);
      i' := i + n;
    }
  }

  /** `parse_boolean_expression`, written as the source's loop over a
      mutable arena. */
  method Parse(expr: string, cfg: Config) returns (r: Result<Tree, ParseError>)
    ensures r == ParseSpec(expr, cfg)
  {
    var arena := new Arena();
    var stack: seq<nat> := [];
    var root: Option<nat> := None;
    var current: Option<nat> := None;
    var i := 0;
    while i < |expr|
      invariant i <= |expr|
      invariant ScanValid(Scan(arena.nodes, root, current, stack))
      invariant ParseFrom(expr, cfg, i, Scan(arena.nodes, root, current, stack)) == ParseSpec(expr, cfg)
      decreases |expr| - i
    {
      ghost var before := Scan(arena.nodes, root, current, stack);
      ghost var i0 := i;
      var err;
      err, i, root, current, stack := ScanOne(arena, expr, cfg, i, root, current, stack);
      if err.Some? {
        ParseFromFail(expr, cfg, i0, before, err.value);
        return Err(err.value);
      }
      ParseFromAdvance(expr, cfg, i0, before, i, Scan(arena.nodes, root, current, stack));
    }
    if root.None? {
      var k := arena.NewNode(Some(""), None);
      root := Some(k);
    }
    r := Ok(Tree(arena.nodes, root.value));
  }
}
