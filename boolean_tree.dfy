/** The node type of the boolean-expression parse tree and its two linking
    operations, `set_child` and `set_next`.

    Nodes live in an arena: a node is addressed by its index in a sequence
    of `Node` records, and the `child`, `next` and `parent` references of
    the Python objects become optional indices. Nodes are only ever
    appended, and only a freshly appended node is ever linked under an
    older one, so every `child` and `next` index is larger than the index
    of its owner and every `parent` index is smaller (`WellFormed`). */
module BooleanTree {
  import opened Wrappers
  import Text

  /** `Conjunction`: the relation from a node to what is parsed after it. */
  datatype Conjunction = Missing | And | Or | Not

  /** `Conjunction.name` */
  function Name(c: Conjunction): string
  {
    match c
    case Missing => "MISSING"
    case And => "AND"
    case Or => "OR"
    case Not => "NOT"
  }

  /** One `Node` object. `data` is the text payload (the parser only ever
      stores strings there), `delimiter` the opening character that
      started the node. */
  datatype Node = Node(
    data: Option<string>,
    delimiter: Option<char>,
    child: Option<nat>,
    next: Option<nat>,
    parent: Option<nat>,
    conjunction: Conjunction)

  /** `Node(data, delimiter)`: no links and conjunction `MISSING`. */
  function Fresh(data: Option<string>, delimiter: Option<char>): Node
  {
    Node(data, delimiter, None, None, None, Missing)
  }

  /** The arena invariant: links point forward, back-references backward. */
  predicate WellFormed(nodes: seq<Node>)
  {
    forall k :: 0 <= k < |nodes| ==>
      && (nodes[k].child.Some? ==> k < nodes[k].child.value < |nodes|)
      && (nodes[k].next.Some? ==> k < nodes[k].next.value < |nodes|)
      && (nodes[k].parent.Some? ==> nodes[k].parent.value < k)
  }

  /** The bookkeeping `set_child` and `set_next` keep: a child's parent is
      its owner, and a sibling has the same parent as the node it was
      appended to. */
  predicate LinksConsistent(nodes: seq<Node>)
    requires WellFormed(nodes)
  {
    forall k :: 0 <= k < |nodes| ==>
      && (nodes[k].child.Some? ==> nodes[nodes[k].child.value].parent == Some(k))
      && (nodes[k].next.Some? ==> nodes[nodes[k].next.value].parent == nodes[k].parent)
  }

  /** `p.set_child(c)`: `p.child = c` and then `c.parent = p`. */
  function WithChild(nodes: seq<Node>, p: nat, c: nat): (r: seq<Node>)
    requires p < |nodes| && c < |nodes|
    ensures |r| == |nodes|
    ensures p != c ==> r[p] == nodes[p].(child := Some(c)) && r[c] == nodes[c].(parent := Some(p))
    ensures p == c ==> r[p] == nodes[p].(child := Some(c), parent := Some(p))
    ensures forall k :: 0 <= k < |r| && k != p && k != c ==> r[k] == nodes[k]
  {
    var owner := nodes[p := nodes[p].(child := Some(c))];
    owner[c := owner[c].(parent := Some(p))]
  }

  /** `s.set_next(n)`: `s.next = n` and then `n.parent = s.parent`, the
      parent of `s` and not `s` itself. */
  function WithNext(nodes: seq<Node>, s: nat, n: nat): (r: seq<Node>)
    requires s < |nodes| && n < |nodes|
    ensures |r| == |nodes|
    ensures s != n ==> r[s] == nodes[s].(next := Some(n)) && r[n] == nodes[n].(parent := nodes[s].parent)
    ensures s == n ==> r[s] == nodes[s].(next := Some(n))
    ensures forall k :: 0 <= k < |r| && k != s && k != n ==> r[k] == nodes[k]
  {
    var owner := nodes[s := nodes[s].(next := Some(n))];
    owner[n := owner[n].(parent := nodes[s].parent)]
  }

  /** `node.conjunction = c` */
  function WithConjunction(nodes: seq<Node>, k: nat, c: Conjunction): (r: seq<Node>)
    requires k < |nodes|
    ensures |r| == |nodes| && r[k] == nodes[k].(conjunction := c)
    ensures forall j :: 0 <= j < |r| && j != k ==> r[j] == nodes[j]
  {
    nodes[k := nodes[k].(conjunction := c)]
  }

  /** Setting a conjunction changes no link. */
  lemma WithConjunctionKeepsLinks(nodes: seq<Node>, k: nat, c: Conjunction)
    requires WellFormed(nodes) && k < |nodes|
    ensures WellFormed(WithConjunction(nodes, k, c))
    ensures LinksConsistent(nodes) ==> LinksConsistent(WithConjunction(nodes, k, c))
  {
    var r := WithConjunction(nodes, k, c);
    assert forall j :: 0 <= j < |r| ==>
      r[j].child == nodes[j].child && r[j].next == nodes[j].next && r[j].parent == nodes[j].parent;
  }

  /** The row that starts at `k`: `k`, `k.next`, `k.next.next`, ... */
  function Chain(nodes: seq<Node>, k: nat): (c: seq<nat>)
    requires WellFormed(nodes) && k < |nodes|
    ensures |c| >= 1 && c[0] == k
    ensures forall j :: 0 <= j < |c| ==> k <= c[j] < |nodes|
    ensures forall j :: 0 <= j < |c| - 1 ==> nodes[c[j]].next == Some(c[j + 1])
    ensures nodes[c[|c| - 1]].next.None?
    decreases |nodes| - k
  {
    if nodes[k].next.None? then [k]
    else [k] + Chain(nodes, nodes[k].next.value)
  }

  /** The last node of the row that starts at `k` (the `while sib.next`
      walk). */
  function LastOfChain(nodes: seq<Node>, k: nat): (last: nat)
    requires WellFormed(nodes) && k < |nodes|
    ensures k <= last < |nodes| && nodes[last].next.None?
    ensures last == Chain(nodes, k)[|Chain(nodes, k)| - 1]
    decreases |nodes| - k
  {
    if nodes[k].next.None? then k
    else LastOfChain(nodes, nodes[k].next.value)
  }

  /** The attachment rule of the parser for a freshly appended node `k`
      under `owner`: it becomes `owner`'s child if `owner` has none, and is
      otherwise appended after the last node of the child's row. */
  function AttachUnder(nodes: seq<Node>, owner: nat, k: nat): seq<Node>
    requires WellFormed(nodes) && owner < k < |nodes|
  {
    if nodes[owner].child.None? then WithChild(nodes, owner, k)
    else WithNext(nodes, LastOfChain(nodes, nodes[owner].child.value), k)
  }

  /** A node that was just appended has no links and nothing links to it. */
  predicate IsNewLast(nodes: seq<Node>, k: nat)
  {
    && k + 1 == |nodes|
    && nodes[k].child.None? && nodes[k].next.None? && nodes[k].parent.None?
    && forall j :: 0 <= j < k ==> nodes[j].child != Some(k) && nodes[j].next != Some(k)
  }

  /** The last node of a row that starts before a new node is not that node. */
  lemma LastBeforeNew(nodes: seq<Node>, c: nat, k: nat)
    requires WellFormed(nodes) && IsNewLast(nodes, k) && c < k
    ensures LastOfChain(nodes, c) < k
  {
    var ch := Chain(nodes, c);
    if |ch| > 1 {
      assert nodes[ch[|ch| - 2]].next == Some(ch[|ch| - 1]);
    }
  }

  lemma AppendFreshWellFormed(nodes: seq<Node>, n: Node)
    requires WellFormed(nodes)
    requires n.child.None? && n.next.None? && n.parent.None?
    ensures WellFormed(nodes + [n]) && IsNewLast(nodes + [n], |nodes|)
    ensures LinksConsistent(nodes) ==> LinksConsistent(nodes + [n])
  {
    var r := nodes + [n];
    forall k | 0 <= k < |nodes| ensures r[k] == nodes[k] { }
  }

  /** `WithNext` that appends a new node at the end of a row keeps the arena
      well formed and the rest of the row as it was. */
  lemma WithNextAppends(nodes: seq<Node>, s: nat, k: nat)
    requires WellFormed(nodes) && IsNewLast(nodes, k) && s < k && nodes[s].next.None?
    ensures WellFormed(WithNext(nodes, s, k))
    ensures LinksConsistent(nodes) ==> LinksConsistent(WithNext(nodes, s, k))
  {
    var r := WithNext(nodes, s, k);
    if LinksConsistent(nodes) {
      forall j | 0 <= j < |r|
        ensures r[j].child.Some? ==> r[r[j].child.value].parent == Some(j)
        ensures r[j].next.Some? ==> r[r[j].next.value].parent == r[j].parent
      {
        if j != s && j != k {
          assert r[j] == nodes[j];
          if r[j].child.Some? { assert r[j].child.value < k; }
          if r[j].next.Some? { assert r[j].next.value < k; }
        }
      }
    }
  }

  /** Attaching a new node keeps the arena well formed and consistent, and
      the new node ends up as the last node of `owner`'s child row: the
      row is the old one (empty if `owner` had no child) followed by `k`,
      and `k`'s parent is `owner`'s child's parent. */
  lemma {:induction false} AttachUnderExtendsRow(nodes: seq<Node>, owner: nat, k: nat)
    requires WellFormed(nodes) && IsNewLast(nodes, k) && owner < k
    requires LinksConsistent(nodes)
    ensures WellFormed(AttachUnder(nodes, owner, k))
    ensures LinksConsistent(AttachUnder(nodes, owner, k))
    ensures var r := AttachUnder(nodes, owner, k);
      && r[owner].child.Some?
      && Chain(r, r[owner].child.value)
         == (if nodes[owner].child.None? then [] else Chain(nodes, nodes[owner].child.value)) + [k]
      && r[k].parent == Some(owner)
  {
    if nodes[owner].child.None? {
      AttachFirstChild(nodes, owner, k);
    } else {
      AttachAfterLast(nodes, owner, k);
    }
  }

  /** `owner.set_child(k)` for an owner without a child. */
  lemma AttachFirstChild(nodes: seq<Node>, owner: nat, k: nat)
    requires WellFormed(nodes) && IsNewLast(nodes, k) && owner < k
    requires LinksConsistent(nodes) && nodes[owner].child.None?
    ensures var r := WithChild(nodes, owner, k);
      && WellFormed(r) && LinksConsistent(r)
      && r[owner].child == Some(k) && Chain(r, k) == [k] && r[k].parent == Some(owner)
  {
    var r := WithChild(nodes, owner, k);
    forall j | 0 <= j < |r|
      ensures r[j].child.Some? ==> j < r[j].child.value < |r| && r[r[j].child.value].parent == Some(j)
      ensures r[j].next.Some? ==> j < r[j].next.value < |r| && r[r[j].next.value].parent == r[j].parent
      ensures r[j].parent.Some? ==> r[j].parent.value < j
    {
      if j != owner && j != k {
        assert r[j] == nodes[j];
        if r[j].child.Some? { assert r[j].child.value < k; }
        if r[j].next.Some? { assert r[j].next.value < k; }
      }
    }
    assert Chain(r, k) == [k];
  }

  /** `sib.set_next(k)` for the last node `sib` of `owner`'s child row. */
  lemma AttachAfterLast(nodes: seq<Node>, owner: nat, k: nat)
    requires WellFormed(nodes) && IsNewLast(nodes, k) && owner < k
    requires LinksConsistent(nodes) && nodes[owner].child.Some?
    ensures var c := nodes[owner].child.value;
      var r := WithNext(nodes, LastOfChain(nodes, c), k);
      && WellFormed(r) && LinksConsistent(r)
      && r[owner].child == Some(c) && Chain(r, c) == Chain(nodes, c) + [k] && r[k].parent == Some(owner)
  {
    var c := nodes[owner].child.value;
    var last := LastOfChain(nodes, c);
    LastBeforeNew(nodes, c, k);
    WithNextAppends(nodes, last, k);
    ChainThroughAppend(nodes, c, k);
    ParentAlongChain(nodes, c, Chain(nodes, c), |Chain(nodes, c)| - 1);
  }

  /** Every node of a row has the parent of the row's first node. */
  lemma {:induction false} ParentAlongChain(nodes: seq<Node>, k: nat, c: seq<nat>, j: nat)
    requires WellFormed(nodes) && LinksConsistent(nodes) && k < |nodes|
    requires c == Chain(nodes, k) && j < |c|
    ensures nodes[c[j]].parent == nodes[k].parent
  {
    if j > 0 {
      ParentAlongChain(nodes, k, c, j - 1);
    }
  }

  /** Appending `k` after the last node of the row starting at `c` extends
      that row by `k` and nothing else. */
  lemma {:induction false} ChainThroughAppend(nodes: seq<Node>, c: nat, k: nat)
    requires WellFormed(nodes) && IsNewLast(nodes, k) && c < k
    ensures var r := WithNext(nodes, LastOfChain(nodes, c), k);
      WellFormed(r) && Chain(r, c) == Chain(nodes, c) + [k]
    decreases k - c
  {
    var last := LastOfChain(nodes, c);
    LastBeforeNew(nodes, c, k);
    WithNextAppends(nodes, last, k);
    var r := WithNext(nodes, last, k);
    if nodes[c].next.None? {
      assert last == c;
      assert Chain(r, k) == [k];
    } else {
      var n := nodes[c].next.value;
      assert c != last;
      assert r[c] == nodes[c];
      assert LastOfChain(nodes, n) == last;
      ChainThroughAppend(nodes, n, k);
      assert Chain(r, c) == [c] + Chain(r, n);
      assert Chain(nodes, c) == [c] + Chain(nodes, n);
      Text.ConcatAssoc([c], Chain(nodes, n), [k]);
    }
  }

  /** The arena behind the parser: one mutable sequence of nodes, changed
      in place by the linking operations exactly as `Node`'s methods change
      the Python objects. */
  class Arena {
    var nodes: seq<Node>

    constructor ()
      ensures nodes == []
    {
      nodes := [];
    }

    /** `Node(data=..., delimiter=...)`: the new node gets the next index. */
    method NewNode(data: Option<string>, delimiter: Option<char>) returns (k: nat)
      modifies this
      ensures k == |old(nodes)| && nodes == old(nodes) + [Fresh(data, delimiter)]
    {
      k := |nodes|;
      nodes := nodes + [Fresh(data, delimiter)];
    }

    /** `Node.set_child` */
    method SetChild(p: nat, c: nat)
      requires p < |nodes| && c < |nodes|
      modifies this
      ensures nodes == WithChild(old(nodes), p, c)
    {
      nodes := nodes[p := nodes[p].(child := Some(c))];
      nodes := nodes[c := nodes[c].(parent := Some(p))];
    }

    /** `Node.set_next` */
    method SetNext(s: nat, n: nat)
      requires s < |nodes| && n < |nodes|
      modifies this
      ensures nodes == WithNext(old(nodes), s, n)
    {
      var owner := nodes[s].parent;
      nodes := nodes[s := nodes[s].(next := Some(n))];
      nodes := nodes[n := nodes[n].(parent := owner)];
    }

    /** `node.conjunction = c` */
    method SetConjunction(k: nat, c: Conjunction)
      requires k < |nodes|
      modifies this
      ensures nodes == WithConjunction(old(nodes), k, c)
    {
      nodes := nodes[k := nodes[k].(conjunction := c)];
    }

    /** `sib = start; while sib.next: sib = sib.next` */
    method LastSibling(start: nat) returns (sib: nat)
      requires WellFormed(nodes) && start < |nodes|
      ensures sib == LastOfChain(nodes, start)
      ensures start <= sib < |nodes| && nodes[sib].next.None?
    {
      sib := start;
      while nodes[sib].next.Some?
        invariant start <= sib < |nodes|
        invariant LastOfChain(nodes, sib) == LastOfChain(nodes, start)
        decreases |nodes| - sib
      {
        sib := nodes[sib].next.value;
      }
    }
  }
}
