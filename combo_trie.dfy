/**
 * The moveset graph as an arena: node Root (index 0) is the empty starting
 * point, every other node carries the row of the moveset table it was built
 * from. A node's children are arena indices in the order they were appended;
 * its parent is an arena index too.
 *
 * This module holds the value-level definitions the graph class is proved
 * against: the structural invariant the builder keeps, the fast search as a
 * function, and the lemmas about both.
 */
module ComboTrie {
  import opened Wrappers
  import opened AttackActions
  import opened MovesetTable

  /** One graph node: parentNode, childrenNodes and attackData (a row index). */
  datatype Node = Node(parent: Option<nat>, children: seq<nat>, attackData: Option<nat>)

  const Root: nat := 0

  /** The root as the builder creates it: no parent, no children, no attack. */
  const RootNode: Node := Node(None, [], None)

  /** The result of a search: a node, null, or a step the source does not define. */
  datatype Lookup = Found(node: nat) | NotFound | Fault

  /**
   * The attack chain of node i: its row's required sequence, empty for the
   * root. A row index outside the table also gives the empty chain here;
   * WellFormed rules that case out for every non-root node (Linked).
   */
  function Chain(nodes: seq<Node>, table: seq<Row>, i: nat): seq<AttackType>
    requires i < |nodes|
  {
    match nodes[i].attackData
    case None => []
    case Some(r) => if r < |table| then table[r].requiredSequenceToActivateAttack else []
  }

  /** The parent's index, Root when the node has none. */
  function ParentOf(nodes: seq<Node>, i: nat): nat
    requires i < |nodes|
  {
    match nodes[i].parent
    case None => Root
    case Some(p) => p
  }

  /**
   * The row index a node carries (0 for the root, which carries none). So
   * "no row" and row 0 look alike in ChildRows and NodeRows; this is harmless
   * because those only list non-root nodes, each of which carries a row of
   * the table when the arena is WellFormed (Linked).
   */
  function RowOf(node: Node): nat
  {
    match node.attackData
    case None => 0
    case Some(r) => r
  }

  /**
   * Non-root node i carries a row, its parent was created before it, lists it
   * among its children, and holds the previous chain.
   */
  ghost predicate Linked(nodes: seq<Node>, table: seq<Row>, i: nat)
    requires 1 <= i < |nodes|
  {
    && nodes[i].attackData.Some? && nodes[i].attackData.value < |table|
    && nodes[i].parent.Some? && ParentOf(nodes, i) < i
    && i in nodes[ParentOf(nodes, i)].children
    && |Chain(nodes, table, i)| >= 1
    && Chain(nodes, table, ParentOf(nodes, i)) == ParentChain(Chain(nodes, table, i))
  }

  /** The k-th child of node i is a node of the arena whose parent is i. */
  ghost predicate ChildLinked(nodes: seq<Node>, i: nat, k: nat)
    requires i < |nodes| && k < |nodes[i].children|
  {
    nodes[i].children[k] < |nodes| && nodes[nodes[i].children[k]].parent == Some(i)
  }

  /** The parent/child structure of the graph. */
  ghost predicate WellFormed(nodes: seq<Node>, table: seq<Row>)
  {
    && |nodes| >= 1
    && nodes[Root].parent.None? && nodes[Root].attackData.None?
    && (forall i :: 1 <= i < |nodes| ==> Linked(nodes, table, i))
    && (forall i, k :: 0 <= i < |nodes| && 0 <= k < |nodes[i].children| ==> ChildLinked(nodes, i, k))
    && (forall i {:trigger StrictlyIncreasing(nodes[i].children)} :: 0 <= i < |nodes| ==> StrictlyIncreasing(nodes[i].children))
  }

  /** Nodes with the same chain hang under the same parent. */
  ghost predicate DuplicatesAreSiblings(nodes: seq<Node>, table: seq<Row>)
  {
    forall i, j :: 1 <= i < |nodes| && 1 <= j < |nodes| && Chain(nodes, table, i) == Chain(nodes, table, j) ==>
      ParentOf(nodes, i) == ParentOf(nodes, j)
  }

  /** Of several siblings with the same chain only the first can have children. */
  ghost predicate OnlyFirstDuplicateHasChildren(nodes: seq<Node>, table: seq<Row>)
  {
    forall i, j ::
      (1 <= j < i < |nodes| && ParentOf(nodes, j) == ParentOf(nodes, i) && Chain(nodes, table, j) == Chain(nodes, table, i))
      ==> nodes[i].children == []
  }

  /** What the builder keeps true of the graph at every step. */
  ghost predicate TrieInvariant(nodes: seq<Node>, table: seq<Row>)
  {
    WellFormed(nodes, table) && DuplicatesAreSiblings(nodes, table) && OnlyFirstDuplicateHasChildren(nodes, table)
  }

  /** The chain of the k-th child of node p. */
  function ChildChain(nodes: seq<Node>, table: seq<Row>, p: nat, k: nat): seq<AttackType>
    requires WellFormed(nodes, table) && p < |nodes| && k < |nodes[p].children|
  {
    assert ChildLinked(nodes, p, k);
    Chain(nodes, table, nodes[p].children[k])
  }

  /** The rows carried by the children of node p, in children order. */
  function ChildRows(nodes: seq<Node>, p: nat): seq<nat>
    requires p < |nodes|
  {
    var children := nodes[p].children;
    seq(|children|, k requires 0 <= k < |children| =>
      if children[k] < |nodes| then RowOf(nodes[children[k]]) else 0)
  }

  /** Every node's children carry rows in increasing table order. */
  ghost predicate ChildrenInRowOrder(nodes: seq<Node>)
  {
    forall i :: 0 <= i < |nodes| ==> StrictlyIncreasing(ChildRows(nodes, i))
  }

  /** The rows carried by the non-root nodes, in arena order. */
  function NodeRows(nodes: seq<Node>): seq<nat>
    requires |nodes| >= 1
  {
    seq(|nodes| - 1, k requires 0 <= k < |nodes| - 1 => RowOf(nodes[k + 1]))
  }

  /** The graph after a new node carrying row r is appended to the children of p. */
  function WithChild(nodes: seq<Node>, p: nat, r: nat): seq<Node>
    requires p < |nodes|
  {
    nodes[p := nodes[p].(children := nodes[p].children + [|nodes|])] + [Node(Some(p), [], Some(r))]
  }

  // ----- structural facts -------------------------------------------------

  /** A child is a non-root node one input deeper than its parent. */
  lemma ChildExtendsParent(nodes: seq<Node>, table: seq<Row>, p: nat, k: nat)
    requires WellFormed(nodes, table) && p < |nodes| && k < |nodes[p].children|
    ensures var c := nodes[p].children[k];
      && 1 <= c < |nodes| && p < c && ParentOf(nodes, c) == p
      && |Chain(nodes, table, c)| == |Chain(nodes, table, p)| + 1
      && ParentChain(Chain(nodes, table, c)) == Chain(nodes, table, p)
  {
    assert ChildLinked(nodes, p, k);
    var c := nodes[p].children[k];
    assert c != Root;
    assert Linked(nodes, table, c);
  }

  /** Only the root has the empty chain. */
  lemma OnlyRootHasEmptyChain(nodes: seq<Node>, table: seq<Row>, i: nat)
    requires WellFormed(nodes, table) && i < |nodes|
    ensures Chain(nodes, table, i) == [] <==> i == Root
  {
    if i != Root {
      assert Linked(nodes, table, i);
    }
  }

  /** Exactly the nodes of one input hang directly under the root. */
  lemma RootChildrenHaveOneInput(nodes: seq<Node>, table: seq<Row>, i: nat)
    requires WellFormed(nodes, table) && 1 <= i < |nodes|
    ensures ParentOf(nodes, i) == Root <==> |Chain(nodes, table, i)| == 1
  {
    assert Linked(nodes, table, i);
    OnlyRootHasEmptyChain(nodes, table, ParentOf(nodes, i));
  }

  /** A root without children means a graph without attacks. */
  lemma ChildlessRootMeansNoAttacks(nodes: seq<Node>, table: seq<Row>)
    requires WellFormed(nodes, table) && nodes[Root].children == []
    ensures |nodes| == 1
  {
    assert |nodes| > 1 ==> Linked(nodes, table, 1);
  }

  /** Row x of the table is carried by some node iff it is listed in NodeRows. */
  lemma NodeRowsListCarriedRows(nodes: seq<Node>, table: seq<Row>, x: nat)
    requires WellFormed(nodes, table)
    ensures x in NodeRows(nodes) ==>
      exists i :: 1 <= i < |nodes| && nodes[i].attackData == Some(x)
        && x < |table| && Chain(nodes, table, i) == table[x].requiredSequenceToActivateAttack
    ensures forall i :: 1 <= i < |nodes| && nodes[i].attackData == Some(x) ==> x in NodeRows(nodes)
  {
    var rows := NodeRows(nodes);
    if x in rows {
      var k :| 0 <= k < |rows| && rows[k] == x;
      assert Linked(nodes, table, k + 1);
    }
    forall i | 1 <= i < |nodes| && nodes[i].attackData == Some(x) ensures x in rows {
      assert rows[i - 1] == x;
    }
  }

  /** If a graph carries every row with a non-empty chain, every row is reachable. */
  lemma {:induction false} CarryingAllRowsMeansReachable(nodes: seq<Node>, table: seq<Row>)
    requires WellFormed(nodes, table)
    requires forall x: nat :: x < |table| && ChainLength(table[x]) >= 1 ==> x in NodeRows(nodes)
    ensures AllReachable(table)
  {
    forall r: nat | r < |table| ensures !Unreachable(table, r) {
      if ChainLength(table[r]) >= 2 {
        NodeRowsListCarriedRows(nodes, table, r);
        var i :| 1 <= i < |nodes| && nodes[i].attackData == Some(r)
          && Chain(nodes, table, i) == table[r].requiredSequenceToActivateAttack;
        assert Linked(nodes, table, i);
        var p := ParentOf(nodes, i);
        OnlyRootHasEmptyChain(nodes, table, p);
        assert Linked(nodes, table, p);
        var q := nodes[p].attackData.value;
        assert table[q].requiredSequenceToActivateAttack == ParentChain(table[r].requiredSequenceToActivateAttack);
      }
    }
  }

  // ----- appending a node -------------------------------------------------

  /** Appending a child keeps every old node's chain and parent. */
  lemma WithChildKeepsOldNodes(nodes: seq<Node>, table: seq<Row>, p: nat, r: nat)
    requires p < |nodes|
    ensures var grown := WithChild(nodes, p, r);
      && |grown| == |nodes| + 1
      && (forall i :: 0 <= i < |nodes| ==>
            Chain(grown, table, i) == Chain(nodes, table, i) && ParentOf(grown, i) == ParentOf(nodes, i)
            && grown[i].attackData == nodes[i].attackData && grown[i].parent == nodes[i].parent)
      && (forall i :: 0 <= i < |nodes| && i != p ==> grown[i].children == nodes[i].children)
      && grown[p].children == nodes[p].children + [|nodes|]
      && grown[|nodes|] == Node(Some(p), [], Some(r))
  {
  }

  /** Appending a child that extends its parent's chain keeps the structure well formed. */
  lemma AttachKeepsWellFormed(nodes: seq<Node>, table: seq<Row>, p: nat, r: nat)
    requires WellFormed(nodes, table) && p < |nodes| && r < |table|
    requires ChainLength(table[r]) >= 1
    requires Chain(nodes, table, p) == ParentChain(table[r].requiredSequenceToActivateAttack)
    ensures WellFormed(WithChild(nodes, p, r), table)
    ensures Chain(WithChild(nodes, p, r), table, |nodes|) == table[r].requiredSequenceToActivateAttack
    ensures NodeRows(WithChild(nodes, p, r)) == NodeRows(nodes) + [r]
  {
    var grown := WithChild(nodes, p, r);
    var n := |nodes|;
    WithChildKeepsOldNodes(nodes, table, p, r);
    forall i | 1 <= i < |grown| ensures Linked(grown, table, i) {
      if i < n {
        assert Linked(nodes, table, i);
        assert i in grown[ParentOf(nodes, i)].children;
      }
    }
    forall i, k | 0 <= i < |grown| && 0 <= k < |grown[i].children| ensures ChildLinked(grown, i, k) {
      if i == p && k == |nodes[p].children| {
      } else if i < n {
        assert ChildLinked(nodes, i, k);
      }
    }
    forall i | 0 <= i < |grown| ensures StrictlyIncreasing(grown[i].children) {
      if i == p {
        assert StrictlyIncreasing(nodes[p].children);
        forall k | 0 <= k < |nodes[p].children| ensures nodes[p].children[k] < n {
          assert ChildLinked(nodes, p, k);
        }
      } else if i < n {
        assert StrictlyIncreasing(nodes[i].children);
      }
    }
    assert NodeRows(grown) == NodeRows(nodes) + [r];
  }

  /**
   * Appending under the first of its equal siblings (the node the breadth-first
   * search returns) keeps duplicate chains under one parent.
   */
  lemma AttachKeepsTrieInvariant(nodes: seq<Node>, table: seq<Row>, p: nat, r: nat)
    requires TrieInvariant(nodes, table) && p < |nodes| && r < |table|
    requires ChainLength(table[r]) >= 1
    requires Chain(nodes, table, p) == ParentChain(table[r].requiredSequenceToActivateAttack)
    requires forall j :: 1 <= j < p && ParentOf(nodes, j) == ParentOf(nodes, p) ==>
      Chain(nodes, table, j) != Chain(nodes, table, p)
    ensures TrieInvariant(WithChild(nodes, p, r), table)
  {
    AttachKeepsWellFormed(nodes, table, p, r);
    AttachKeepsDuplicatesSiblings(nodes, table, p, r);
    AttachKeepsOnlyFirstDuplicateParent(nodes, table, p, r);
  }

  /** The new node's equal-chain nodes already hang under its parent p. */
  lemma AttachKeepsDuplicatesSiblings(nodes: seq<Node>, table: seq<Row>, p: nat, r: nat)
    requires TrieInvariant(nodes, table) && p < |nodes| && r < |table|
    requires ChainLength(table[r]) >= 1
    requires Chain(nodes, table, p) == ParentChain(table[r].requiredSequenceToActivateAttack)
    requires forall j :: 1 <= j < p && ParentOf(nodes, j) == ParentOf(nodes, p) ==>
      Chain(nodes, table, j) != Chain(nodes, table, p)
    ensures DuplicatesAreSiblings(WithChild(nodes, p, r), table)
  {
    var grown := WithChild(nodes, p, r);
    var n := |nodes|;
    var chain := table[r].requiredSequenceToActivateAttack;
    WithChildKeepsOldNodes(nodes, table, p, r);
    assert ParentOf(grown, n) == p && Chain(grown, table, n) == chain;
    forall j | 1 <= j < n && Chain(nodes, table, j) == chain ensures ParentOf(nodes, j) == p {
      assert Linked(nodes, table, j);
      var pj := ParentOf(nodes, j);
      assert Chain(nodes, table, pj) == Chain(nodes, table, p);
      OnlyRootHasEmptyChain(nodes, table, p);
      OnlyRootHasEmptyChain(nodes, table, pj);
    }
    forall i, j | 1 <= i < |grown| && 1 <= j < |grown| && Chain(grown, table, i) == Chain(grown, table, j)
      ensures ParentOf(grown, i) == ParentOf(grown, j)
    {
    }
  }

  /**
   * Appending under the first of its equal siblings (the node the breadth-first
   * search returns) leaves the later equal siblings childless.
   */
  lemma AttachKeepsOnlyFirstDuplicateParent(nodes: seq<Node>, table: seq<Row>, p: nat, r: nat)
    requires TrieInvariant(nodes, table) && p < |nodes|
    requires forall j :: 1 <= j < p && ParentOf(nodes, j) == ParentOf(nodes, p) ==>
      Chain(nodes, table, j) != Chain(nodes, table, p)
    ensures OnlyFirstDuplicateHasChildren(WithChild(nodes, p, r), table)
  {
    var grown := WithChild(nodes, p, r);
    var n := |nodes|;
    WithChildKeepsOldNodes(nodes, table, p, r);
    forall i, j | 1 <= j < i < |grown| && ParentOf(grown, j) == ParentOf(grown, i)
      && Chain(grown, table, j) == Chain(grown, table, i)
      ensures grown[i].children == []
    {
      if i < n && i != p {
        assert nodes[i].children == [];
      }
    }
  }

  /** Appending a child whose row comes after its siblings' rows keeps children in row order. */
  lemma AttachKeepsRowOrder(nodes: seq<Node>, table: seq<Row>, p: nat, r: nat)
    requires WellFormed(nodes, table) && ChildrenInRowOrder(nodes) && p < |nodes|
    requires forall k :: 0 <= k < |nodes[p].children| ==> ChildRows(nodes, p)[k] < r
    ensures ChildrenInRowOrder(WithChild(nodes, p, r))
  {
    var grown := WithChild(nodes, p, r);
    var n := |nodes|;
    forall i | 0 <= i < |grown| ensures StrictlyIncreasing(ChildRows(grown, i)) {
      if i < n {
        assert StrictlyIncreasing(ChildRows(nodes, i));
        var children := nodes[i].children;
        forall k | 0 <= k < |children| ensures ChildRows(grown, i)[k] == ChildRows(nodes, i)[k] {
          assert ChildLinked(nodes, i, k);
        }
        if i == p {
          assert ChildRows(grown, i) == ChildRows(nodes, i) + [r];
        } else {
          assert ChildRows(grown, i) == ChildRows(nodes, i);
        }
      }
    }
  }

  // ----- the fast search --------------------------------------------------

  /**
   * The search loop from child position k of `node` at index `depth`: compare
   * each child's symbol at `depth` with the query's; on a match return the
   * child at the query's last index, otherwise descend one level and rescan.
   * Reading past the end of either chain is a Fault.
   */
  function ScanChildren(nodes: seq<Node>, table: seq<Row>, q: seq<AttackType>, node: nat, depth: nat, k: nat): (r: Lookup)
    requires WellFormed(nodes, table) && node < |nodes| && k <= |nodes[node].children|
    decreases |q| - depth, |nodes[node].children| - k
    ensures r.Found? ==> 1 <= r.node < |nodes|
    ensures r.Found? ==>
      (|q| >= 1 && |Chain(nodes, table, r.node)| >= |q| && Chain(nodes, table, r.node)[|q| - 1] == q[|q| - 1])
  {
    if k == |nodes[node].children| then NotFound
    else
      var child := nodes[node].children[k];
      var chain := ChildChain(nodes, table, node, k);
      ChildExtendsParent(nodes, table, node, k);
      if depth >= |chain| || depth >= |q| then Fault
      else if chain[depth] == q[depth] then
        if depth == |q| - 1 then Found(child)
        else ScanChildren(nodes, table, q, child, depth + 1, 0)
      else ScanChildren(nodes, table, q, node, depth, k + 1)
  }

  /** One step of the scan loop, at child position k of `node`, spelled out case by case. */
  lemma ScanStep(nodes: seq<Node>, table: seq<Row>, q: seq<AttackType>, node: nat, depth: nat, k: nat)
    requires WellFormed(nodes, table) && node < |nodes| && k < |nodes[node].children|
    ensures var c := nodes[node].children[k];
      && node < c < |nodes|
      && var chain := Chain(nodes, table, c);
      var r := ScanChildren(nodes, table, q, node, depth, k);
      && (depth >= |chain| || depth >= |q| ==> r == Fault)
      && (depth < |chain| && depth < |q| && chain[depth] == q[depth] && depth == |q| - 1 ==> r == Found(c))
      && (depth < |chain| && depth < |q| && chain[depth] == q[depth] && depth != |q| - 1 ==>
            r == ScanChildren(nodes, table, q, c, depth + 1, 0))
      && (depth < |chain| && depth < |q| && chain[depth] != q[depth] ==>
            r == ScanChildren(nodes, table, q, node, depth, k + 1))
  {
    ChildExtendsParent(nodes, table, node, k);
  }

  /** The fast search from `start`: the depth index begins at the query's last position. */
  function Search(nodes: seq<Node>, table: seq<Row>, q: seq<AttackType>, start: nat): Lookup
    requires WellFormed(nodes, table) && start < |nodes|
  {
    ScanChildren(nodes, table, q, start, StartDepth(q), 0)
  }

  /** The depth index the fast search starts at: the query's last position, 0 for the empty query. */
  function StartDepth(q: seq<AttackType>): nat
  {
    if |q| < 1 then 0 else |q| - 1
  }

  /** The k-th child of p has the symbol `sym` at index d. */
  ghost predicate HitsAt(nodes: seq<Node>, table: seq<Row>, p: nat, k: nat, d: nat, sym: AttackType)
    requires WellFormed(nodes, table) && p < |nodes| && k < |nodes[p].children|
  {
    d < |ChildChain(nodes, table, p, k)| && ChildChain(nodes, table, p, k)[d] == sym
  }

  /** The children of p at positions k up to i have a symbol other than `sym` at index d. */
  ghost predicate MissBetween(nodes: seq<Node>, table: seq<Row>, p: nat, k: nat, i: nat, d: nat, sym: AttackType)
    requires WellFormed(nodes, table) && p < |nodes| && i <= |nodes[p].children|
  {
    forall j :: k <= j < i ==>
      d < |ChildChain(nodes, table, p, j)| && ChildChain(nodes, table, p, j)[d] != sym
  }

  /** The scan at the query's last index never descends: it decides on the start node's children. */
  lemma {:induction false} ScanAtLastIndex(nodes: seq<Node>, table: seq<Row>, q: seq<AttackType>, start: nat, k: nat)
    requires WellFormed(nodes, table) && start < |nodes| && |q| >= 1
    requires k <= |nodes[start].children|
    decreases |nodes[start].children| - k
    ensures ScanChildren(nodes, table, q, start, |q| - 1, k).Found? ==>
      exists i :: (k <= i < |nodes[start].children|
        && nodes[start].children[i] == ScanChildren(nodes, table, q, start, |q| - 1, k).node
        && HitsAt(nodes, table, start, i, |q| - 1, q[|q| - 1])
        && MissBetween(nodes, table, start, k, i, |q| - 1, q[|q| - 1]))
    ensures ScanChildren(nodes, table, q, start, |q| - 1, k).NotFound? ==>
      MissBetween(nodes, table, start, k, |nodes[start].children|, |q| - 1, q[|q| - 1])
    ensures ScanChildren(nodes, table, q, start, |q| - 1, k).Fault? ==>
      exists i :: (k <= i < |nodes[start].children|
        && |ChildChain(nodes, table, start, i)| <= |q| - 1
        && MissBetween(nodes, table, start, k, i, |q| - 1, q[|q| - 1]))
  {
    if k < |nodes[start].children| {
      ScanAtLastIndex(nodes, table, q, start, k + 1);
    }
  }

  /**
   * For a non-empty query the fast search only inspects the start node's
   * children at the query's last index: it returns the first child, in
   * children order, whose symbol there is the query's last symbol, null when
   * every child has another symbol there (in particular when there are no
   * children), and Fault when it meets a child whose chain is too short first.
   */
  lemma SearchScansStartChildren(nodes: seq<Node>, table: seq<Row>, q: seq<AttackType>, start: nat)
    requires WellFormed(nodes, table) && start < |nodes| && |q| >= 1
    ensures Search(nodes, table, q, start).Found? ==>
      exists i :: (0 <= i < |nodes[start].children|
        && nodes[start].children[i] == Search(nodes, table, q, start).node
        && HitsAt(nodes, table, start, i, |q| - 1, q[|q| - 1])
        && MissBetween(nodes, table, start, 0, i, |q| - 1, q[|q| - 1]))
    ensures Search(nodes, table, q, start).NotFound? ==>
      MissBetween(nodes, table, start, 0, |nodes[start].children|, |q| - 1, q[|q| - 1])
    ensures Search(nodes, table, q, start).Fault? ==>
      exists i :: (0 <= i < |nodes[start].children|
        && |ChildChain(nodes, table, start, i)| <= |q| - 1
        && MissBetween(nodes, table, start, 0, i, |q| - 1, q[|q| - 1]))
  {
    ScanAtLastIndex(nodes, table, q, start, 0);
  }

  /** An empty query faults on the first child, and finds nothing under a leaf. */
  lemma SearchEmptyQuery(nodes: seq<Node>, table: seq<Row>, start: nat)
    requires WellFormed(nodes, table) && start < |nodes|
    ensures Search(nodes, table, [], start) == if nodes[start].children == [] then NotFound else Fault
  {
  }

  /**
   * When the start node holds the query minus its last input, the fast search
   * is sound and complete over the start node's children and never faults:
   * it returns the first child with the query's chain, or null if none has it.
   */
  lemma SearchFromParentChain(nodes: seq<Node>, table: seq<Row>, q: seq<AttackType>, start: nat)
    requires WellFormed(nodes, table) && start < |nodes| && |q| >= 1
    requires Chain(nodes, table, start) == ParentChain(q)
    ensures !Search(nodes, table, q, start).Fault?
    ensures Search(nodes, table, q, start).Found? ==>
      var c := Search(nodes, table, q, start).node;
      (ParentOf(nodes, c) == start && Chain(nodes, table, c) == q
       && forall j :: 1 <= j < c && ParentOf(nodes, j) == start ==> Chain(nodes, table, j) != q)
    ensures Search(nodes, table, q, start).NotFound? ==>
      forall j :: 1 <= j < |nodes| && ParentOf(nodes, j) == start ==> Chain(nodes, table, j) != q
  {
    var r := Search(nodes, table, q, start);
    var children := nodes[start].children;
    SearchScansStartChildren(nodes, table, q, start);
    ChildrenAreExactlyTheNodesUnder(nodes, table, start);
    // a child's chain is the start's chain plus one input, so its symbol at the last index decides
    forall k | 0 <= k < |children|
      ensures |ChildChain(nodes, table, start, k)| == |q|
      ensures ChildChain(nodes, table, start, k)[|q| - 1] == q[|q| - 1] <==> ChildChain(nodes, table, start, k) == q
    {
      ChildExtendsParent(nodes, table, start, k);
      ParentChainSplits(ChildChain(nodes, table, start, k), q);
    }
    if r.Found? {
      var i :| 0 <= i < |children| && children[i] == r.node
        && HitsAt(nodes, table, start, i, |q| - 1, q[|q| - 1])
        && MissBetween(nodes, table, start, 0, i, |q| - 1, q[|q| - 1]);
      assert StrictlyIncreasing(children);
      forall j | 1 <= j < r.node && ParentOf(nodes, j) == start ensures Chain(nodes, table, j) != q {
        var k :| 0 <= k < |children| && children[k] == j;
        assert k < i;
        assert ChildChain(nodes, table, start, k) == Chain(nodes, table, j);
        assert ChildChain(nodes, table, start, k)[|q| - 1] != q[|q| - 1];
      }
      assert ChildChain(nodes, table, start, i) == Chain(nodes, table, r.node);
    } else if r.NotFound? {
      forall j | 1 <= j < |nodes| && ParentOf(nodes, j) == start ensures Chain(nodes, table, j) != q {
        var k :| 0 <= k < |children| && children[k] == j;
        assert ChildChain(nodes, table, start, k) == Chain(nodes, table, j);
        assert ChildChain(nodes, table, start, k)[|q| - 1] != q[|q| - 1];
      }
    }
  }

  /** Two chains of the same length with the same parent chain differ at most in their last input. */
  lemma ParentChainSplits(a: seq<AttackType>, b: seq<AttackType>)
    requires |a| == |b| >= 1 && ParentChain(a) == ParentChain(b)
    ensures a[|a| - 1] == b[|b| - 1] <==> a == b
  {
    assert a == ParentChain(a) + [a[|a| - 1]];
    assert b == ParentChain(b) + [b[|b| - 1]];
  }

  /** The input after a one-input match, searched from the root, reads past a one-input chain. */
  lemma SearchFromRootFaultsOnLongerQuery(nodes: seq<Node>, table: seq<Row>, q: seq<AttackType>)
    requires WellFormed(nodes, table) && nodes[Root].children != [] && |q| >= 2
    ensures Search(nodes, table, q, Root) == Fault
  {
    ChildExtendsParent(nodes, table, Root, 0);
    OnlyRootHasEmptyChain(nodes, table, Root);
  }

  // ----- chaining the fast search ---------------------------------------

  /**
   * The fast search used as designed: one call per input, each resuming
   * from the node the previous call returned.
   */
  function ChainSearch(nodes: seq<Node>, table: seq<Row>, q: seq<AttackType>): (r: Lookup)
    requires WellFormed(nodes, table)
    ensures r.Found? ==> 1 <= r.node < |nodes|
  {
    if |q| <= 1 then Search(nodes, table, q, Root)
    else
      match ChainSearch(nodes, table, ParentChain(q))
      case Found(p) => Search(nodes, table, q, p)
      case other => other
  }

  /**
   * In a graph the builder produced, resuming one input at a time never
   * faults and returns the first-created node with the query's chain, or
   * null exactly when no node has it.
   */
  lemma {:induction false} ChainSearchFindsFirstNode(nodes: seq<Node>, table: seq<Row>, q: seq<AttackType>)
    requires TrieInvariant(nodes, table) && |q| >= 1
    decreases |q|
    ensures var r := ChainSearch(nodes, table, q);
      && !r.Fault?
      && (r.Found? ==>
            (Chain(nodes, table, r.node) == q && forall j :: 1 <= j < |nodes| && Chain(nodes, table, j) == q ==> r.node <= j))
      && (r.NotFound? ==> forall j :: 1 <= j < |nodes| ==> Chain(nodes, table, j) != q)
  {
    var r := ChainSearch(nodes, table, q);
    if |q| == 1 {
      OnlyRootHasEmptyChain(nodes, table, Root);
      SearchFromParentChain(nodes, table, q, Root);
      forall j | 1 <= j < |nodes| && Chain(nodes, table, j) == q ensures ParentOf(nodes, j) == Root {
        RootChildrenHaveOneInput(nodes, table, j);
      }
    } else {
      var pq := ParentChain(q);
      ChainSearchFindsFirstNode(nodes, table, pq);
      // any node with chain q hangs under a node with chain pq
      forall j | 1 <= j < |nodes| && Chain(nodes, table, j) == q
        ensures ParentOf(nodes, j) < j && Chain(nodes, table, ParentOf(nodes, j)) == pq
      {
        assert Linked(nodes, table, j);
      }
      match ChainSearch(nodes, table, pq)
      case Found(p) =>
        SearchFromParentChain(nodes, table, q, p);
        forall j | 1 <= j < |nodes| && Chain(nodes, table, j) == q ensures ParentOf(nodes, j) == p {
          var pj := ParentOf(nodes, j);
          assert Linked(nodes, table, j);
          OnlyRootHasEmptyChain(nodes, table, pj);
          assert p <= pj;
        }
      case NotFound =>
    }
  }

  /**
   * The node the breadth-first search returns (one with the query's chain and
   * no earlier sibling with that chain) is the node the chained fast search
   * returns.
   */
  lemma BreadthFirstAgreesWithChainSearch(nodes: seq<Node>, table: seq<Row>, i: nat)
    requires TrieInvariant(nodes, table) && 1 <= i < |nodes|
    requires forall j :: 1 <= j < i && ParentOf(nodes, j) == ParentOf(nodes, i) ==>
      Chain(nodes, table, j) != Chain(nodes, table, i)
    ensures ChainSearch(nodes, table, Chain(nodes, table, i)) == Found(i)
  {
    var q := Chain(nodes, table, i);
    assert |q| >= 1 by { assert Linked(nodes, table, i); }
    var r := ChainSearch(nodes, table, q);
    assert r.Found? && 1 <= r.node < |nodes| && Chain(nodes, table, r.node) == q && r.node <= i by {
      ChainSearchFindsFirstNode(nodes, table, q);
    }
    assert ParentOf(nodes, r.node) == ParentOf(nodes, i);
    assert r.node == i;
    assert r == Found(i);
  }

  // ----- the breadth-first search ----------------------------------------

  /**
   * The state of the breadth-first search: `visited` holds the dequeued
   * nodes (none of them matched), `queue` the pending ones, front first.
   */
  ghost predicate BfsReached(nodes: seq<Node>, table: seq<Row>, q: seq<AttackType>, visited: set<nat>, queue: seq<nat>)
  {
    && (forall k :: 0 <= k < |queue| ==> 1 <= queue[k] < |nodes| && queue[k] !in visited)
    && (forall j, k :: 0 <= j < k < |queue| ==> queue[j] != queue[k])
    && (forall v :: v in visited ==> 1 <= v < |nodes| && Chain(nodes, table, v) != q)
    // a node has been reached exactly when its parent is the root or has been visited
    && (forall x {:trigger ParentOf(nodes, x)} :: 1 <= x < |nodes| ==>
          ((x in visited || x in queue) <==> (ParentOf(nodes, x) == Root || ParentOf(nodes, x) in visited)))
    // siblings are queued in increasing order, and behind every earlier sibling
    && (forall j, k ::
          (0 <= j < k < |queue| && queue[j] < |nodes| && queue[k] < |nodes| && ParentOf(nodes, queue[j]) == ParentOf(nodes, queue[k]))
          ==> queue[j] < queue[k])
    && (forall k, s :: 0 <= k < |queue| && 1 <= s < queue[k] < |nodes| && ParentOf(nodes, s) == ParentOf(nodes, queue[k]) ==>
          s in visited || s in queue)
  }

  /** Every node whose parent is p is one of p's children, and conversely. */
  lemma ChildrenAreExactlyTheNodesUnder(nodes: seq<Node>, table: seq<Row>, p: nat)
    requires WellFormed(nodes, table) && p < |nodes|
    ensures forall k :: 0 <= k < |nodes[p].children| ==>
      1 <= nodes[p].children[k] < |nodes| && ParentOf(nodes, nodes[p].children[k]) == p
    ensures forall x :: 1 <= x < |nodes| && ParentOf(nodes, x) == p ==>
      exists k :: 0 <= k < |nodes[p].children| && nodes[p].children[k] == x
  {
    forall k | 0 <= k < |nodes[p].children|
      ensures 1 <= nodes[p].children[k] < |nodes| && ParentOf(nodes, nodes[p].children[k]) == p
    {
      ChildExtendsParent(nodes, table, p, k);
    }
    forall x | 1 <= x < |nodes| && ParentOf(nodes, x) == p
      ensures exists k :: 0 <= k < |nodes[p].children| && nodes[p].children[k] == x
    {
      assert Linked(nodes, table, x);
    }
  }

  /** The search starts with the root's children queued and nothing visited. */
  lemma BfsStart(nodes: seq<Node>, table: seq<Row>, q: seq<AttackType>)
    requires WellFormed(nodes, table)
    ensures BfsReached(nodes, table, q, {}, nodes[Root].children)
  {
    var children := nodes[Root].children;
    ChildrenAreExactlyTheNodesUnder(nodes, table, Root);
    assert StrictlyIncreasing(children);
    forall x | 1 <= x < |nodes| && ParentOf(nodes, x) == Root ensures x in children {
      var k :| 0 <= k < |children| && children[k] == x;
    }
  }

  /**
   * The state at the head of the loop body: `current` has just been dequeued
   * and `queue` holds the rest. Reached nodes (visited, current or queued)
   * are exactly those whose parent is the root or visited; siblings are
   * queued in increasing order behind every earlier sibling, and the earlier
   * siblings of `current` have all been visited.
   */
  ghost predicate InHand(nodes: seq<Node>, table: seq<Row>, q: seq<AttackType>,
                         visited: set<nat>, current: nat, queue: seq<nat>)
  {
    && 1 <= current < |nodes| && current !in visited && current !in queue
    && (forall k :: 0 <= k < |queue| ==> 1 <= queue[k] < |nodes| && queue[k] !in visited)
    && (forall j, k :: 0 <= j < k < |queue| ==> queue[j] != queue[k])
    && (forall v :: v in visited ==> 1 <= v < |nodes| && Chain(nodes, table, v) != q)
    && (forall x {:trigger ParentOf(nodes, x)} :: 1 <= x < |nodes| ==>
          ((x in visited || x == current || x in queue) <==> (ParentOf(nodes, x) == Root || ParentOf(nodes, x) in visited)))
    && (forall s :: 1 <= s < current && ParentOf(nodes, s) == ParentOf(nodes, current) ==> s in visited)
    && (forall k :: 0 <= k < |queue| && queue[k] < |nodes| && ParentOf(nodes, queue[k]) == ParentOf(nodes, current) ==>
          current < queue[k])
    && (forall j, k ::
          (0 <= j < k < |queue| && queue[j] < |nodes| && queue[k] < |nodes| && ParentOf(nodes, queue[j]) == ParentOf(nodes, queue[k]))
          ==> queue[j] < queue[k])
    && (forall k, s :: 0 <= k < |queue| && 1 <= s < queue[k] < |nodes| && ParentOf(nodes, s) == ParentOf(nodes, queue[k]) ==>
          s in visited || s == current || s in queue)
  }

  /** Dequeuing the front of a non-empty queue puts it in hand. */
  lemma BfsDequeue(nodes: seq<Node>, table: seq<Row>, q: seq<AttackType>, visited: set<nat>, queue: seq<nat>)
    requires |queue| > 0 && BfsReached(nodes, table, q, visited, queue)
    ensures InHand(nodes, table, q, visited, queue[0], queue[1..])
  {
    var current, rest := queue[0], queue[1..];
    forall k | 0 <= k < |rest| ensures rest[k] == queue[k + 1] && rest[k] != current {
      assert queue[0] != queue[k + 1];
    }
    assert forall x :: x in queue <==> x == current || x in rest;
    forall s | 1 <= s < current && ParentOf(nodes, s) == ParentOf(nodes, current) ensures s in visited {
      forall i | 0 < i < |queue| && queue[i] < |nodes| && ParentOf(nodes, queue[i]) == ParentOf(nodes, current)
        ensures queue[0] < queue[i]
      {
      }
      assert s !in queue;
    }
  }

  /**
   * The node in hand is the first of its siblings with the query's chain:
   * every earlier sibling has been visited without a match.
   */
  lemma BfsFrontIsFirstSibling(nodes: seq<Node>, table: seq<Row>, q: seq<AttackType>,
                               visited: set<nat>, current: nat, queue: seq<nat>)
    requires InHand(nodes, table, q, visited, current, queue)
    ensures forall j :: 1 <= j < current && ParentOf(nodes, j) == ParentOf(nodes, current) ==>
      Chain(nodes, table, j) != q
  {
  }

  /** When every node whose parent is the root or visited is visited itself, all are visited. */
  lemma {:induction false} ClosedVisitedHoldsAll(nodes: seq<Node>, table: seq<Row>, visited: set<nat>, x: nat)
    requires WellFormed(nodes, table) && 1 <= x < |nodes|
    requires forall y {:trigger ParentOf(nodes, y)} :: 1 <= y < |nodes| ==> (y in visited <==> (ParentOf(nodes, y) == Root || ParentOf(nodes, y) in visited))
    decreases x
    ensures x in visited
  {
    assert Linked(nodes, table, x);
    var p := ParentOf(nodes, x);
    if p != Root {
      ClosedVisitedHoldsAll(nodes, table, visited, p);
    }
  }

  /** No node of the arena has chain q. */
  ghost predicate NoMatch(nodes: seq<Node>, table: seq<Row>, q: seq<AttackType>)
  {
    forall i :: 1 <= i < |nodes| ==> Chain(nodes, table, i) != q
  }

  /** An empty queue means the whole graph was visited without a match. */
  lemma BfsExhausted(nodes: seq<Node>, table: seq<Row>, q: seq<AttackType>, visited: set<nat>)
    requires WellFormed(nodes, table) && BfsReached(nodes, table, q, visited, [])
    ensures NoMatch(nodes, table, q)
  {
    forall x | 1 <= x < |nodes| ensures Chain(nodes, table, x) != q {
      ClosedVisitedHoldsAll(nodes, table, visited, x);
    }
  }

  /** Node n has chain q, and no earlier sibling of n has it. */
  ghost predicate FirstWithChain(nodes: seq<Node>, table: seq<Row>, q: seq<AttackType>, n: nat)
  {
    && 1 <= n < |nodes| && Chain(nodes, table, n) == q
    && forall j :: 1 <= j < n && ParentOf(nodes, j) == ParentOf(nodes, n) ==> Chain(nodes, table, j) != q
  }

  /**
   * The state at the head of the search loop: a node in hand with the queue
   * behind it, or no node in hand and nothing left that could match.
   */
  ghost predicate BfsLoop(nodes: seq<Node>, table: seq<Row>, q: seq<AttackType>,
                          visited: set<nat>, current: Option<nat>, queue: seq<nat>)
  {
    match current
    case Some(c) => InHand(nodes, table, q, visited, c, queue)
    case None => NoMatch(nodes, table, q)
  }

  /** The loop's first state: the root's first child in hand, its siblings queued. */
  lemma BfsBegin(nodes: seq<Node>, table: seq<Row>, q: seq<AttackType>)
    requires WellFormed(nodes, table) && |nodes[Root].children| > 0
    ensures var children := nodes[Root].children;
      BfsLoop(nodes, table, q, {}, Some(children[0]), children[1..])
  {
    BfsStart(nodes, table, q);
    BfsDequeue(nodes, table, q, {}, nodes[Root].children);
  }

  /**
   * A whole round of the loop: the node in hand did not match, its children
   * are queued, and the next front is dequeued, or the search ends with no match.
   */
  lemma BfsStep(nodes: seq<Node>, table: seq<Row>, q: seq<AttackType>,
                visited: set<nat>, current: nat, queue: seq<nat>)
    requires WellFormed(nodes, table)
    requires InHand(nodes, table, q, visited, current, queue) && Chain(nodes, table, current) != q
    ensures var next := queue + nodes[current].children;
      BfsLoop(nodes, table, q, visited + {current},
              if |next| == 0 then None else Some(next[0]), if |next| == 0 then [] else next[1..])
  {
    BfsVisit(nodes, table, q, visited, current, queue);
    var next := queue + nodes[current].children;
    if |next| == 0 {
      BfsExhausted(nodes, table, q, visited + {current});
    } else {
      BfsDequeue(nodes, table, q, visited + {current}, next);
    }
  }

  /** Visiting the node in hand and queueing its children gives a queue state again. */
  lemma BfsVisit(nodes: seq<Node>, table: seq<Row>, q: seq<AttackType>,
                 visited: set<nat>, current: nat, queue: seq<nat>)
    requires WellFormed(nodes, table)
    requires InHand(nodes, table, q, visited, current, queue) && Chain(nodes, table, current) != q
    ensures BfsReached(nodes, table, q, visited + {current}, queue + nodes[current].children)
  {
    ChildrenAreExactlyTheNodesUnder(nodes, table, current);
    BfsVisitKeepsQueue(nodes, table, q, visited, current, queue);
    BfsVisitKeepsClosure(nodes, table, q, visited, current, queue);
    BfsVisitKeepsSiblingOrder(nodes, table, q, visited, current, queue);
  }

  /** The children of the node in hand have not been reached yet. */
  lemma ChildrenOfCurrentUnreached(nodes: seq<Node>, table: seq<Row>, q: seq<AttackType>,
                                   visited: set<nat>, current: nat, queue: seq<nat>)
    requires WellFormed(nodes, table) && InHand(nodes, table, q, visited, current, queue)
    ensures forall b :: 0 <= b < |nodes[current].children| ==>
      var c := nodes[current].children[b];
      1 <= c < |nodes| && ParentOf(nodes, c) == current && c !in visited && c != current && c !in queue
    ensures forall k :: 0 <= k < |queue| ==> ParentOf(nodes, queue[k]) != current
  {
    ChildrenAreExactlyTheNodesUnder(nodes, table, current);
  }

  /** Visiting keeps the queue in range, unvisited and duplicate-free, and visited nodes unmatched. */
  lemma BfsVisitKeepsQueue(nodes: seq<Node>, table: seq<Row>, q: seq<AttackType>,
                           visited: set<nat>, current: nat, queue: seq<nat>)
    requires WellFormed(nodes, table)
    requires InHand(nodes, table, q, visited, current, queue) && Chain(nodes, table, current) != q
    ensures var grown, visited' := queue + nodes[current].children, visited + {current};
      && (forall k :: 0 <= k < |grown| ==> 1 <= grown[k] < |nodes| && grown[k] !in visited')
      && (forall j, k :: 0 <= j < k < |grown| ==> grown[j] != grown[k])
      && (forall v :: v in visited' ==> 1 <= v < |nodes| && Chain(nodes, table, v) != q)
  {
    var children := nodes[current].children;
    var grown := queue + children;
    ChildrenOfCurrentUnreached(nodes, table, q, visited, current, queue);
    assert StrictlyIncreasing(children);
    forall k | 0 <= k < |grown| ensures grown[k] == if k < |queue| then queue[k] else children[k - |queue|] {
    }
    forall j, k | 0 <= j < k < |grown| ensures grown[j] != grown[k] {
      if j >= |queue| {
        assert children[j - |queue|] < children[k - |queue|];
      } else if k >= |queue| {
        assert grown[j] in queue;
      }
    }
  }

  /** Visiting keeps the reached nodes exactly those whose parent is the root or visited. */
  lemma BfsVisitKeepsClosure(nodes: seq<Node>, table: seq<Row>, q: seq<AttackType>,
                             visited: set<nat>, current: nat, queue: seq<nat>)
    requires WellFormed(nodes, table) && InHand(nodes, table, q, visited, current, queue)
    ensures var grown, visited' := queue + nodes[current].children, visited + {current};
      forall x {:trigger ParentOf(nodes, x)} :: 1 <= x < |nodes| ==>
        ((x in visited' || x in grown) <==> (ParentOf(nodes, x) == Root || ParentOf(nodes, x) in visited'))
  {
    var children := nodes[current].children;
    var grown := queue + children;
    ChildrenAreExactlyTheNodesUnder(nodes, table, current);
    forall x | 1 <= x < |nodes|
      ensures x in children <==> ParentOf(nodes, x) == current
    {
      if ParentOf(nodes, x) == current {
        var k :| 0 <= k < |children| && children[k] == x;
      }
    }
    assert forall x :: x in grown <==> x in queue || x in children;
  }

  /** Visiting keeps siblings in increasing order, each behind its earlier siblings. */
  lemma BfsVisitKeepsSiblingOrder(nodes: seq<Node>, table: seq<Row>, q: seq<AttackType>,
                                  visited: set<nat>, current: nat, queue: seq<nat>)
    requires WellFormed(nodes, table) && InHand(nodes, table, q, visited, current, queue)
    ensures var grown, visited' := queue + nodes[current].children, visited + {current};
      && (forall j, k ::
            (0 <= j < k < |grown| && grown[j] < |nodes| && grown[k] < |nodes| && ParentOf(nodes, grown[j]) == ParentOf(nodes, grown[k]))
            ==> grown[j] < grown[k])
      && (forall k, s :: 0 <= k < |grown| && 1 <= s < grown[k] < |nodes| && ParentOf(nodes, s) == ParentOf(nodes, grown[k]) ==>
            s in visited' || s in grown)
  {
    var children := nodes[current].children;
    var grown := queue + children;
    ChildrenOfCurrentUnreached(nodes, table, q, visited, current, queue);
    ChildrenAreExactlyTheNodesUnder(nodes, table, current);
    assert StrictlyIncreasing(children);
    forall k | 0 <= k < |grown| ensures grown[k] == if k < |queue| then queue[k] else children[k - |queue|] {
    }
    forall k, s | 0 <= k < |grown| && 1 <= s < grown[k] < |nodes| && ParentOf(nodes, s) == ParentOf(nodes, grown[k])
      ensures s in visited + {current} || s in grown
    {
      if k >= |queue| {
        var a :| 0 <= a < |children| && children[a] == s;
        assert grown[|queue| + a] == s;
      } else {
        assert s in queue ==> s in grown;
      }
    }
  }
}
