/**
 * The combo graph object: the arena of nodes built from a moveset table,
 * the tree depth, and the searches over it.
 */
module ComboGraphs {
  import opened Wrappers
  import opened AttackActions
  import opened MovesetTable
  import opened ComboTrie

  /** Why the builder stopped: the step of the source that has no defined behaviour. */
  datatype FaultReason = DequeueFromEmptyQueue | NullParentDereference

  /** The builder either finishes or stops at the row whose parent it could not use. */
  datatype BuildOutcome = Built | Faulted(row: nat, reason: FaultReason)

  /**
   * What compiling `table` leaves behind. The graph is a well-formed trie
   * whose children are in row order. The build finishes exactly when every
   * row of two or more inputs extends another row. Then the nodes hold every
   * row with a chain, level by level and in table order within a level.
   * Otherwise it stops at an unreachable row, after inserting exactly the rows
   * before it in that order; it stops in the dequeue exactly when no node
   * hangs under the root. A table without chains gives the bare root.
   */
  ghost predicate Compiled(nodes: seq<Node>, table: seq<Row>, outcome: BuildOutcome)
  {
    && TrieInvariant(nodes, table) && ChildrenInRowOrder(nodes)
    && (outcome.Built? <==> AllReachable(table))
    && (outcome.Built? ==> NodeRows(nodes) == InsertionOrder(table))
    && (outcome.Faulted? ==>
          && Unreachable(table, outcome.row)
          && NodeRows(nodes) + [outcome.row] <= InsertionOrder(table)
          && (outcome.reason == DequeueFromEmptyQueue <==> nodes[Root].children == []))
    && (MaxTreeDepth(table) <= 0 ==> outcome == Built && nodes == [RootNode])
  }

  // ----- facts the builder's loops rely on ---------------------------------

  /** A graph made of the root alone is the root as first created. */
  lemma LoneRootIsFresh(nodes: seq<Node>, table: seq<Row>)
    requires WellFormed(nodes, table) && |nodes| == 1
    ensures nodes == [RootNode]
  {
    assert |nodes[Root].children| > 0 ==> ChildLinked(nodes, Root, 0);
  }

  /**
   * While level `level` is being filled up to row `rowIndex`, every child of a
   * node one input shorter carries an earlier row.
   */
  lemma ChildRowsComeEarlier(nodes: seq<Node>, table: seq<Row>, p: nat, level: nat, rowIndex: nat)
    requires WellFormed(nodes, table) && p < |nodes| && rowIndex <= |table| && level >= 1
    requires |Chain(nodes, table, p)| == level - 1
    requires NodeRows(nodes) == RowsBelow(table, level) + RowsAtLevel(table, level, rowIndex)
    ensures forall k :: 0 <= k < |nodes[p].children| ==> ChildRows(nodes, p)[k] < rowIndex
  {
    forall k | 0 <= k < |nodes[p].children| ensures ChildRows(nodes, p)[k] < rowIndex {
      ChildRowComesEarlier(nodes, table, p, k, level, rowIndex);
    }
  }

  /** The k-th child of p, one input longer than p, carries a row of this level seen already. */
  lemma ChildRowComesEarlier(nodes: seq<Node>, table: seq<Row>, p: nat, k: nat, level: nat, rowIndex: nat)
    requires WellFormed(nodes, table) && p < |nodes| && k < |nodes[p].children| && rowIndex <= |table|
    requires |Chain(nodes, table, p)| == level - 1
    requires NodeRows(nodes) == RowsBelow(table, level) + RowsAtLevel(table, level, rowIndex)
    ensures ChildRows(nodes, p)[k] < rowIndex
  {
    ChildExtendsParent(nodes, table, p, k);
    var c := nodes[p].children[k];
    assert Linked(nodes, table, c);
    var x := RowOf(nodes[c]);
    var listed := NodeRows(nodes);
    assert listed[c - 1] == x;
    LevelRowSeenIsEarlier(table, level, rowIndex, listed[c - 1]);
  }

  /** A row of this level among the rows listed so far comes before the scan position. */
  lemma LevelRowSeenIsEarlier(table: seq<Row>, level: nat, rowIndex: nat, x: nat)
    requires rowIndex <= |table| && x < |table| && ChainLength(table[x]) == level
    requires x in RowsBelow(table, level) + RowsAtLevel(table, level, rowIndex)
    ensures x < rowIndex
  {
    assert x !in RowsBelow(table, level);
  }

  /**
   * A row whose parent chain no node carries, while every shorter row is
   * already in the graph, has no parent row in the table.
   */
  lemma MissingParentMeansUnreachable(nodes: seq<Node>, table: seq<Row>, level: nat, rowIndex: nat)
    requires WellFormed(nodes, table) && level >= 2 && rowIndex < |table|
    requires ChainLength(table[rowIndex]) == level
    requires forall x :: x in RowsBelow(table, level) ==> x in NodeRows(nodes)
    requires forall i :: 1 <= i < |nodes| ==>
      Chain(nodes, table, i) != ParentChain(table[rowIndex].requiredSequenceToActivateAttack)
    ensures Unreachable(table, rowIndex)
  {
    var parentChain := ParentChain(table[rowIndex].requiredSequenceToActivateAttack);
    forall p | 0 <= p < |table| ensures table[p].requiredSequenceToActivateAttack != parentChain {
      if ChainLength(table[p]) == level - 1 {
        NodeRowsListCarriedRows(nodes, table, p);
      }
    }
  }

  /** Adding row `rowIndex` to the rows listed so far at `level` lists one more row. */
  lemma NextRowOfLevel(table: seq<Row>, level: nat, rowIndex: nat, listed: seq<nat>)
    requires rowIndex < |table| && listed == RowsBelow(table, level) + RowsAtLevel(table, level, rowIndex)
    ensures ChainLength(table[rowIndex]) == level ==>
      listed + [rowIndex] == RowsBelow(table, level) + RowsAtLevel(table, level, rowIndex + 1)
    ensures ChainLength(table[rowIndex]) != level ==>
      listed == RowsBelow(table, level) + RowsAtLevel(table, level, rowIndex + 1)
  {
  }

  /**
   * The builder's state once level `level` has been scanned up to row
   * `rowIndex`: a trie whose nodes carry, in arena order, every shorter row
   * followed by the rows of this level seen so far.
   */
  ghost predicate Filling(nodes: seq<Node>, table: seq<Row>, level: int, rowIndex: nat)
  {
    && rowIndex <= |table|
    && TrieInvariant(nodes, table) && ChildrenInRowOrder(nodes)
    && NodeRows(nodes) == RowsBelow(table, level) + RowsAtLevel(table, level, rowIndex)
  }

  /** The bare root is the state before the first level. */
  lemma FillingStarts(table: seq<Row>)
    ensures Filling([RootNode], table, 1, 0)
  {
    var nodes := [RootNode];
    assert NodeRows(nodes) == [];
    assert forall i :: 0 <= i < |nodes| ==> ChildRows(nodes, i) == [];
  }

  /** A row of another length is passed over. */
  lemma SkipRow(nodes: seq<Node>, table: seq<Row>, level: int, rowIndex: nat)
    requires Filling(nodes, table, level, rowIndex) && rowIndex < |table|
    requires ChainLength(table[rowIndex]) != level
    ensures Filling(nodes, table, level, rowIndex + 1)
  {
  }

  /**
   * A row of this level hung under the node p that carries its parent chain,
   * p being the first of its siblings with that chain, keeps the state.
   */
  lemma InsertRow(nodes: seq<Node>, table: seq<Row>, level: int, rowIndex: nat, p: nat)
    requires Filling(nodes, table, level, rowIndex) && rowIndex < |table|
    requires level >= 2 && ChainLength(table[rowIndex]) == level
    requires FirstWithChain(nodes, table, ParentChain(table[rowIndex].requiredSequenceToActivateAttack), p)
    ensures Filling(WithChild(nodes, p, rowIndex), table, level, rowIndex + 1)
  {
    Attach(nodes, table, level, rowIndex, p);
  }

  /** A row of one input hung under the root keeps the state. */
  lemma InsertRowAtRoot(nodes: seq<Node>, table: seq<Row>, rowIndex: nat)
    requires Filling(nodes, table, 1, rowIndex) && rowIndex < |table|
    requires ChainLength(table[rowIndex]) == 1
    ensures Filling(WithChild(nodes, Root, rowIndex), table, 1, rowIndex + 1)
  {
    Attach(nodes, table, 1, rowIndex, Root);
  }

  /** The common step of InsertRow and InsertRowAtRoot. */
  lemma Attach(nodes: seq<Node>, table: seq<Row>, level: int, rowIndex: nat, p: nat)
    requires Filling(nodes, table, level, rowIndex) && rowIndex < |table|
    requires level >= 1 && ChainLength(table[rowIndex]) == level
    requires p < |nodes| && Chain(nodes, table, p) == ParentChain(table[rowIndex].requiredSequenceToActivateAttack)
    requires forall j :: 1 <= j < p && ParentOf(nodes, j) == ParentOf(nodes, p) ==>
      Chain(nodes, table, j) != Chain(nodes, table, p)
    ensures Filling(WithChild(nodes, p, rowIndex), table, level, rowIndex + 1)
  {
    NextRowOfLevel(table, level, rowIndex, NodeRows(nodes));
    ChildRowsComeEarlier(nodes, table, p, level, rowIndex);
    AttachKeepsWellFormed(nodes, table, p, rowIndex);
    AttachKeepsTrieInvariant(nodes, table, p, rowIndex);
    AttachKeepsRowOrder(nodes, table, p, rowIndex);
  }

  /** A level scanned to the end is the state before the next level. */
  lemma NextLevel(nodes: seq<Node>, table: seq<Row>, level: int)
    requires Filling(nodes, table, level, |table|) && level >= 1
    ensures Filling(nodes, table, level + 1, 0)
  {
  }

  /**
   * When no node carries the parent chain of a row of this level, the row is
   * unreachable, and the nodes built so far followed by that row are a
   * prefix of the full insertion order.
   */
  lemma ParentMissing(nodes: seq<Node>, table: seq<Row>, level: int, rowIndex: nat, reason: FaultReason)
    requires Filling(nodes, table, level, rowIndex) && rowIndex < |table|
    requires 2 <= level <= MaxTreeDepth(table) && ChainLength(table[rowIndex]) == level
    requires NoMatch(nodes, table, ParentChain(table[rowIndex].requiredSequenceToActivateAttack))
    requires reason == DequeueFromEmptyQueue <==> nodes[Root].children == []
    ensures Compiled(nodes, table, Faulted(rowIndex, reason))
  {
    ParentMissingUnreachable(nodes, table, level, rowIndex);
    ParentMissingPrefix(nodes, table, level, rowIndex);
  }

  /** The unreachability half of ParentMissing. */
  lemma ParentMissingUnreachable(nodes: seq<Node>, table: seq<Row>, level: int, rowIndex: nat)
    requires Filling(nodes, table, level, rowIndex) && rowIndex < |table|
    requires 2 <= level && ChainLength(table[rowIndex]) == level
    requires NoMatch(nodes, table, ParentChain(table[rowIndex].requiredSequenceToActivateAttack))
    ensures Unreachable(table, rowIndex)
  {
    forall x | x in RowsBelow(table, level) ensures x in NodeRows(nodes) {
      assert x in RowsBelow(table, level) + RowsAtLevel(table, level, rowIndex);
    }
    MissingParentMeansUnreachable(nodes, table, level, rowIndex);
  }

  /** The prefix half of ParentMissing: the row would have been inserted next. */
  lemma ParentMissingPrefix(nodes: seq<Node>, table: seq<Row>, level: int, rowIndex: nat)
    requires Filling(nodes, table, level, rowIndex) && rowIndex < |table|
    requires 2 <= level <= MaxTreeDepth(table) && ChainLength(table[rowIndex]) == level
    ensures NodeRows(nodes) + [rowIndex] <= InsertionOrder(table)
  {
    assert level < LastLevel(table);
    NextRowOfLevel(table, level, rowIndex, NodeRows(nodes));
    RowsSoFarPrefix(table, level, rowIndex + 1);
  }

  /**
   * After the last level every row with a chain is in the graph, in
   * insertion order, so every row was reachable; with no chain at all the
   * graph is the bare root.
   */
  lemma FillingEnds(nodes: seq<Node>, table: seq<Row>, level: int)
    requires Filling(nodes, table, level, 0)
    requires level == LastLevel(table)
    ensures Compiled(nodes, table, Built)
  {
    CarryingAllRowsMeansReachable(nodes, table);
    if MaxTreeDepth(table) <= 0 {
      LoneRootIsFresh(nodes, table);
    }
  }

  /** The indices of the non-root nodes of an arena of n nodes. */
  function NonRootIndices(n: nat): (s: set<nat>)
    ensures forall x: nat :: x in s <==> 1 <= x < n
  {
    if n <= 1 then {} else NonRootIndices(n - 1) + {n - 1}
  }

  /** The graph built from a moveset table, and the searches over it. */
  class ComboGraph {
    /** The arena of graph nodes; node Root is rootNode. */
    var nodes: seq<Node>
    /** The rows the nodes' attackData refer to. */
    var table: seq<Row>
    /** The depth of the current tree. */
    var treeDepth: int

    ghost predicate Valid()
      reads this
    {
      TrieInvariant(nodes, table)
    }

    /** A graph before any table was compiled: the bare root, depth -1. */
    constructor ()
      ensures Valid()
      ensures nodes == [RootNode] && table == [] && treeDepth == -1
    {
      nodes := [RootNode];
      table := [];
      treeDepth := -1;
    }

    /**
     * The builder's first loop: the running maximum of the rows' chain
     * lengths, starting from -1.
     */
    static method LongestChain(rows: seq<Row>) returns (maxTreeDepth: int)
      ensures maxTreeDepth == MaxTreeDepth(rows)
    {
      maxTreeDepth := -1;
      for rowIndex := 0 to |rows|
        invariant maxTreeDepth == MaxTreeDepth(rows[..rowIndex])
      {
        assert rows[..rowIndex + 1][..rowIndex] == rows[..rowIndex];
        var inputsRequiredForAttack := |rows[rowIndex].requiredSequenceToActivateAttack|;
        if inputsRequiredForAttack > maxTreeDepth {
          maxTreeDepth := inputsRequiredForAttack;
        }
      }
      assert rows[..|rows|] == rows;
    }

    /**
     * Compiles the moveset table one depth level at a time. A row of one
     * input hangs under the root; a longer row under the node the
     * breadth-first search finds for its chain minus the last input. When
     * that search is undefined (no node under the root) or finds nothing, the
     * source goes on with an invalid pointer: the model stops there.
     */
    method CreateComboGraph(movesetTable: seq<Row>) returns (outcome: BuildOutcome)
      modifies this
      ensures Valid() && table == movesetTable && treeDepth == MaxTreeDepth(movesetTable)
      ensures Compiled(nodes, movesetTable, outcome)
    {
      nodes := [RootNode];
      table := movesetTable;
      var maxTreeDepth := LongestChain(table);
      // a table without any chain is not rejected: the check is left undone in the source

      treeDepth := maxTreeDepth;
      ghost var lastLevel := LastLevel(table);

      var currentTreeDepthLevel := 1;
      FillingStarts(table);
      while currentTreeDepthLevel <= maxTreeDepth
        invariant 1 <= currentTreeDepthLevel <= lastLevel
        invariant table == movesetTable && treeDepth == maxTreeDepth == MaxTreeDepth(table)
        invariant Filling(nodes, table, currentTreeDepthLevel, 0)
      {
        var levelOutcome := InsertRowsOfLevel(currentTreeDepthLevel);
        if levelOutcome.Faulted? {
          return levelOutcome;
        }
        NextLevel(nodes, table, currentTreeDepthLevel);
        currentTreeDepthLevel := currentTreeDepthLevel + 1;
      }
      FillingEnds(nodes, table, currentTreeDepthLevel);
      return Built;
    }

    /**
     * One pass of the builder's row loop: every row whose chain has `level`
     * inputs is hung, in table order, under the root (one input) or under the
     * node the breadth-first search finds for its parent chain. The pass
     * stops at the first row whose parent cannot be found.
     */
    method InsertRowsOfLevel(level: int) returns (outcome: BuildOutcome)
      requires 1 <= level <= MaxTreeDepth(table) && Filling(nodes, table, level, 0)
      modifies this
      ensures table == old(table) && treeDepth == old(treeDepth)
      ensures outcome.Built? ==> Filling(nodes, table, level, |table|)
      ensures outcome.Faulted? ==> Valid() && Compiled(nodes, table, outcome)
    {
      for rowIndex := 0 to |table|
        invariant table == old(table) && treeDepth == old(treeDepth)
        invariant Filling(nodes, table, level, rowIndex)
      {
        var attackChain := table[rowIndex].requiredSequenceToActivateAttack;
        var attackChainLength := |attackChain|;
        if attackChainLength != level {
          SkipRow(nodes, table, level, rowIndex);
          continue;
        }
        if attackChainLength == 1 {
          InsertRowAtRoot(nodes, table, rowIndex);
          nodes := WithChild(nodes, Root, rowIndex);
          continue;
        }
        var parentMoveChain := ParentChain(attackChain);
        var currentAttackParentNode := FindNodeWithAttackChain(parentMoveChain);
        if !currentAttackParentNode.Found? {
          // the dequeue from an empty queue, or the null parent's child list
          var reason := if currentAttackParentNode.Fault? then DequeueFromEmptyQueue else NullParentDereference;
          ParentMissing(nodes, table, level, rowIndex, reason);
          return Faulted(rowIndex, reason);
        }
        var parent := currentAttackParentNode.node;
        InsertRow(nodes, table, level, rowIndex, parent);
        nodes := WithChild(nodes, parent, rowIndex);
      }
      return Built;
    }

    /**
     * Breadth-first search, from the root's children, for a node whose chain
     * equals the query. With no child under the root the first dequeue fails
     * and the loop reads an unset pointer: Fault.
     */
    method FindNodeWithAttackChain(attackChainToFind: seq<AttackType>) returns (found: Lookup)
      requires WellFormed(nodes, table)
      ensures found.Fault? <==> nodes[Root].children == []
      ensures found.Found? ==> FirstWithChain(nodes, table, attackChainToFind, found.node)
      ensures !found.Found? ==> NoMatch(nodes, table, attackChainToFind)
    {
      var nodesToSearch: seq<nat> := [];
      var rootChildren := nodes[Root].children;
      for childIndex := 0 to |rootChildren|
        invariant nodesToSearch == rootChildren[..childIndex]
      {
        nodesToSearch := nodesToSearch + [rootChildren[childIndex]];
      }
      assert nodesToSearch == rootChildren;
      if |nodesToSearch| == 0 {
        ChildlessRootMeansNoAttacks(nodes, table);
        return Fault;
      }
      BfsBegin(nodes, table, attackChainToFind);
      var currentNode: Option<nat> := Some(nodesToSearch[0]);
      nodesToSearch := nodesToSearch[1..];
      ghost var visited: set<nat> := {};
      ghost var nonRoot := NonRootIndices(|nodes|);

      while currentNode.Some?
        invariant BfsLoop(nodes, table, attackChainToFind, visited, currentNode, nodesToSearch)
        invariant visited <= nonRoot
        decreases nonRoot - visited
      {
        var current := currentNode.value;
        BfsFrontIsFirstSibling(nodes, table, attackChainToFind, visited, current, nodesToSearch);
        if Chain(nodes, table, current) == attackChainToFind {
          return Found(current);
        }
        ghost var queued := nodesToSearch;
        var children := nodes[current].children;
        for childIndex := 0 to |children|
          invariant nodesToSearch == queued + children[..childIndex]
        {
          nodesToSearch := nodesToSearch + [children[childIndex]];
        }
        assert nodesToSearch == queued + children;
        BfsStep(nodes, table, attackChainToFind, visited, current, queued);
        visited := visited + {current};
        if |nodesToSearch| == 0 {
          currentNode := None;
        } else {
          currentNode := Some(nodesToSearch[0]);
          nodesToSearch := nodesToSearch[1..];
        }
      }
      return NotFound;
    }

    /**
     * The fast search loop: from `searchRootNode`, at depth index |q| - 1 (0
     * for the empty query), step to the first child whose input at the depth
     * index matches the query's, return it at the query's last index, and
     * give up when no child matches.
     */
    method SearchGraphStartingFromRootNode(currentSequence: seq<AttackType>, searchRootNode: nat) returns (r: Lookup)
      requires Valid() && searchRootNode < |nodes|
      ensures r == Search(nodes, table, currentSequence, searchRootNode)
      ensures r.Found? ==> 1 <= r.node < |nodes|
    {
      ghost var spec := Search(nodes, table, currentSequence, searchRootNode);
      var nodeToCheck: nat := searchRootNode;
      var nextNodeFound := true;
      var currentDepthLevel: nat;
      if |currentSequence| < 1 {
        currentDepthLevel := 0;
      } else {
        currentDepthLevel := |currentSequence| - 1;
      }
      assert currentDepthLevel == StartDepth(currentSequence);

      while nextNodeFound
        invariant nodeToCheck < |nodes|
        invariant nextNodeFound ==> ScanChildren(nodes, table, currentSequence, nodeToCheck, currentDepthLevel, 0) == spec
        invariant nextNodeFound ==> currentDepthLevel <= |currentSequence|
        invariant !nextNodeFound ==> spec == NotFound
        decreases nextNodeFound, |nodes| - nodeToCheck
      {
        nextNodeFound := false;
        var children := nodes[nodeToCheck].children;
        ghost var scanned, depth := nodeToCheck, currentDepthLevel;
        for childIndex := 0 to |children|
          invariant !nextNodeFound && nodeToCheck == scanned && currentDepthLevel == depth
          invariant ScanChildren(nodes, table, currentSequence, nodeToCheck, currentDepthLevel, childIndex) == spec
        {
          ScanStep(nodes, table, currentSequence, nodeToCheck, currentDepthLevel, childIndex);
          var child := children[childIndex];
          var attackChain := Chain(nodes, table, child);
          if currentDepthLevel >= |attackChain| || currentDepthLevel >= |currentSequence| {
            // reading past the end of a chain has no defined result
            return Fault;
          }
          if attackChain[currentDepthLevel] == currentSequence[currentDepthLevel] {
            if currentDepthLevel == |currentSequence| - 1 {
              return Found(child);
            }
            currentDepthLevel := currentDepthLevel + 1;
            nodeToCheck := child;
            nextNodeFound := true;
            break;
          }
        }
      }
      return NotFound;
    }

    /** The fast search from the root. */
    method FastFindNodeWithAttackChain(attackChainToFind: seq<AttackType>) returns (r: Lookup)
      requires Valid()
      ensures r == Search(nodes, table, attackChainToFind, Root)
      ensures r.Found? ==> 1 <= r.node < |nodes|
    {
      r := SearchGraphStartingFromRootNode(attackChainToFind, Root);
    }

    /** The fast search resumed from the node of the last performed attack. */
    method FastFindNodeWithLastPerformedAttack(currentSequence: seq<AttackType>, lastAttackNode: nat) returns (r: Lookup)
      requires Valid() && lastAttackNode < |nodes|
      ensures r == Search(nodes, table, currentSequence, lastAttackNode)
      ensures r.Found? ==> 1 <= r.node < |nodes|
    {
      r := SearchGraphStartingFromRootNode(currentSequence, lastAttackNode);
    }
  }
}
