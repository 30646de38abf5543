# Attack combo system: a Dafny model

This project models the core of an attack combo system for a game
character. There are two parts.

- **The combo graph.** A moveset table is a list of rows. Each row holds a
  move name, the sequence of attack inputs (light, heavy, special) that
  triggers the move, and an animation handle. `CreateComboGraph` compiles
  the table into a prefix tree whose root is an empty starting point. Rows
  go in one depth level at a time, so a row is hung under the node that
  carries its sequence minus the last input. A breadth-first search finds a
  node by its full sequence. A "fast" search walks down from a start node,
  comparing one input per level.
- **The combo component.** This is the per-actor state machine. An attack
  input is appended to the current sequence and looked up in the graph.
  The component then plays the matched attack, or breaks the combo and
  starts a recovery cooldown. Every tick advances the timers and may end
  the cooldown.

The model follows the code as written, including where it works against
its own comments. Steps of the source with undefined behaviour are explicit
outcomes, not preconditions:

- the `Fault` lookup result;
- the `Faulted` build outcome with its reason;
- the `Undefined` component step.

Those steps are:

- dereferencing the null parent of an unreachable row;
- reading the item dequeued from an empty queue when the root has no
  children;
- indexing past the end of a chain in the fast search.

Nothing that the source leaves unchecked is assumed away. Because the
component never records the last performed attack, every search starts at
the root with depth index `|sequence| - 1`. The input that follows a match
with follow-ups therefore reads past the end of a one-input chain.
`SecondInputAfterInnerMatchFaults` and `RunNeverExtendsCombo` prove this.

Layout:

- `wrappers.dfy`: `Option`.
- `attack_actions.dfy`: attack inputs and table rows.
- `moveset_table.dfy`: the tree depth, the order in which the builder
  inserts rows, and row reachability.
- `combo_trie.dfy`: the node arena, its invariants, and the fast and
  chained searches as functions, with the proofs about the breadth-first
  search.
- `combo_graph.dfy`: class `ComboGraph`, with the builder and the three
  searches as methods proved against those functions.
- `combo_component.dfy`: the component's state as a value, one step
  function per operation, runs of inputs, and class `ComboComponent`,
  whose methods are proved to move their fields as the step functions do.

Graph nodes live in an arena, `seq<Node>`, with node 0 as the root. Pointers
become arena indices; a null pointer is `None`. Emitted effects go into an
event log: `Perform(node)` for a played attack, `Broken` for the
combo-broken broadcast. Time is `real`.

## Model

| member | source | states |
|---|---|---|
| AttackActions.ParentChain | Source/ComboSystem/Private/ComboGraph.cpp:86-88 | the parent chain is one input shorter, and the parent chain followed by the removed last input is the original chain |
| MovesetTable.MaxTreeDepth | Source/ComboSystem/Private/ComboGraph.cpp:26-40 | the tree depth is -1 exactly for an empty table; otherwise it is at least every row's chain length and equals some row's chain length |
| MovesetTable.RowsAtLevel | Source/ComboSystem/Private/ComboGraph.cpp:61-71 | lists exactly the rows before row n whose chain has `level` inputs (the rows one pass of the row loop does not skip) |
| MovesetTable.RowsAtLevelIncreasing | Source/ComboSystem/Private/ComboGraph.cpp:61-71 | one level's rows are listed in strictly increasing table order |
| MovesetTable.RowsAtLevelCount | Source/ComboSystem/Private/ComboGraph.cpp:61-71 | each row of the level is listed once, and every other row not at all |
| MovesetTable.RowsBelow | Source/ComboSystem/Private/ComboGraph.cpp:59-71 | lists exactly the rows whose chain length is from 1 to level - 1, level by level |
| MovesetTable.RowsBelowCount | Source/ComboSystem/Private/ComboGraph.cpp:59-71 | each such row is listed once, and every other row not at all |
| MovesetTable.RowsAtLevelPrefix | Source/ComboSystem/Private/ComboGraph.cpp:61 | scanning fewer rows of a level lists a prefix of what scanning more rows lists |
| MovesetTable.RowsBelowPrefix | Source/ComboSystem/Private/ComboGraph.cpp:59 | the rows inserted before a lower level are a prefix of those inserted before a higher level |
| MovesetTable.RowsSoFarBelowNext | Source/ComboSystem/Private/ComboGraph.cpp:59-71 | the rows inserted up to row n of a level are a prefix of those inserted before the next level |
| MovesetTable.RowsSoFarPrefix | Source/ComboSystem/Private/ComboGraph.cpp:59-71 | the rows inserted up to any point of a level below the last are a prefix of the whole insertion order |
| MovesetTable.InsertionOrderCounts | Source/ComboSystem/Private/ComboGraph.cpp:59-84 | every row with a non-empty chain is inserted exactly once, and a row with an empty chain never |
| MovesetTable.NothingInsertedWithoutChains | Source/ComboSystem/Private/ComboGraph.cpp:42-47 | when the tree depth is at most 0 the insertion order is empty |
| ComboTrie.ChildExtendsParent | Source/ComboSystem/Public/ComboGraph.h:17-21 | each entry of a node's children is a later non-root node whose parent is that node, and whose chain is the parent's chain plus one input |
| ComboTrie.OnlyRootHasEmptyChain | Source/ComboSystem/Public/ComboGraph.h:35-38 | the root, and only the root, has the empty chain |
| ComboTrie.RootChildrenHaveOneInput | Source/ComboSystem/Private/ComboGraph.cpp:74-80 | a node hangs directly under the root exactly when its chain has one input |
| ComboTrie.ChildlessRootMeansNoAttacks | Source/ComboSystem/Private/ComboGraph.cpp:128-135 | a root without children means a graph without attack nodes |
| ComboTrie.NodeRowsListCarriedRows | Source/ComboSystem/Private/ComboGraph.cpp:98-101 | a row is listed among the nodes' rows exactly when some non-root node carries it, and that node's chain is the row's sequence |
| ComboTrie.CarryingAllRowsMeansReachable | Source/ComboSystem/Private/ComboGraph.cpp:90-101 | a graph that carries every row with a chain proves that every longer row extends another row of the table |
| ComboTrie.WithChildKeepsOldNodes | Source/ComboSystem/Private/ComboGraph.cpp:98-101 | appending a node changes only the parent's child list, which gains the new index, and leaves every old node's chain and parent as they were |
| ComboTrie.AttachKeepsWellFormed | Source/ComboSystem/Private/ComboGraph.cpp:98-101 | hanging a row under the node holding its parent chain keeps the parent/child structure; the new node's chain is the row's sequence and the nodes' rows gain that row at the end |
| ComboTrie.AttachKeepsTrieInvariant | Source/ComboSystem/Private/ComboGraph.cpp:87-101 | hanging a row under the first node with its parent chain keeps the structure, keeps duplicate chains as siblings, and leaves only the first of equal siblings with children |
| ComboTrie.AttachKeepsDuplicatesSiblings | Source/ComboSystem/Private/ComboGraph.cpp:87-101 | duplicate rows are not rejected: they become siblings under the same parent |
| ComboTrie.AttachKeepsOnlyFirstDuplicateParent | Source/ComboSystem/Private/ComboGraph.cpp:87-101 | a later sibling with the same chain as an earlier one never gets children |
| ComboTrie.AttachKeepsRowOrder | Source/ComboSystem/Private/ComboGraph.cpp:61-101 | children appended in table order keep every child list in increasing row order |
| ComboTrie.ScanChildren | Source/ComboSystem/Private/ComboGraph.cpp:221-259 | a node found by the search loop is a non-root node whose chain has the query's last input at the query's last position |
| ComboTrie.ScanStep | Source/ComboSystem/Private/ComboGraph.cpp:225-251 | one child visit: reading past a chain's end faults; a match at the last index returns the child; a match before it descends into the child; a mismatch moves to the next child |
| ComboTrie.ScanAtLastIndex | Source/ComboSystem/Private/ComboGraph.cpp:221-252 | at the query's last index the loop never descends: it returns the first child from position k whose input there matches, and otherwise faults on a chain that is too short or returns null |
| ComboTrie.SearchScansStartChildren | Source/ComboSystem/Private/ComboGraph.cpp:211-259 | on a non-empty query the fast search returns the first child of the start node, in child order, whose input at the query's last index is the query's last input; null if every child differs there (so a childless start gives null); Fault if a too-short child comes first |
| ComboTrie.SearchEmptyQuery | Source/ComboSystem/Private/ComboGraph.cpp:211-229 | an empty query reads past its own end at the first child (Fault), and gives null under a childless start |
| ComboTrie.SearchFromParentChain | Source/ComboSystem/Public/ComboGraph.h:61-71 | started at the node holding the query minus its last input, the fast search never faults, returns the first child whose chain is the query, and gives null exactly when no child has it |
| ComboTrie.SearchFromRootFaultsOnLongerQuery | Source/ComboSystem/Private/ComboGraph.cpp:229 | from a root with children, any query of two or more inputs reads its last index in a one-input chain: Fault |
| ComboTrie.ChainSearch | Source/ComboSystem/Private/ComboGraph.cpp:180-189 | resuming the fast search from the previous call's node never returns the root |
| ComboTrie.ChainSearchFindsFirstNode | Source/ComboSystem/Public/ComboGraph.h:61-71 | in a built graph the resumed search never faults; it returns the earliest node whose chain is the query, and null exactly when no node has that chain |
| ComboTrie.BreadthFirstAgreesWithChainSearch | Source/ComboSystem/Public/ComboGraph.h:54-71 | the node the breadth-first search returns, the first of its siblings with its chain, is also the node the resumed fast search returns |
| ComboTrie.ChildrenAreExactlyTheNodesUnder | Source/ComboSystem/Public/ComboGraph.h:17-21 | a node's child list holds exactly the nodes whose parent it is |
| ComboTrie.BfsStart | Source/ComboSystem/Private/ComboGraph.cpp:125-131 | queueing the root's children gives a search state with nothing visited |
| ComboTrie.BfsDequeue | Source/ComboSystem/Private/ComboGraph.cpp:133-135 | dequeuing the front of a non-empty queue puts in hand a node whose earlier siblings have all been visited |
| ComboTrie.BfsFrontIsFirstSibling | Source/ComboSystem/Private/ComboGraph.cpp:137-143 | no earlier sibling of the node in hand has the query's chain |
| ComboTrie.ClosedVisitedHoldsAll | Source/ComboSystem/Private/ComboGraph.cpp:145-161 | when every node under the root or under a visited node has been visited, every node has been |
| ComboTrie.BfsExhausted | Source/ComboSystem/Private/ComboGraph.cpp:151-163 | an empty queue means no node has the query's chain |
| ComboTrie.BfsBegin | Source/ComboSystem/Private/ComboGraph.cpp:125-135 | the loop begins with the root's first child in hand and its siblings queued |
| ComboTrie.BfsStep | Source/ComboSystem/Private/ComboGraph.cpp:137-161 | a round without a match queues the children and either dequeues the next node or ends with no node matching |
| ComboTrie.BfsVisit | Source/ComboSystem/Private/ComboGraph.cpp:145-149 | visiting the node in hand and queueing its children gives a search state again |
| ComboTrie.ChildrenOfCurrentUnreached | Source/ComboSystem/Private/ComboGraph.cpp:145-149 | the children of the node in hand are neither visited nor queued, and no queued node is one of its children |
| ComboTrie.BfsVisitKeepsQueue | Source/ComboSystem/Private/ComboGraph.cpp:145-149 | after a visit the queue stays in range, unvisited and free of repeats, and no visited node matches |
| ComboTrie.BfsVisitKeepsClosure | Source/ComboSystem/Private/ComboGraph.cpp:145-149 | after a visit the reached nodes are exactly those under the root or under a visited node |
| ComboTrie.BfsVisitKeepsSiblingOrder | Source/ComboSystem/Private/ComboGraph.cpp:145-149 | after a visit siblings stay queued in increasing order, each behind its earlier siblings |
| ComboGraphs.LoneRootIsFresh | Source/ComboSystem/Private/ComboGraph.cpp:20 | a well-formed graph with one node is the root exactly as the builder creates it |
| ComboGraphs.ChildRowsComeEarlier | Source/ComboSystem/Private/ComboGraph.cpp:61-101 | while a level is filled, the rows under a node one input shorter all come before the row being inserted |
| ComboGraphs.ChildRowComesEarlier | Source/ComboSystem/Private/ComboGraph.cpp:61-101 | the same, for one child |
| ComboGraphs.LevelRowSeenIsEarlier | Source/ComboSystem/Private/ComboGraph.cpp:61-71 | a row of this level that is already inserted comes before the scan position |
| ComboGraphs.MissingParentMeansUnreachable | Source/ComboSystem/Private/ComboGraph.cpp:90-96 | when the search finds no node for a row's parent chain while all shorter rows are in the graph, no row of the table has that chain |
| ComboGraphs.NextRowOfLevel | Source/ComboSystem/Private/ComboGraph.cpp:61-71 | one row further, the rows inserted grow by that row exactly when its length is the level |
| ComboGraphs.FillingStarts | Source/ComboSystem/Private/ComboGraph.cpp:20-59 | the fresh root is the state before level 1 |
| ComboGraphs.SkipRow | Source/ComboSystem/Private/ComboGraph.cpp:67-71 | a row of another length leaves the graph as it is |
| ComboGraphs.InsertRow | Source/ComboSystem/Private/ComboGraph.cpp:86-101 | hanging a longer row under the node the breadth-first search returned keeps the builder's invariant one row further |
| ComboGraphs.InsertRowAtRoot | Source/ComboSystem/Private/ComboGraph.cpp:73-84 | hanging a one-input row under the root keeps the builder's invariant one row further |
| ComboGraphs.Attach | Source/ComboSystem/Private/ComboGraph.cpp:76-101 | the common step: a row hung under the first node with its parent chain keeps the trie invariant, the row order and the insertion order |
| ComboGraphs.NextLevel | Source/ComboSystem/Private/ComboGraph.cpp:59-61 | a level scanned to its end is the state before the next level |
| ComboGraphs.ParentMissing | Source/ComboSystem/Private/ComboGraph.cpp:90-101 | a row whose parent chain no node carries is unreachable; the graph so far followed by that row is a prefix of the insertion order, and the failure is in the dequeue exactly when the root has no children |
| ComboGraphs.ParentMissingUnreachable | Source/ComboSystem/Private/ComboGraph.cpp:90-96 | the row whose parent is missing has no parent row in the table |
| ComboGraphs.ParentMissingPrefix | Source/ComboSystem/Private/ComboGraph.cpp:59-101 | the graph so far followed by the failing row is a prefix of the full insertion order |
| ComboGraphs.FillingEnds | Source/ComboSystem/Private/ComboGraph.cpp:59-121 | after the last level every row with a chain is in the graph, in insertion order, every row is reachable, and a table without chains leaves the bare root |
| ComboGraphs.ComboGraph.constructor | Source/ComboSystem/Public/ComboGraph.h:35-42 | a new graph is the bare root, with tree depth -1 |
| ComboGraphs.ComboGraph.LongestChain | Source/ComboSystem/Private/ComboGraph.cpp:26-40 | the builder's first loop computes the tree depth (the longest chain, -1 for an empty table) |
| ComboGraphs.ComboGraph.CreateComboGraph | Source/ComboSystem/Private/ComboGraph.cpp:10-121 | treeDepth is the longest chain; the graph is a well-formed trie with duplicates as siblings and children in row order; the build finishes exactly when every row is reachable, with every row of a chain inserted once, level by level; otherwise it stops at the first unreachable row in that order, failing in the dequeue exactly when the root has no children; a table without chains is not rejected: the build finishes as Built with the bare root |
| ComboGraphs.ComboGraph.InsertRowsOfLevel | Source/ComboSystem/Private/ComboGraph.cpp:61-110 | one pass of the row loop inserts every row of the level, in table order, or stops at the first unreachable one with the build's failure outcome |
| ComboGraphs.ComboGraph.FindNodeWithAttackChain | Source/ComboSystem/Private/ComboGraph.cpp:123-164 | faults exactly when the root has no children; a result is a non-root node whose chain equals the query and which has no earlier sibling with that chain; null means no node has the chain |
| ComboGraphs.ComboGraph.SearchGraphStartingFromRootNode | Source/ComboSystem/Private/ComboGraph.cpp:202-260 | the loop computes the fast search function from the start node (whose properties are the ComboTrie search lemmas) and never returns the root |
| ComboGraphs.ComboGraph.FastFindNodeWithAttackChain | Source/ComboSystem/Private/ComboGraph.cpp:167-178 | the fast search from the root |
| ComboGraphs.ComboGraph.FastFindNodeWithLastPerformedAttack | Source/ComboSystem/Private/ComboGraph.cpp:180-189 | the fast search from the node of the last attack |
| ComboComponents.FindAttack | Source/ComboSystem/Private/ComboComponent.cpp:122-130 | the component's lookup, from the root or from the last attack's node, never returns the root |
| ComboComponents.ResetActivatesCooldown | Source/ComboSystem/Public/ComboComponent.h:95-100 | a reset empties the sequence, forgets the last attack and always activates the cooldown; nothing else changes |
| ComboComponents.TickAdvancesTimers | Source/ComboSystem/Private/ComboComponent.cpp:54-82 | a tick adds the frame time to the input clock; during the cooldown it also adds it to the cooldown timer, and once that timer reaches the cooldown attacks are allowed and the timer is zeroed; the sequence, the last attack and the attacking flag never change |
| ComboComponents.AttackInputOutcomes | Source/ComboSystem/Private/ComboComponent.cpp:85-173 | with no moveset, or while attacks are blocked, nothing changes and nothing is emitted; otherwise the input is appended before the lookup, and then: a fault is undefined; no match resets with exactly one Broken; a leaf match plays the attack and then resets; a match with follow-ups plays it, keeps attacks allowed and keeps the extended sequence, with no Broken |
| ComboComponents.FirstInputFindsRootChild | Source/ComboSystem/Private/ComboComponent.cpp:118-140 | the first input of a combo never faults: it plays the earliest root child whose chain is that input, or breaks the combo exactly when no node has that chain |
| ComboComponents.SecondInputAfterInnerMatchFaults | Source/ComboSystem/Private/ComboGraph.cpp:211-229 | since the last attack is never recorded, the next input after a match with follow-ups is searched from the root at index 1, past the end of any one-input chain: undefined |
| ComboComponents.InitialStateIsReachable | Source/ComboSystem/Public/ComboComponent.h:41-67 | the declared initial state satisfies the component's reachable-state invariant |
| ComboComponents.StepKeepsReachable | Source/ComboSystem/Private/ComboComponent.cpp:49-194 | every defined tick or attack input keeps the invariant: no last attack, never attacking, the cooldown timer at 0 while attacks are allowed, and a sequence of at most one input, kept while attacks are allowed |
| ComboComponents.RunKeepsReachable | Source/ComboSystem/Private/ComboComponent.cpp:49-194 | every defined run of inputs keeps that invariant |
| ComboComponents.RunNeverExtendsCombo | Source/ComboSystem/Private/ComboComponent.cpp:120-185 | from a new component, no defined run holds a sequence of two or more inputs or a last attack |
| ComboComponents.RunAccumulatesInputClock | Source/ComboSystem/Private/ComboComponent.cpp:54 | nothing resets the time since the last input: after a run it has grown by exactly the ticks' total frame time |
| ComboComponents.TicksNeverBreak | Source/ComboSystem/Private/ComboComponent.cpp:78-82 | a run of ticks never emits an event and never changes the sequence, because the timeout reset is commented out |
| ComboComponents.ComboComponent.constructor | Source/ComboSystem/Public/ComboComponent.h:29-67 | default configuration (reset time 1.0, cooldown 2.0); attacks allowed, both timers 0, empty sequence, no last attack, not attacking, and an empty graph |
| ComboComponents.ComboComponent.BeginPlay | Source/ComboSystem/Private/ComboComponent.cpp:25-45 | without a moveset nothing happens; otherwise a fresh graph is compiled from it, with the builder's outcome |
| ComboComponents.ComboComponent.TickComponent | Source/ComboSystem/Private/ComboComponent.cpp:49-83 | the fields move as the tick step says; no event, no configuration change |
| ComboComponents.ComboComponent.AttackInput | Source/ComboSystem/Private/ComboComponent.cpp:85-173 | a defined input moves the fields and appends the events as the attack step says, and an undefined one is reported |
| ComboComponents.ComboComponent.ResetComboSequence | Source/ComboSystem/Private/ComboComponent.cpp:175-194 | empties the sequence, activates the cooldown, emits one Broken and clears the last attack |
| ComboComponents.ComboComponent.ActivateAttackCooldown | Source/ComboSystem/Private/ComboComponent.cpp:196-200 | blocks attacks and zeroes the cooldown timer |

## Left out

- On-screen debug messages, stat groups, cycle counters and the search timing. These are logging and do not affect behaviour.
- Montage playback and blend-out delegates. The source plays the montage on every skeletal mesh of the owner; the model records one `Perform(node)` event per matched attack. `OnAttackAnimationEnded` only logs and is not modelled.
- The combo-broken delegate. Its broadcast is the `Broken` event.
- Data-table access by row name. The table is a `seq<Row>` in row order, and a node's attack data is a row index.
- Allocation and leaks of nodes, queues and graphs. The arena replaces the pointers, and a fresh `ComboGraph` object replaces the copied graph.
- Float arithmetic. Timers are `real`, so IEEE rounding is not modelled.
- The engine's tick registration in the component constructor.
- Error rejection that the source marks as TODO (a table without chains, an unreachable row). Nothing is rejected. An unreachable row ends the build as `Faulted`, where the source goes on with a null pointer. Duplicate rows are not checked for at all; they become siblings.
- ComboGraphs.ComboGraph.CreateComboGraph: describes the graph only up to the failing row of a `Faulted` build, because what the source does after dereferencing the null parent is undefined. The component goes on with that partial graph.
- ComboComponents.ComboComponent.AttackInput: when the step is undefined, the contract does not describe the fields. The source's behaviour ends there.
- ComboComponents.FindAttack: the last-attack branch is modelled, but it is never taken, since the last attack is never recorded. A last attack outside the arena stands for a dangling pointer and is treated as `Fault`.
- ComboTrie.ScanChildren: the descending branch of the fast-search loop is modelled. From the start depth the source uses, |q| - 1, it never runs (`ScanAtLastIndex`).
- The combo timeout. The tick still compares `timeSinceLastAttackInput` with `timeBeforeComboReset`, but the reset inside that branch is commented out, so the branch is empty and reading the field has no effect. `TickComponent` evaluates the same empty branch, and the tick step does not depend on the field.
