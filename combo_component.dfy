/**
 * The per-actor combo component: it takes attack inputs, looks the growing
 * input sequence up in the moveset graph, plays the matched attack or breaks
 * the combo, and runs the recovery cooldown on every tick.
 *
 * The state the methods change is also given as a value (ComboState) with
 * one step function per method; each method of the class is proved to move
 * its fields exactly as its step function does, and the lemmas below are
 * about the step functions and about runs of inputs.
 */
module ComboComponents {
  import opened Wrappers
  import opened AttackActions
  import opened MovesetTable
  import opened ComboTrie
  import opened ComboGraphs

  /** What the component makes happen outside itself: an attack played, or the combo-broken broadcast. */
  datatype Event = Perform(node: nat) | Broken

  /** Default time without input before the combo would be reset. */
  const DefaultTimeBeforeComboReset: real := 1.0

  /** Default cooldown after a combo ends before the next attack is accepted. */
  const DefaultAttackRecoveryCooldown: real := 2.0

  /** The fields of the component that its operations change. */
  datatype ComboState = ComboState(
    canAttack: bool,
    isAttacking: bool,
    timeSinceLastAttackInput: real,
    attackRecoveryCooldownTimer: real,
    currentComboSequence: seq<AttackType>,
    lastPerformedAttack: Option<nat>)

  /** The state of a new component: attacks allowed, timers at zero, no sequence, no last attack. */
  function InitialState(): ComboState
  {
    ComboState(true, false, 0.0, 0.0, [], None)
  }

  /** ActivateAttackCooldown: attacks blocked, cooldown timer restarted. */
  function ActivateAttackCooldownStep(s: ComboState): ComboState
  {
    s.(canAttack := false, attackRecoveryCooldownTimer := 0.0)
  }

  /** ResetComboSequence: empty the sequence, start the cooldown, forget the last attack (one Broken event). */
  function ResetComboSequenceStep(s: ComboState): ComboState
  {
    ActivateAttackCooldownStep(s.(currentComboSequence := [])).(lastPerformedAttack := None)
  }

  /**
   * TickComponent: the time since the last input always grows by the frame
   * time; while attacks are blocked the cooldown timer grows too, and once it
   * reaches the cooldown attacks are allowed again and the timer is zeroed.
   * The combo timeout is not part of the step: its reset is commented out.
   */
  function TickStep(s: ComboState, deltaTime: real, attackRecoveryCooldown: real): ComboState
  {
    var t := s.(timeSinceLastAttackInput := s.timeSinceLastAttackInput + deltaTime);
    if !t.canAttack then
      var timer := t.attackRecoveryCooldownTimer + deltaTime;
      if timer >= attackRecoveryCooldown then t.(canAttack := true, attackRecoveryCooldownTimer := 0.0)
      else t.(attackRecoveryCooldownTimer := timer)
    else t
  }

  /** The result of one input: the new state and the events, or a step the source does not define. */
  datatype InputResult = Stepped(state: ComboState, events: seq<Event>) | Undefined

  /**
   * The lookup AttackInput makes: the fast search from the root when there is
   * no last attack, from the last attack's node otherwise (a node outside the
   * graph is a dangling pointer).
   */
  function FindAttack(nodes: seq<Node>, table: seq<Row>, lastPerformedAttack: Option<nat>, q: seq<AttackType>): (r: Lookup)
    requires WellFormed(nodes, table)
    ensures r.Found? ==> 1 <= r.node < |nodes|
  {
    match lastPerformedAttack
    case None => Search(nodes, table, q, Root)
    case Some(n) => if n < |nodes| then Search(nodes, table, q, n) else Fault
  }

  /**
   * AttackInput: ignored without a moveset or during the cooldown; otherwise
   * the input is appended, the sequence looked up, and the combo broken when
   * nothing matches or the match ends its chain. A matched attack is played.
   */
  function AttackInputStep(nodes: seq<Node>, table: seq<Row>, hasMoveSet: bool, s: ComboState, attackType: AttackType): InputResult
    requires WellFormed(nodes, table)
  {
    if !hasMoveSet || !s.canAttack then Stepped(s, [])
    else
      var extended := s.(currentComboSequence := s.currentComboSequence + [attackType]);
      match FindAttack(nodes, table, extended.lastPerformedAttack, extended.currentComboSequence)
      case Fault => Undefined
      case NotFound => Stepped(ResetComboSequenceStep(extended), [Broken])
      case Found(n) =>
        if |nodes[n].children| < 1 then Stepped(ResetComboSequenceStep(extended), [Perform(n), Broken])
        else Stepped(extended, [Perform(n)])
  }

  // ----- single steps -------------------------------------------------------

  /** The state after a reset: what ResetComboSequence leaves, with the clock and the attacking flag kept. */
  ghost predicate ResetFrom(t: ComboState, s: ComboState)
  {
    && t.currentComboSequence == [] && !t.canAttack && t.attackRecoveryCooldownTimer == 0.0
    && t.lastPerformedAttack == None
    && t.timeSinceLastAttackInput == s.timeSinceLastAttackInput && t.isAttacking == s.isAttacking
  }

  /** A reset always activates the cooldown, and changes nothing but the sequence and the last attack besides. */
  lemma ResetActivatesCooldown(s: ComboState)
    ensures ResetFrom(ResetComboSequenceStep(s), s)
    ensures ResetComboSequenceStep(s) ==
      ActivateAttackCooldownStep(s).(currentComboSequence := [], lastPerformedAttack := None)
  {
  }

  /**
   * A tick adds the frame time to the input clock and, during the cooldown,
   * to the cooldown timer, ending the cooldown once the timer reaches it; it
   * never touches the sequence, the last attack or the attacking flag.
   */
  lemma TickAdvancesTimers(s: ComboState, deltaTime: real, attackRecoveryCooldown: real)
    ensures var t := TickStep(s, deltaTime, attackRecoveryCooldown);
      && t.timeSinceLastAttackInput == s.timeSinceLastAttackInput + deltaTime
      && t.currentComboSequence == s.currentComboSequence
      && t.lastPerformedAttack == s.lastPerformedAttack
      && t.isAttacking == s.isAttacking
      && (s.canAttack ==> t.canAttack && t.attackRecoveryCooldownTimer == s.attackRecoveryCooldownTimer)
      && (!s.canAttack && s.attackRecoveryCooldownTimer + deltaTime >= attackRecoveryCooldown ==>
            t.canAttack && t.attackRecoveryCooldownTimer == 0.0)
      && (!s.canAttack && s.attackRecoveryCooldownTimer + deltaTime < attackRecoveryCooldown ==>
            !t.canAttack && t.attackRecoveryCooldownTimer == s.attackRecoveryCooldownTimer + deltaTime)
  {
  }

  /**
   * The outcomes of one attack input. Without a moveset or during the
   * cooldown nothing changes and nothing is emitted. Otherwise the input is
   * appended before the lookup. No match resets the combo with one Broken
   * event. A match that ends its chain plays the attack and then resets. A
   * match with follow-ups plays it and keeps the extended sequence.
   */
  lemma AttackInputOutcomes(nodes: seq<Node>, table: seq<Row>, hasMoveSet: bool, s: ComboState, attackType: AttackType)
    requires WellFormed(nodes, table)
    ensures !hasMoveSet || !s.canAttack ==> AttackInputStep(nodes, table, hasMoveSet, s, attackType) == Stepped(s, [])
    ensures hasMoveSet && s.canAttack ==>
      var q := s.currentComboSequence + [attackType];
      var r := AttackInputStep(nodes, table, hasMoveSet, s, attackType);
      && (FindAttack(nodes, table, s.lastPerformedAttack, q) == Fault <==> r == Undefined)
      && (FindAttack(nodes, table, s.lastPerformedAttack, q) == NotFound ==>
            r.Stepped? && r.events == [Broken] && ResetFrom(r.state, s))
      && (forall n: nat :: FindAttack(nodes, table, s.lastPerformedAttack, q) == Found(n) && nodes[n].children == [] ==>
            r.Stepped? && r.events == [Perform(n), Broken] && ResetFrom(r.state, s))
      && (forall n: nat :: FindAttack(nodes, table, s.lastPerformedAttack, q) == Found(n) && nodes[n].children != [] ==>
            r == Stepped(s.(currentComboSequence := q), [Perform(n)]))
  {
  }

  /**
   * With no sequence yet and no last attack, an input is looked up among the
   * root's children and never faults: the attack played is the first node
   * whose chain is exactly that one input, and the combo breaks with no
   * attack played only when no node has that chain.
   */
  lemma FirstInputFindsRootChild(nodes: seq<Node>, table: seq<Row>, s: ComboState, attackType: AttackType)
    requires WellFormed(nodes, table) && s.canAttack
    requires s.currentComboSequence == [] && s.lastPerformedAttack == None
    ensures var r := AttackInputStep(nodes, table, true, s, attackType);
      && r.Stepped?
      && (forall n: nat :: Perform(n) in r.events ==>
            1 <= n < |nodes| && Chain(nodes, table, n) == [attackType] && ParentOf(nodes, n) == Root
            && forall j :: 1 <= j < n && ParentOf(nodes, j) == Root ==> Chain(nodes, table, j) != [attackType])
      && (r.events == [Broken] <==> forall j :: 1 <= j < |nodes| ==> Chain(nodes, table, j) != [attackType])
  {
    var q := [attackType];
    assert s.currentComboSequence + [attackType] == q;
    SearchFromParentChain(nodes, table, q, Root);
    forall j | 1 <= j < |nodes| && Chain(nodes, table, j) == q ensures ParentOf(nodes, j) == Root {
      RootChildrenHaveOneInput(nodes, table, j);
    }
  }

  /**
   * The input after a match with follow-ups: the last attack was never
   * recorded, so the two-input sequence is searched from the root at index 1,
   * past the end of every one-input chain there.
   */
  lemma SecondInputAfterInnerMatchFaults(nodes: seq<Node>, table: seq<Row>, s: ComboState, attackType: AttackType)
    requires WellFormed(nodes, table) && s.canAttack
    requires |s.currentComboSequence| >= 1 && s.lastPerformedAttack == None && nodes[Root].children != []
    ensures AttackInputStep(nodes, table, true, s, attackType) == Undefined
  {
    SearchFromRootFaultsOnLongerQuery(nodes, table, s.currentComboSequence + [attackType]);
  }

  // ----- runs of inputs -----------------------------------------------------

  /** What reaches the component: a frame's tick or an attack button. */
  datatype Input = Tick(deltaTime: real) | Attack(attackType: AttackType)

  /** One input applied to the state. */
  function StepInput(nodes: seq<Node>, table: seq<Row>, hasMoveSet: bool, attackRecoveryCooldown: real,
                     s: ComboState, input: Input): InputResult
    requires WellFormed(nodes, table)
  {
    match input
    case Tick(deltaTime) => Stepped(TickStep(s, deltaTime, attackRecoveryCooldown), [])
    case Attack(attackType) => AttackInputStep(nodes, table, hasMoveSet, s, attackType)
  }

  /** A sequence of inputs applied in order, collecting the events; undefined once a step is. */
  function Run(nodes: seq<Node>, table: seq<Row>, hasMoveSet: bool, attackRecoveryCooldown: real,
               s: ComboState, inputs: seq<Input>): InputResult
    requires WellFormed(nodes, table)
    decreases |inputs|
  {
    if inputs == [] then Stepped(s, [])
    else
      match StepInput(nodes, table, hasMoveSet, attackRecoveryCooldown, s, inputs[0])
      case Undefined => Undefined
      case Stepped(t, e) =>
        match Run(nodes, table, hasMoveSet, attackRecoveryCooldown, t, inputs[1..])
        case Undefined => Undefined
        case Stepped(u, more) => Stepped(u, e + more)
  }

  /** The total frame time of the ticks among the inputs. */
  function ElapsedTime(inputs: seq<Input>): real
    decreases |inputs|
  {
    if inputs == [] then 0.0
    else (match inputs[0] case Tick(d) => d case Attack(_) => 0.0) + ElapsedTime(inputs[1..])
  }

  /**
   * What holds of the component in every reachable state: no last attack is
   * recorded, it never attacks, the cooldown timer only runs while attacks
   * are blocked, and a non-empty sequence is a single input matched under a
   * root with children, while attacks are allowed.
   */
  ghost predicate Reachable(nodes: seq<Node>, s: ComboState)
    requires |nodes| >= 1
  {
    && s.lastPerformedAttack == None && !s.isAttacking
    && (s.canAttack ==> s.attackRecoveryCooldownTimer == 0.0)
    && |s.currentComboSequence| <= 1
    && (s.currentComboSequence != [] ==> s.canAttack && nodes[Root].children != [])
  }

  /** A new component is in a reachable state. */
  lemma InitialStateIsReachable(nodes: seq<Node>)
    requires |nodes| >= 1
    ensures Reachable(nodes, InitialState())
  {
  }

  /** Every defined step keeps the state reachable. */
  lemma StepKeepsReachable(nodes: seq<Node>, table: seq<Row>, hasMoveSet: bool, attackRecoveryCooldown: real,
                           s: ComboState, input: Input)
    requires WellFormed(nodes, table) && Reachable(nodes, s)
    ensures var r := StepInput(nodes, table, hasMoveSet, attackRecoveryCooldown, s, input);
      r.Stepped? ==> Reachable(nodes, r.state)
  {
    if input.Attack? && hasMoveSet && s.canAttack {
      var q := s.currentComboSequence + [input.attackType];
      if s.currentComboSequence == [] {
        assert q == [input.attackType];
        SearchFromParentChain(nodes, table, q, Root);
      } else {
        SearchFromRootFaultsOnLongerQuery(nodes, table, q);
      }
    }
  }

  /** Every defined run keeps the state reachable. */
  lemma {:induction false} RunKeepsReachable(nodes: seq<Node>, table: seq<Row>, hasMoveSet: bool,
                                             attackRecoveryCooldown: real, s: ComboState, inputs: seq<Input>)
    requires WellFormed(nodes, table) && Reachable(nodes, s)
    decreases |inputs|
    ensures var r := Run(nodes, table, hasMoveSet, attackRecoveryCooldown, s, inputs);
      r.Stepped? ==> Reachable(nodes, r.state)
  {
    if inputs != [] {
      StepKeepsReachable(nodes, table, hasMoveSet, attackRecoveryCooldown, s, inputs[0]);
      var first := StepInput(nodes, table, hasMoveSet, attackRecoveryCooldown, s, inputs[0]);
      if first.Stepped? {
        RunKeepsReachable(nodes, table, hasMoveSet, attackRecoveryCooldown, first.state, inputs[1..]);
      }
    }
  }

  /**
   * From a new component no defined run ever holds a sequence of two or more
   * inputs or a last attack: combos never get past their first attack.
   */
  lemma RunNeverExtendsCombo(nodes: seq<Node>, table: seq<Row>, hasMoveSet: bool,
                             attackRecoveryCooldown: real, inputs: seq<Input>)
    requires WellFormed(nodes, table)
    ensures var r := Run(nodes, table, hasMoveSet, attackRecoveryCooldown, InitialState(), inputs);
      r.Stepped? ==> |r.state.currentComboSequence| <= 1 && r.state.lastPerformedAttack == None
  {
    InitialStateIsReachable(nodes);
    RunKeepsReachable(nodes, table, hasMoveSet, attackRecoveryCooldown, InitialState(), inputs);
  }

  /** The time since the last input is never reset: after a run it has grown by exactly the ticks' frame time. */
  lemma {:induction false} RunAccumulatesInputClock(nodes: seq<Node>, table: seq<Row>, hasMoveSet: bool,
                                                    attackRecoveryCooldown: real, s: ComboState, inputs: seq<Input>)
    requires WellFormed(nodes, table)
    decreases |inputs|
    ensures var r := Run(nodes, table, hasMoveSet, attackRecoveryCooldown, s, inputs);
      r.Stepped? ==> r.state.timeSinceLastAttackInput == s.timeSinceLastAttackInput + ElapsedTime(inputs)
  {
    if inputs != [] {
      var first := StepInput(nodes, table, hasMoveSet, attackRecoveryCooldown, s, inputs[0]);
      if first.Stepped? {
        RunAccumulatesInputClock(nodes, table, hasMoveSet, attackRecoveryCooldown, first.state, inputs[1..]);
      }
    }
  }

  /** Ticks alone never break the combo: a run of ticks emits no event and keeps the sequence. */
  lemma {:induction false} TicksNeverBreak(nodes: seq<Node>, table: seq<Row>, hasMoveSet: bool,
                                           attackRecoveryCooldown: real, s: ComboState, inputs: seq<Input>)
    requires WellFormed(nodes, table)
    requires forall i :: 0 <= i < |inputs| ==> inputs[i].Tick?
    decreases |inputs|
    ensures var r := Run(nodes, table, hasMoveSet, attackRecoveryCooldown, s, inputs);
      r.Stepped? && r.events == [] && r.state.currentComboSequence == s.currentComboSequence
  {
    if inputs != [] {
      var t := TickStep(s, inputs[0].deltaTime, attackRecoveryCooldown);
      TicksNeverBreak(nodes, table, hasMoveSet, attackRecoveryCooldown, t, inputs[1..]);
    }
  }

  // ----- the component ------------------------------------------------------

  /** The combo component of one actor. */
  class ComboComponent {
    /** The moveset table, when one was assigned. */
    var moveSet: Option<seq<Row>>
    /** Time without input before the combo is meant to reset (it guards only an empty branch of the tick). */
    var timeBeforeComboReset: real
    /** Whether the actor is attacking (set by no operation). */
    var isAttacking: bool
    /** Cooldown after a combo ends before the next attack is accepted. */
    var attackRecoveryCooldown: real
    /** Whether an attack input is accepted this frame. */
    var canAttack: bool
    /** Time since the last attack input. */
    var timeSinceLastAttackInput: real
    /** Time since the cooldown was activated. */
    var attackRecoveryCooldownTimer: real
    /** The inputs of the combo so far. */
    var currentComboSequence: seq<AttackType>
    /** The graph built from the moveset. */
    var moveSetGraph: ComboGraph
    /** The node of the last attack performed (a node index; None for null). */
    var lastPerformedAttack: Option<nat>
    /** The attacks played and the combo-broken broadcasts, in order. */
    var events: seq<Event>

    ghost predicate Valid()
      reads this, moveSetGraph
    {
      moveSetGraph.Valid()
    }

    /** The changing fields as a value. */
    function State(): ComboState
      reads this
    {
      ComboState(canAttack, isAttacking, timeSinceLastAttackInput, attackRecoveryCooldownTimer,
                 currentComboSequence, lastPerformedAttack)
    }

    /** The fields no operation changes. */
    function Config(): (Option<seq<Row>>, ComboGraph, real, real)
      reads this
    {
      (moveSet, moveSetGraph, timeBeforeComboReset, attackRecoveryCooldown)
    }

    /** A component with the declared defaults and an empty graph. */
    constructor (moveSet: Option<seq<Row>>)
      ensures Valid() && State() == InitialState() && events == []
      ensures this.moveSet == moveSet
      ensures timeBeforeComboReset == DefaultTimeBeforeComboReset
      ensures attackRecoveryCooldown == DefaultAttackRecoveryCooldown
      ensures fresh(moveSetGraph) && moveSetGraph.nodes == [RootNode] && moveSetGraph.treeDepth == -1
    {
      this.moveSet := moveSet;
      timeBeforeComboReset := DefaultTimeBeforeComboReset;
      isAttacking := false;
      attackRecoveryCooldown := DefaultAttackRecoveryCooldown;
      canAttack := true;
      timeSinceLastAttackInput := 0.0;
      attackRecoveryCooldownTimer := 0.0;
      currentComboSequence := [];
      moveSetGraph := new ComboGraph();
      lastPerformedAttack := None;
      events := [];
    }

    /**
     * Without a moveset nothing happens; otherwise a new graph is built from
     * it. The build's outcome is returned: a Faulted build is where the source
     * stops with undefined behaviour.
     */
    method BeginPlay() returns (built: Option<BuildOutcome>)
      requires Valid()
      modifies this
      ensures Valid() && State() == old(State()) && events == old(events)
      ensures moveSet == old(moveSet) && timeBeforeComboReset == old(timeBeforeComboReset)
      ensures attackRecoveryCooldown == old(attackRecoveryCooldown)
      ensures moveSet.None? ==> built.None? && moveSetGraph == old(moveSetGraph)
      ensures moveSet.Some? ==>
        && built.Some? && fresh(moveSetGraph)
        && moveSetGraph.table == moveSet.value && moveSetGraph.treeDepth == MaxTreeDepth(moveSet.value)
        && Compiled(moveSetGraph.nodes, moveSet.value, built.value)
    {
      if moveSet.None? {
        return None;
      }
      var graph := new ComboGraph();
      var outcome := graph.CreateComboGraph(moveSet.value);
      moveSetGraph := graph;
      return Some(outcome);
    }

    /** One frame: the timers advance and the cooldown may end. */
    method TickComponent(deltaTime: real)
      modifies this
      ensures State() == TickStep(old(State()), deltaTime, attackRecoveryCooldown)
      ensures events == old(events) && Config() == old(Config())
    {
      timeSinceLastAttackInput := timeSinceLastAttackInput + deltaTime;
      if !canAttack {
        attackRecoveryCooldownTimer := attackRecoveryCooldownTimer + deltaTime;
        if attackRecoveryCooldownTimer >= attackRecoveryCooldown {
          canAttack := true;
          attackRecoveryCooldownTimer := 0.0;
        }
      } else if timeSinceLastAttackInput >= timeBeforeComboReset {
        // the combo reset that belongs here is commented out in the source
      }
    }

    /**
     * An attack button press. Returns false where the source's behaviour is
     * undefined (the search reads past a chain, or the last attack dangles);
     * the fields are then those at that point.
     */
    method AttackInput(attackType: AttackType) returns (defined: bool)
      requires Valid()
      modifies this
      ensures Config() == old(Config())
      ensures var r := AttackInputStep(moveSetGraph.nodes, moveSetGraph.table, moveSet.Some?, old(State()), attackType);
        && (defined <==> r.Stepped?)
        && (defined ==> State() == r.state && events == old(events) + r.events)
    {
      if moveSet.None? {
        return true;
      }
      if !canAttack {
        return true;
      }
      currentComboSequence := currentComboSequence + [attackType];
      var attackToPerform: Lookup;
      if lastPerformedAttack.None? {
        attackToPerform := moveSetGraph.FastFindNodeWithAttackChain(currentComboSequence);
      } else if lastPerformedAttack.value < |moveSetGraph.nodes| {
        attackToPerform := moveSetGraph.FastFindNodeWithLastPerformedAttack(currentComboSequence, lastPerformedAttack.value);
      } else {
        return false;
      }
      if attackToPerform.Fault? {
        return false;
      }
      if attackToPerform.NotFound? {
        ResetComboSequence();
        return true;
      }
      var node := attackToPerform.node;
      events := events + [Perform(node)];
      if |moveSetGraph.nodes[node].children| < 1 {
        ResetComboSequence();
      }
      return true;
    }

    /** Empties the sequence, activates the cooldown, broadcasts Broken and forgets the last attack. */
    method ResetComboSequence()
      modifies this
      ensures State() == ResetComboSequenceStep(old(State()))
      ensures events == old(events) + [Broken] && Config() == old(Config())
    {
      currentComboSequence := [];
      ActivateAttackCooldown();
      events := events + [Broken];
      lastPerformedAttack := None;
    }

    /** Blocks attacks and restarts the cooldown timer. */
    method ActivateAttackCooldown()
      modifies this
      ensures State() == ActivateAttackCooldownStep(old(State()))
      ensures events == old(events) && Config() == old(Config())
    {
      canAttack := false;
      attackRecoveryCooldownTimer := 0.0;
    }
  }
}
