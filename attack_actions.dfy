/** The symbols of an attack chain and the rows of a moveset table. */
module AttackActions {

  /** The kinds of attack input a player can give (Light, Heavy, Special). */
  datatype AttackType = LightAttack | HeavyAttack | SpecialAttack

  /** An animation handle; the combo logic only forwards it, never looks inside. */
  datatype AnimMontage = AnimMontage(id: nat)

  /** One row of the moveset table. */
  datatype Row = Row(
    moveName: string,
    requiredSequenceToActivateAttack: seq<AttackType>,
    attackAnimation: AnimMontage)

  /** A chain without its final input: the chain that leads to the previous attack. */
  function ParentChain(chain: seq<AttackType>): (p: seq<AttackType>)
    requires |chain| >= 1
    ensures |p| == |chain| - 1
    ensures p + [chain[|chain| - 1]] == chain
  {
    chain[..|chain| - 1]
  }
}
