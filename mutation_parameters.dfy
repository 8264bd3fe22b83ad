/** `MutationParameters`: the integer weights of the structural-mutation choice and the number of
    mutation steps. The double-valued probabilities only steer weight mutation and are not modelled. */
module MutationConfig {

  datatype MutationParameters = MutationParameters(
    mutationCount: nat, addNodeChance: nat, addConnectionChance: nat, mutateWeightChance: nat)

  /** The defaults: one step, add-node weight 2, add-connection weight 10, weight-mutation weight 0. */
  const DefaultMutationParameters := MutationParameters(1, 2, 10, 0)
}
