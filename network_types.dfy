/** The compiled network's node and connection records (`ActivationType`, `NetNode`, `NetConnection`). */
module NetworkTypes {
  import opened GenomeTypes

  /** `ActivationType`: BIAS, IDENTITY, SIGMOID, LEAKYRELU. */
  datatype ActivationType = BiasActivation | Identity | SigmoidActivation | LeakyReluActivation

  /** `NetConnection`: an outgoing edge to the compiled node `targetIdx`. Its delta weight starts at zero
      and is the training engine's state, which is not part of this model. */
  datatype NetConnection = NetConnection(targetIdx: int, weight: Weight)

  /** The four arguments the compiler hands to the `NeatNetwork` constructor: the counts, one activation
      per compiled node, and one outgoing list per compiled node. */
  datatype CompiledNetwork = CompiledNetwork(
    inputCount: int, outputCount: int, nodes: seq<ActivationType>, connections: seq<seq<NetConnection>>)
}
