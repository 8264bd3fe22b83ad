/** The gene enumerations of the genome interfaces and the two gene records of the genome. */
module GenomeTypes {

  /** `NodeGeneType`: BIAS, INPUT, HIDDEN, OUTPUT. */
  datatype NodeGeneType = Bias | Input | Hidden | Output

  /** `NodeActivationType`: NONE, SIGMOID, LEAKYRELU. */
  datatype NodeActivationType = NoActivation | Sigmoid | LeakyRelu

  /** Connection weights are doubles that the structural code only copies; training and weight
      perturbation, the only arithmetic on them, are not part of this model. */
  type Weight = real

  /** A node gene. Two node genes are equal exactly when type, activation and index agree, which is the
      equality `NodeGene.Equals(INodeGene)` implements and LINQ `Union` uses. */
  datatype NodeGene = NodeGene(nodeType: NodeGeneType, idx: int, activationType: NodeActivationType)

  /** A connection gene. */
  datatype ConnectionGene = ConnectionGene(
    sourceNodeIdx: int, targetNodeIdx: int, innovationNumber: int, isActive: bool, weight: Weight)
  {
    /** `DisableConnection`: the same gene, inactive. */
    function Disabled(): (g: ConnectionGene)
      ensures !g.isActive
      ensures g.sourceNodeIdx == sourceNodeIdx && g.targetNodeIdx == targetNodeIdx
      ensures g.innovationNumber == innovationNumber && g.weight == weight
    {
      this.(isActive := false)
    }
  }

  /** Some node of `nodes` has index `idx` (the `FirstOrDefault(n => n.Idx == idx) != null` test). */
  predicate HasIdx(nodes: seq<NodeGene>, idx: int) {
    exists k :: 0 <= k < |nodes| && nodes[k].idx == idx
  }

  /** The indices of the nodes, as a set. */
  function IdxSet(nodes: seq<NodeGene>): set<int> {
    set k | 0 <= k < |nodes| :: nodes[k].idx
  }

  /** No two nodes share an index. */
  ghost predicate DistinctIdxs(nodes: seq<NodeGene>) {
    forall i, j :: 0 <= i < j < |nodes| ==> nodes[i].idx != nodes[j].idx
  }
}
