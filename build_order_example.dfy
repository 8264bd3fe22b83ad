/**
 * The numbering `BuildNetwork` makes for a small genome, worked out layer by layer: the hidden neurons
 * are numbered in breadth-first order, so 4, found in the first layer, comes before 5, found from 3.
 */
module BuildOrderExample {
  import opened Wrappers
  import opened GenomeTypes
  import opened NetworkTypes
  import opened Sequences
  import opened Compiler

  /** The inner connections 1 -> 3, 1 -> 4 and 3 -> 5, all active, none into the output 2. */
  function ExampleInner(w: Weight): seq<ConnectionGene> {
    [ConnectionGene(1, 3, 1, true, w), ConnectionGene(1, 4, 2, true, w), ConnectionGene(3, 5, 3, true, w)]
  }

  /** From the bias and the input, the first layer is 3 and 4. */
  lemma FirstStep(w: Weight)
    ensures NextLayer(ExampleInner(w), [0, 1, 2], 0, 2) == [3, 4]
  {
    var inner := ExampleInner(w);
    var l0 := LayerOf([0, 1, 2], 0, 2);
    forall q | 0 <= q < 2 ensures l0[q].neuronId == q { }
    assert l0[1].neuronId == 1;
    assert inner[..1][..0] == [];
    assert inner[..2][..1] == inner[..1];
    assert FromLayer(inner[..1], l0) == [inner[0]];
    assert FromLayer(inner[..2], l0) == [inner[0], inner[1]];
    assert FromLayer(inner, l0) == [inner[0], inner[1]];
    assert TargetsOf([inner[0], inner[1]]) == [3, 4];
    assert Distinct([3, 4]) == [3, 4];
    var k0: seq<int> := [3, 4];
    assert Unmapped(k0, 2, [0, 1, 2]) == [3, 4];
  }

  /** From 3 and 4, the second layer is 5. */
  lemma SecondStep(w: Weight)
    ensures NextLayer(ExampleInner(w), [0, 1, 2, 3, 4], 3, 5) == [5]
  {
    var inner := ExampleInner(w);
    var l1 := LayerOf([0, 1, 2, 3, 4], 3, 5);
    forall q | 0 <= q < 2 ensures l1[q].neuronId == q + 3 { }
    assert l1[0].neuronId == 3;
    assert inner[..1][..0] == [];
    assert inner[..2][..1] == inner[..1];
    assert FromLayer(inner[..1], l1) == [];
    assert FromLayer(inner[..2], l1) == [];
    assert FromLayer(inner, l1) == [inner[2]];
    assert TargetsOf([inner[2]]) == [5];
    assert Distinct([5]) == [5];
    var k1: seq<int> := [5];
    assert Unmapped(k1, 1, [0, 1, 2, 3, 4]) == [5];
  }

  /** No connection leaves 5, so the search ends. */
  lemma LastStep(w: Weight)
    ensures NextLayer(ExampleInner(w), [0, 1, 2, 3, 4, 5], 5, 6) == []
  {
    var inner := ExampleInner(w);
    var l2 := LayerOf([0, 1, 2, 3, 4, 5], 5, 6);
    forall q | 0 <= q < 1 ensures l2[q].neuronId == 5 { }
    assert inner[..1][..0] == [];
    assert inner[..2][..1] == inner[..1];
    assert FromLayer(inner[..1], l2) == [];
    assert FromLayer(inner[..2], l2) == [];
    assert FromLayer(inner, l2) == [];
    assert TargetsOf([]) == [];
  }

  /** The search from the bias and the input numbers 3, 4 and 5 in that order. */
  lemma BfsOrderExample(w: Weight)
    ensures Bfs(ExampleInner(w), [0, 1, 2], 0, 2) == [0, 1, 2, 3, 4, 5]
  {
    var inner := ExampleInner(w);
    assert Bfs(inner, [0, 1, 2], 0, 2) == Bfs(inner, [0, 1, 2, 3, 4], 3, 5) by {
      FirstStep(w);
      BfsStep(inner, [0, 1, 2], 0, 2);
      assert [0, 1, 2] + [3, 4] == [0, 1, 2, 3, 4];
    }
    assert Bfs(inner, [0, 1, 2, 3, 4], 3, 5) == Bfs(inner, [0, 1, 2, 3, 4, 5], 5, 6) by {
      SecondStep(w);
      BfsStep(inner, [0, 1, 2, 3, 4], 3, 5);
      assert [0, 1, 2, 3, 4] + [5] == [0, 1, 2, 3, 4, 5];
    }
    LastStep(w);
  }

  /** A genome with one input and one output whose connections run 1 -> 3, 1 -> 4 and 3 -> 5. */
  function ExampleView(w: Weight): GenomeView {
    GenomeView(1, 1, [], ExampleInner(w))
  }

  /** All three connections are active and none ends at the output, so all three are inner. */
  lemma ExampleInnerOf(w: Weight)
    ensures InnerOf(ExampleView(w)) == ExampleInner(w)
  {
    var cs := ExampleInner(w);
    assert cs[..1][..0] == [];
    assert cs[..2][..1] == cs[..1];
    assert Active(cs[..1]) == cs[..1];
    assert Active(cs[..2]) == cs[..2];
    assert Active(cs) == cs;
    var out := OutputLayer(ExampleView(w));
    assert !InLayer(out, 3) && !InLayer(out, 4) && !InLayer(out, 5);
    assert ByTarget(cs[..1], out, false) == cs[..1];
    assert ByTarget(cs[..2], out, false) == cs[..2];
  }

  /** The numbering of the genome: a successful build compiles neuron 4 at index 4 and neuron 5 at
      index 5, and not the other way round. */
  lemma ExampleNumbering(w: Weight)
    ensures BfsNumbering(ExampleView(w)) == [0, 1, 2, 3, 4, 5]
  {
    ExampleInnerOf(w);
    assert FixedBlock(ExampleView(w)) == [0, 1, 2];
    BfsOrderExample(w);
  }

  /** The connections 1 -> 3 and 2 -> 3, both active: the second leaves the output 2 and ends at the
      hidden neuron 3, which the first reaches from the input. */
  function ReachedInner(w: Weight): seq<ConnectionGene> {
    [ConnectionGene(1, 3, 1, true, w), ConnectionGene(2, 3, 2, true, w)]
  }

  /** A genome with one input, one output and one hidden neuron, all with their node genes. */
  function ReachedView(w: Weight): GenomeView {
    GenomeView(1, 1, [NodeGene(Bias, 0, NoActivation), NodeGene(Input, 1, NoActivation),
                      NodeGene(Output, 2, Sigmoid), NodeGene(Hidden, 3, Sigmoid)], ReachedInner(w))
  }

  /** Neither connection ends at the output, so both are inner. */
  lemma ReachedInnerOf(w: Weight)
    ensures InnerOf(ReachedView(w)) == ReachedInner(w)
  {
    var cs := ReachedInner(w);
    assert cs[..1][..0] == [];
    assert Active(cs[..1]) == cs[..1];
    assert Active(cs) == cs;
    var out := OutputLayer(ReachedView(w));
    assert !InLayer(out, 3);
    assert ByTarget(cs[..1], out, false) == cs[..1];
  }

  /** The search reaches 3 from the input in the first layer, and nothing after it. */
  lemma ReachedNumbering(w: Weight)
    ensures BfsNumbering(ReachedView(w)) == [0, 1, 2, 3]
  {
    ReachedInnerOf(w);
    var inner := ReachedInner(w);
    assert FixedBlock(ReachedView(w)) == [0, 1, 2];
    assert NextLayer(inner, [0, 1, 2], 0, 2) == [3] by {
      var l0 := LayerOf([0, 1, 2], 0, 2);
      forall q | 0 <= q < 2 ensures l0[q].neuronId == q { }
      assert l0[1].neuronId == 1;
      assert inner[..1][..0] == [];
      assert FromLayer(inner[..1], l0) == [inner[0]];
      assert FromLayer(inner, l0) == [inner[0]];
      assert TargetsOf([inner[0]]) == [3];
      assert Distinct([3]) == [3];
      var k0: seq<int> := [3];
      assert Unmapped(k0, 1, [0, 1, 2]) == [3];
    }
    assert Bfs(inner, [0, 1, 2], 0, 2) == Bfs(inner, [0, 1, 2, 3], 3, 4) by {
      BfsStep(inner, [0, 1, 2], 0, 2);
      assert [0, 1, 2] + [3] == [0, 1, 2, 3];
    }
    assert NextLayer(inner, [0, 1, 2, 3], 3, 4) == [] by {
      var l1 := LayerOf([0, 1, 2, 3], 3, 4);
      forall q | 0 <= q < 1 ensures l1[q].neuronId == 3 { }
      assert inner[..1][..0] == [];
      assert FromLayer(inner[..1], l1) == [];
      assert FromLayer(inner, l1) == [];
      assert TargetsOf([]) == [];
    }
  }

  /** The connection out of the output ends at a reached neuron and every compiled neuron has its node
      gene, so no failure is explained for this genome: `BuildNetwork` cannot fail on it, even though a
      connection leaves an output. */
  lemma ReachedTargetBuilds(w: Weight)
    ensures forall e :: !FailureExplained(ReachedView(w), e)
  {
    ReachedNumbering(w);
    var view := ReachedView(w);
    forall e ensures !FailureExplained(view, e) {
      match e
      case UnmappedTarget(t) =>
        ActiveMembers(view.connections);
      case MissingNodeGene(id) =>
        if id in BfsNumbering(view) {
          assert view.nodeList[id].idx == id;
        }
    }
  }

  /** The connection 2 -> 3 alone: it leaves the output 2, and nothing reaches the hidden neuron 3. */
  function UnreachedInner(w: Weight): seq<ConnectionGene> {
    [ConnectionGene(2, 3, 1, true, w)]
  }

  /** The genome of `ReachedView` without the connection from the input. */
  function UnreachedView(w: Weight): GenomeView {
    GenomeView(1, 1, [NodeGene(Bias, 0, NoActivation), NodeGene(Input, 1, NoActivation),
                      NodeGene(Output, 2, Sigmoid), NodeGene(Hidden, 3, Sigmoid)], UnreachedInner(w))
  }

  /** The search finds no inner connection out of the bias or the input: the numbering is the fixed block. */
  lemma UnreachedNumbering(w: Weight)
    ensures BfsNumbering(UnreachedView(w)) == [0, 1, 2]
  {
    var cs := UnreachedInner(w);
    var out := OutputLayer(UnreachedView(w));
    assert cs[..0] == [];
    assert Active(cs) == cs;
    assert !InLayer(out, 3);
    assert ByTarget(cs, out, false) == cs;
    assert FixedBlock(UnreachedView(w)) == [0, 1, 2];
    assert NextLayer(cs, [0, 1, 2], 0, 2) == [] by {
      var l0 := LayerOf([0, 1, 2], 0, 2);
      forall q | 0 <= q < 2 ensures l0[q].neuronId == q { }
      assert !InLayer(l0, 2);
      assert FromLayer(cs, l0) == [];
      assert TargetsOf([]) == [];
    }
  }

  /** The connection out of the output ends at the neuron the search never reached, so the failure of
      the lookup is explained: by the contract of `BuildNetwork`, which rules out success on a genome
      with an explained failure, every build of this genome fails. */
  lemma UnreachedTargetFails(w: Weight)
    ensures FailureExplained(UnreachedView(w), UnmappedTarget(3))
  {
    UnreachedNumbering(w);
    var c := ConnectionGene(2, 3, 1, true, w);
    assert [c][..0] == [];
    assert Active([c]) == [c];
  }

  /** A build of that genome throws at the lookup of target 3. */
  method UnreachedBuild(w: Weight) returns (r: Result<CompiledNetwork, BuildError>)
    ensures r.Failure?
  {
    var builder := new NetworkBuilder(UnreachedView(w));
    r := builder.BuildNetwork();
    UnreachedTargetFails(w);
  }
}
