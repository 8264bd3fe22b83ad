/**
 * The genome `CreateInitialGenome` builds: the bias, input and output nodes, a gene for every link from
 * an input to an output under the registry's id for it, and the vacant links from the bias to every
 * output; and the lemma that it is coherent with the registry.
 */
module GenomeLayout {
  import opened Sequences
  import opened GenomeTypes
  import opened NetworkConfig
  import opened Innovations
  import opened GenomeValues

  // ---------------------------------------------------------------------------------------------
  // Nodes.
  // ---------------------------------------------------------------------------------------------

  /** The bias nodes `0..BiasNodeCount-1`. */
  function BiasNodes(): seq<NodeGene> {
    seq(BiasNodeCount, i requires 0 <= i < BiasNodeCount => NodeGene(Bias, i, NoActivation))
  }

  /** The input nodes, numbered from `BiasNodeCount`. */
  function InputNodes(inputCount: nat): seq<NodeGene> {
    seq(inputCount, k requires 0 <= k < inputCount => NodeGene(Input, BiasNodeCount + k, NoActivation))
  }

  /** The output nodes, numbered after the inputs. */
  function OutputNodes(inputCount: nat, outputCount: nat): seq<NodeGene> {
    seq(outputCount, k requires 0 <= k < outputCount => NodeGene(Output, inputCount + BiasNodeCount + k, Sigmoid))
  }

  /** The node list of the initial genome: bias, inputs, outputs. */
  function InitialNodes(inputCount: nat, outputCount: nat): seq<NodeGene> {
    BiasNodes() + InputNodes(inputCount) + OutputNodes(inputCount, outputCount)
  }

  /** The initial node at position `k` has index `k` and is the node the layout gives that index. */
  lemma InitialNodesLaidOut(inputCount: nat, outputCount: nat)
    ensures |InitialNodes(inputCount, outputCount)| == BiasNodeCount + inputCount + outputCount
    ensures forall k :: 0 <= k < |InitialNodes(inputCount, outputCount)| ==>
      InitialNodes(inputCount, outputCount)[k].idx == k
      && InitialNodes(inputCount, outputCount)[k] == LayoutNode(inputCount, outputCount, k)
  {
    var nodes := InitialNodes(inputCount, outputCount);
    forall k | 0 <= k < |nodes| ensures nodes[k].idx == k && nodes[k] == LayoutNode(inputCount, outputCount, k) {
      if k < BiasNodeCount {
        assert nodes[k] == BiasNodes()[k];
      } else if k < BiasNodeCount + inputCount {
        assert nodes[k] == InputNodes(inputCount)[k - BiasNodeCount];
      } else {
        assert nodes[k] == OutputNodes(inputCount, outputCount)[k - BiasNodeCount - inputCount];
      }
    }
  }

  /** The initial genome's nodes are laid out, and an index belongs to one of them exactly when it is
      below the number of fixed nodes. */
  lemma InitialNodesFacts(inputCount: nat, outputCount: nat)
    ensures DistinctIdxs(InitialNodes(inputCount, outputCount))
    ensures forall k :: 0 <= k < |InitialNodes(inputCount, outputCount)| ==>
      0 <= InitialNodes(inputCount, outputCount)[k].idx
      && InitialNodes(inputCount, outputCount)[k] ==
           LayoutNode(inputCount, outputCount, InitialNodes(inputCount, outputCount)[k].idx)
    ensures forall i :: HasIdx(InitialNodes(inputCount, outputCount), i) <==>
      0 <= i < BiasNodeCount + inputCount + outputCount
  {
    var nodes := InitialNodes(inputCount, outputCount);
    InitialNodesLaidOut(inputCount, outputCount);
    forall i | 0 <= i < BiasNodeCount + inputCount + outputCount ensures HasIdx(nodes, i) {
      assert nodes[i].idx == i;
    }
  }

  // ---------------------------------------------------------------------------------------------
  // Links.
  // ---------------------------------------------------------------------------------------------

  /** The links from each input into `target`, in the order of the inner loop. */
  function InputsInto(inputCount: nat, target: int): seq<Link> {
    seq(inputCount, k requires 0 <= k < inputCount => (BiasNodeCount + k, target))
  }

  /** The links of the first `count` outputs from `firstOutput` on, output by output. */
  function SeedLinks(inputCount: nat, firstOutput: int, count: nat): seq<Link>
    decreases count
  {
    if count == 0 then [] else SeedLinks(inputCount, firstOutput, count - 1) + InputsInto(inputCount, firstOutput + count - 1)
  }

  /** The links `CreateInitialGenome` turns into genes, in the order it adds them. */
  function InitialLinks(inputCount: nat, outputCount: nat): seq<Link> {
    SeedLinks(inputCount, BiasNodeCount + inputCount, outputCount)
  }

  /** The seed links are every input to each of the outputs covered, once each. */
  lemma {:induction false} SeedLinksFacts(inputCount: nat, firstOutput: int, count: nat)
    ensures forall l :: l in SeedLinks(inputCount, firstOutput, count) <==>
      BiasNodeCount <= l.0 < BiasNodeCount + inputCount && firstOutput <= l.1 < firstOutput + count
    ensures NoDuplicates(SeedLinks(inputCount, firstOutput, count))
    ensures |SeedLinks(inputCount, firstOutput, count)| == count * inputCount
    decreases count
  {
    if count > 0 {
      var before := SeedLinks(inputCount, firstOutput, count - 1);
      var row := InputsInto(inputCount, firstOutput + count - 1);
      SeedLinksFacts(inputCount, firstOutput, count - 1);
      forall l | l in row ensures l.1 == firstOutput + count - 1 && BiasNodeCount <= l.0 < BiasNodeCount + inputCount {
        var k :| 0 <= k < |row| && row[k] == l;
      }
      forall l: Link | BiasNodeCount <= l.0 < BiasNodeCount + inputCount && l.1 == firstOutput + count - 1 ensures l in row {
        assert row[l.0 - BiasNodeCount] == l;
      }
      NoDuplicatesAppend(before, row);
      assert (count - 1) * inputCount + inputCount == count * inputCount;
    }
  }

  /** The next link the inner loop adds, from input `j` into `target`, is not among the links added before
      it: those of the earlier outputs and those of the inputs below `j` into `target`. */
  lemma NextSeedLinkFresh(inputCount: nat, firstOutput: int, target: int, j: int)
    requires firstOutput <= target && BiasNodeCount <= j <= inputCount
    ensures (j, target) !in SeedLinks(inputCount, firstOutput, target - firstOutput) + InputsInto(inputCount, target)[..j - BiasNodeCount]
    ensures SeedLinks(inputCount, firstOutput, target - firstOutput) + InputsInto(inputCount, target)[..j + 1 - BiasNodeCount]
         == SeedLinks(inputCount, firstOutput, target - firstOutput) + InputsInto(inputCount, target)[..j - BiasNodeCount] + [(j, target)]
  {
    assert InputsInto(inputCount, target)[..j + 1 - BiasNodeCount]
        == InputsInto(inputCount, target)[..j - BiasNodeCount] + [(j, target)];
    SeedLinksFacts(inputCount, firstOutput, target - firstOutput);
    var prefix := InputsInto(inputCount, target)[..j - BiasNodeCount];
    forall k | 0 <= k < |prefix| ensures prefix[k] != (j, target) {
      assert prefix[k].0 == BiasNodeCount + k;
    }
  }

  /** Before output number `row` there is room for one more row of weights, and after the last output
      every weight has been used. */
  lemma SeedRowFits(inputCount: nat, outputCount: nat, firstOutput: int, row: nat, weightCount: nat)
    requires row <= outputCount && weightCount == inputCount * outputCount
    ensures row < outputCount ==> |SeedLinks(inputCount, firstOutput, row)| + inputCount <= weightCount
    ensures row == outputCount ==> |SeedLinks(inputCount, firstOutput, row)| == weightCount
  {
    SeedLinksFacts(inputCount, firstOutput, row);
    if row < outputCount {
      MultiplyMonotone(row + 1, outputCount, inputCount);
      assert (row + 1) * inputCount == row * inputCount + inputCount;
    }
  }

  /** The initial links are exactly the links the registry's constructor seeds, once each. */
  lemma InitialLinksFacts(inputCount: nat, outputCount: nat)
    ensures forall l :: l in InitialLinks(inputCount, outputCount) <==> IsSeedLink(inputCount, outputCount, l)
    ensures NoDuplicates(InitialLinks(inputCount, outputCount))
    ensures |InitialLinks(inputCount, outputCount)| == outputCount * inputCount
  {
    SeedLinksFacts(inputCount, BiasNodeCount + inputCount, outputCount);
  }

  // ---------------------------------------------------------------------------------------------
  // Vacant links.
  // ---------------------------------------------------------------------------------------------

  /** The links from `source` to each output, in the order of the inner loop. */
  function IntoOutputs(inputCount: nat, outputCount: nat, source: int): seq<Link> {
    seq(outputCount, k requires 0 <= k < outputCount => (source, inputCount + BiasNodeCount + k))
  }

  /** The links from the first `count` bias nodes to each output, bias by bias. */
  function BiasLinks(inputCount: nat, outputCount: nat, count: nat): seq<Link>
    decreases count
  {
    if count == 0 then [] else BiasLinks(inputCount, outputCount, count - 1) + IntoOutputs(inputCount, outputCount, count - 1)
  }

  /** The vacant links of the initial genome: every bias to every output. */
  function InitialVacant(inputCount: nat, outputCount: nat): seq<Link> {
    BiasLinks(inputCount, outputCount, BiasNodeCount)
  }

  /** The initial vacant links are every bias to every output, once each. */
  lemma {:induction false} BiasLinksFacts(inputCount: nat, outputCount: nat, count: nat)
    ensures forall l :: l in BiasLinks(inputCount, outputCount, count) <==>
      0 <= l.0 < count && BiasNodeCount + inputCount <= l.1 < BiasNodeCount + inputCount + outputCount
    ensures NoDuplicates(BiasLinks(inputCount, outputCount, count))
    decreases count
  {
    if count > 0 {
      var before := BiasLinks(inputCount, outputCount, count - 1);
      var row := IntoOutputs(inputCount, outputCount, count - 1);
      BiasLinksFacts(inputCount, outputCount, count - 1);
      forall l | l in row
        ensures l.0 == count - 1 && BiasNodeCount + inputCount <= l.1 < BiasNodeCount + inputCount + outputCount
      {
        var k :| 0 <= k < |row| && row[k] == l;
      }
      forall l: Link | l.0 == count - 1 && BiasNodeCount + inputCount <= l.1 < BiasNodeCount + inputCount + outputCount
        ensures l in row
      {
        assert row[l.1 - BiasNodeCount - inputCount] == l;
      }
      NoDuplicatesAppend(before, row);
    }
  }

  // ---------------------------------------------------------------------------------------------
  // Genes.
  // ---------------------------------------------------------------------------------------------

  /** Every link is recorded by the registry. */
  ghost predicate AllRecorded(t: TrackerState, links: seq<Link>) {
    forall k :: 0 <= k < |links| ==> links[k] in t.innovations
  }

  /** The registry knows the link of every input to every output, as its constructor seeds them. */
  ghost predicate SeedsRecorded(t: TrackerState, inputCount: int, outputCount: int) {
    forall l :: IsSeedLink(inputCount, outputCount, l) ==> l in t.innovations
  }

  /** A registry that knows the seed links knows every initial link. */
  lemma SeedsRecordInitialLinks(inputCount: nat, outputCount: nat, t: TrackerState)
    requires SeedsRecorded(t, inputCount, outputCount)
    ensures AllRecorded(t, InitialLinks(inputCount, outputCount))
    ensures |InitialLinks(inputCount, outputCount)| == outputCount * inputCount
  {
    InitialLinksFacts(inputCount, outputCount);
    var links := InitialLinks(inputCount, outputCount);
    forall k | 0 <= k < |links| ensures links[k] in t.innovations {
      assert links[k] in links;
    }
  }

  /** The registry's ids of the links, in order: the id list the genes are added under. */
  function IdsFor(t: TrackerState, links: seq<Link>): seq<int>
    requires forall k :: 0 <= k < |links| ==> links[k] in t.innovations
  {
    seq(|links|, k requires 0 <= k < |links| => t.innovations[links[k]])
  }

  /** The dictionary after adding, link by link, an active gene under the registry's id with the drawn
      weight. */
  function GenesFor(t: TrackerState, links: seq<Link>, weights: seq<Weight>): map<int, ConnectionGene>
    requires forall k :: 0 <= k < |links| ==> links[k] in t.innovations
    requires |weights| == |links|
    decreases |links|
  {
    if links == [] then map[]
    else
      var n := |links| - 1;
      var id := t.innovations[links[n]];
      GenesFor(t, links[..n], weights[..n])[id := ConnectionGene(links[n].0, links[n].1, id, true, weights[n])]
  }

  /** The dictionary holds a gene under each id of the list and no other; each gene is active, realises
      one of the links and is stored under the registry's id for it. */
  lemma {:induction false} GenesForFacts(t: TrackerState, links: seq<Link>, weights: seq<Weight>)
    requires AllRecorded(t, links) && |weights| == |links|
    ensures forall id :: id in GenesFor(t, links, weights) <==> id in IdsFor(t, links)
    ensures forall id :: id in GenesFor(t, links, weights) ==>
      var gene := GenesFor(t, links, weights)[id];
      gene.innovationNumber == id && gene.isActive && LinkOf(gene) in links && t.innovations[LinkOf(gene)] == id
    decreases |links|
  {
    if links != [] {
      var n := |links| - 1;
      assert AllRecorded(t, links[..n]);
      GenesForFacts(t, links[..n], weights[..n]);
      var ids := IdsFor(t, links);
      assert IdsFor(t, links[..n]) == ids[..n];
      assert ids == ids[..n] + [ids[n]];
      forall id | id in GenesFor(t, links[..n], weights[..n]) ensures LinkOf(GenesFor(t, links[..n], weights[..n])[id]) in links {
        var l := LinkOf(GenesFor(t, links[..n], weights[..n])[id]);
        assert l in links[..n];
      }
      assert links[n] in links;
    }
  }

  /** A registry that only grows keeps the ids of recorded links, so the id list and the genes are the
      same against the grown registry. */
  lemma {:induction false} GenesForGrows(t: TrackerState, t': TrackerState, links: seq<Link>, weights: seq<Weight>)
    requires AllRecorded(t, links) && |weights| == |links| && Grows(t, t')
    ensures AllRecorded(t', links)
    ensures IdsFor(t', links) == IdsFor(t, links)
    ensures GenesFor(t', links, weights) == GenesFor(t, links, weights)
    decreases |links|
  {
    if links != [] {
      var n := |links| - 1;
      assert AllRecorded(t, links[..n]);
      GenesForGrows(t, t', links[..n], weights[..n]);
    }
  }

  /** Adding the gene of one more link extends the id list and the dictionary by that gene. */
  lemma GenesForSnoc(t: TrackerState, links: seq<Link>, weights: seq<Weight>, l: Link, w: Weight)
    requires AllRecorded(t, links) && |weights| == |links| && l in t.innovations
    ensures AllRecorded(t, links + [l])
    ensures IdsFor(t, links + [l]) == IdsFor(t, links) + [t.innovations[l]]
    ensures GenesFor(t, links + [l], weights + [w]) ==
      GenesFor(t, links, weights)[t.innovations[l] := ConnectionGene(l.0, l.1, t.innovations[l], true, w)]
  {
    assert (links + [l])[..|links|] == links;
    assert (weights + [w])[..|links|] == weights;
  }

  // ---------------------------------------------------------------------------------------------
  // The initial genome.
  // ---------------------------------------------------------------------------------------------

  /** The genome `CreateInitialGenome` builds from an empty one against the registry `t`, with the drawn
      weights in the order the genes are added. */
  function InitialGenome(inputCount: nat, outputCount: nat, t: TrackerState, weights: seq<Weight>): Genome
    requires AllRecorded(t, InitialLinks(inputCount, outputCount))
    requires |weights| == |InitialLinks(inputCount, outputCount)|
  {
    var links := InitialLinks(inputCount, outputCount);
    Genome(inputCount, outputCount, InitialNodes(inputCount, outputCount),
           IdsFor(t, links), GenesFor(t, links, weights), InitialVacant(inputCount, outputCount))
  }

  /** The initial genome is coherent with the registry it was built against. */
  lemma InitialKeepsCoherent(inputCount: nat, outputCount: nat, t: TrackerState, weights: seq<Weight>)
    requires inputCount > 0 && outputCount > 0 && RegistryLaidOut(t, inputCount, outputCount)
    requires AllRecorded(t, InitialLinks(inputCount, outputCount))
    requires |weights| == |InitialLinks(inputCount, outputCount)|
    ensures Coherent(InitialGenome(inputCount, outputCount, t, weights), t)
  {
    InitialKeys(inputCount, outputCount, t, weights);
    InitialNodesWithin(inputCount, outputCount, t, weights);
    InitialGenesFit(inputCount, outputCount, t, weights);
    InitialSplittable(inputCount, outputCount, t, weights);
    InitialReady(inputCount, outputCount, t, weights);
  }

  /** The initial genome holds every fixed node, its genes leave inputs and its vacant links leave the bias. */
  lemma InitialReady(inputCount: nat, outputCount: nat, t: TrackerState, weights: seq<Weight>)
    requires AllRecorded(t, InitialLinks(inputCount, outputCount))
    requires |weights| == |InitialLinks(inputCount, outputCount)|
    ensures BuildReady(InitialGenome(inputCount, outputCount, t, weights))
  {
    InitialNodesFacts(inputCount, outputCount);
    InitialLinksFacts(inputCount, outputCount);
    BiasLinksFacts(inputCount, outputCount, BiasNodeCount);
    GenesForFacts(t, InitialLinks(inputCount, outputCount), weights);
  }

  /** The id list of the initial genome is its dictionary's keys, once each, and each gene is recorded
      under its own id. */
  lemma InitialKeys(inputCount: nat, outputCount: nat, t: TrackerState, weights: seq<Weight>)
    requires ValidState(t)
    requires AllRecorded(t, InitialLinks(inputCount, outputCount))
    requires |weights| == |InitialLinks(inputCount, outputCount)|
    ensures ListKeyInvariant(InitialGenome(inputCount, outputCount, t, weights))
    ensures Registered(InitialGenome(inputCount, outputCount, t, weights), t)
  {
    var links := InitialLinks(inputCount, outputCount);
    InitialLinksFacts(inputCount, outputCount);
    GenesForFacts(t, links, weights);
    InitialIdsDistinct(t, links);
  }

  /** The nodes of the initial genome are laid out and numbered by the registry. */
  lemma InitialNodesWithin(inputCount: nat, outputCount: nat, t: TrackerState, weights: seq<Weight>)
    requires inputCount + outputCount <= t.nextNeuronNumber
    requires AllRecorded(t, InitialLinks(inputCount, outputCount))
    requires |weights| == |InitialLinks(inputCount, outputCount)|
    ensures NodesLaidOut(InitialGenome(inputCount, outputCount, t, weights))
    ensures WithinRegistry(InitialGenome(inputCount, outputCount, t, weights), t)
  {
    InitialNodesLaidOut(inputCount, outputCount);
    InitialNodesFacts(inputCount, outputCount);
  }

  /** Distinct recorded links have distinct ids. */
  lemma InitialIdsDistinct(t: TrackerState, links: seq<Link>)
    requires ValidState(t) && AllRecorded(t, links) && NoDuplicates(links)
    ensures NoDuplicates(IdsFor(t, links))
  {
    var ids := IdsFor(t, links);
    forall i, j | 0 <= i < j < |ids| ensures ids[i] != ids[j] {
      IdsDistinct(t, links[i], links[j]);
    }
  }

  /** The genes and vacant links of the initial genome join its nodes, and no gene realises a vacant link. */
  lemma InitialGenesFit(inputCount: nat, outputCount: nat, t: TrackerState, weights: seq<Weight>)
    requires inputCount > 0 && outputCount > 0
    requires AllRecorded(t, InitialLinks(inputCount, outputCount))
    requires |weights| == |InitialLinks(inputCount, outputCount)|
    ensures EndpointsKnown(InitialGenome(inputCount, outputCount, t, weights))
    ensures VacantFree(InitialGenome(inputCount, outputCount, t, weights))
  {
    var g := InitialGenome(inputCount, outputCount, t, weights);
    InitialNodesFacts(inputCount, outputCount);
    InitialLinksFacts(inputCount, outputCount);
    BiasLinksFacts(inputCount, outputCount, BiasNodeCount);
    GenesForFacts(t, InitialLinks(inputCount, outputCount), weights);
  }

  /** The first gene of the initial genome leaves an input, so it can be split. */
  lemma InitialSplittable(inputCount: nat, outputCount: nat, t: TrackerState, weights: seq<Weight>)
    requires inputCount > 0 && outputCount > 0
    requires AllRecorded(t, InitialLinks(inputCount, outputCount))
    requires |weights| == |InitialLinks(inputCount, outputCount)|
    ensures var g := InitialGenome(inputCount, outputCount, t, weights);
      SplitCandidates(g.connectionList, g.connections) != []
  {
    var g := InitialGenome(inputCount, outputCount, t, weights);
    var links := InitialLinks(inputCount, outputCount);
    InitialLinksFacts(inputCount, outputCount);
    GenesForFacts(t, links, weights);
    MultiplyMonotone(1, outputCount, inputCount);
    var id := g.connectionList[0];
    assert id in g.connectionList;
    assert LinkOf(g.connections[id]) in links;
    assert id in SplitCandidates(g.connectionList, g.connections);
  }
}
