/**
 * The genome of `NeatGenome` as a value: the invariant every genome keeps together with the shared
 * innovation registry, the layout `CreateInitialGenome` builds, and the effect of each structural
 * mutation, with the lemmas that each mutation keeps the invariant.
 */
module GenomeValues {
  import opened Wrappers
  import opened Sequences
  import opened GenomeTypes
  import opened NetworkConfig
  import opened Innovations
  import opened MutationConfig

  /** The link a connection gene realises. */
  function LinkOf(g: ConnectionGene): Link {
    (g.sourceNodeIdx, g.targetNodeIdx)
  }

  /** The counts and the four collections of a genome: the node list, the connection ids in insertion
      order (also the enumeration order of the dictionary, which never loses a key), the dictionary
      from id to gene, and the vacant links. */
  datatype Genome = Genome(
    inputNodeCount: int, outputNodeCount: int,
    nodeList: seq<NodeGene>, connectionList: seq<int>,
    connections: map<int, ConnectionGene>, vacantConnections: seq<Link>)

  /** The node gene the index layout gives `idx`: the bias, an input, an output, or a hidden node
      (hidden nodes are created HIDDEN/SIGMOID). */
  function LayoutNode(inputCount: int, outputCount: int, idx: int): NodeGene {
    if idx < BiasNodeCount then NodeGene(Bias, idx, NoActivation)
    else if idx < BiasNodeCount + inputCount then NodeGene(Input, idx, NoActivation)
    else if idx < BiasNodeCount + inputCount + outputCount then NodeGene(Output, idx, Sigmoid)
    else NodeGene(Hidden, idx, Sigmoid)
  }

  // ---------------------------------------------------------------------------------------------
  // The invariant.
  // ---------------------------------------------------------------------------------------------

  /** The list/key invariant: the id list has no duplicates, it holds exactly the dictionary's keys,
      and every gene is stored under its own innovation number. */
  ghost predicate ListKeyInvariant(g: Genome) {
    && NoDuplicates(g.connectionList)
    && (forall id :: id in g.connections <==> id in g.connectionList)
    && (forall k :: 0 <= k < |g.connectionList| ==> g.connectionList[k] in g.connections)
    && (forall id :: id in g.connections ==> g.connections[id].innovationNumber == id)
  }

  /** Every gene's id is the one the registry holds for its link. */
  ghost predicate Registered(g: Genome, t: TrackerState) {
    forall id :: id in g.connections ==>
      LinkOf(g.connections[id]) in t.innovations && t.innovations[LinkOf(g.connections[id])] == id
  }

  /** No two nodes share an index, and each node is the one the layout gives its index. */
  ghost predicate NodesLaidOut(g: Genome) {
    && DistinctIdxs(g.nodeList)
    && (forall k :: 0 <= k < |g.nodeList| ==>
          0 <= g.nodeList[k].idx && g.nodeList[k] == LayoutNode(g.inputNodeCount, g.outputNodeCount, g.nodeList[k].idx))
  }

  /** Every gene and every vacant link joins nodes of the genome. */
  ghost predicate EndpointsKnown(g: Genome) {
    && (forall id :: id in g.connections ==>
          HasIdx(g.nodeList, g.connections[id].sourceNodeIdx) && HasIdx(g.nodeList, g.connections[id].targetNodeIdx))
    && (forall v :: v in g.vacantConnections ==> HasIdx(g.nodeList, v.0) && HasIdx(g.nodeList, v.1))
  }

  /** The vacant list has no duplicates and no gene realises any of its links. */
  ghost predicate VacantFree(g: Genome) {
    && NoDuplicates(g.vacantConnections)
    && (forall id :: id in g.connections ==> LinkOf(g.connections[id]) !in g.vacantConnections)
  }

  /** Every node is already numbered by the registry. */
  ghost predicate WithinRegistry(g: Genome, t: TrackerState) {
    forall k :: 0 <= k < |g.nodeList| ==> g.nodeList[k].idx <= t.nextNeuronNumber
  }

  /** The registry is valid, every link it records joins numbered neurons, the fixed nodes are numbered,
      and every recorded midpoint lies beyond the fixed nodes, so it is a hidden node. */
  ghost predicate RegistryLaidOut(t: TrackerState, inputCount: int, outputCount: int) {
    && ValidState(t) && BoundedState(t)
    && inputCount + outputCount <= t.nextNeuronNumber
    && (forall l, k :: l in t.splitConnections && 0 <= k < |t.splitConnections[l]| ==>
          BiasNodeCount + inputCount + outputCount <= t.splitConnections[l][k])
  }

  /** `idx` is the index of an output, `N+1..N+M`. */
  predicate IsOutputIndex(g: Genome, idx: int) {
    BiasNodeCount + g.inputNodeCount <= idx < BiasNodeCount + g.inputNodeCount + g.outputNodeCount
  }

  /** The node list holds the bias, every input and every output, and no gene and no vacant link leaves an
      output: what the network builder needs to succeed. */
  ghost predicate BuildReady(g: Genome) {
    && (forall idx :: 0 <= idx < BiasNodeCount + g.inputNodeCount + g.outputNodeCount ==> HasIdx(g.nodeList, idx))
    && (forall id :: id in g.connections ==> !IsOutputIndex(g, g.connections[id].sourceNodeIdx))
    && (forall v :: v in g.vacantConnections ==> !IsOutputIndex(g, v.0))
  }

  /** The ids of the genes `MutateAddNode` may split, in dictionary order: every gene whose source is
      not the bias, active or not. */
  function SplitCandidates(ids: seq<int>, connections: map<int, ConnectionGene>): (r: seq<int>)
    ensures forall id :: id in r <==>
      id in ids && id in connections && connections[id].sourceNodeIdx >= BiasNodeCount
    decreases |ids|
  {
    if ids == [] then []
    else
      var rest := SplitCandidates(ids[1..], connections);
      if ids[0] in connections && connections[ids[0]].sourceNodeIdx >= BiasNodeCount then [ids[0]] + rest else rest
  }

  /** The invariant of a genome that shares the registry `t`: every mutation can run without a
      dictionary insert meeting an existing key, and keeps the invariant. */
  ghost predicate Coherent(g: Genome, t: TrackerState) {
    && g.inputNodeCount > 0 && g.outputNodeCount > 0
    && RegistryLaidOut(t, g.inputNodeCount, g.outputNodeCount)
    && ListKeyInvariant(g) && Registered(g, t) && NodesLaidOut(g) && EndpointsKnown(g)
    && VacantFree(g) && WithinRegistry(g, t) && BuildReady(g)
    && SplitCandidates(g.connectionList, g.connections) != []
  }

  /** The registry is shared: another genome's mutation only grows it, which keeps this genome coherent. */
  lemma CoherentGrows(g: Genome, t: TrackerState, t': TrackerState)
    requires Coherent(g, t) && Grows(t, t') && RegistryLaidOut(t', g.inputNodeCount, g.outputNodeCount)
    ensures Coherent(g, t')
  {
  }

  // ---------------------------------------------------------------------------------------------
  // MutateAddConnection.
  // ---------------------------------------------------------------------------------------------

  /** `MutateAddConnection` on vacant index `k`: the link `vacantConnections[k]` becomes an active gene
      under the registry's id `id` for it, with the drawn weight, and one occurrence of the link leaves
      the vacant list. */
  function AddConnectionStep(g: Genome, k: int, id: int, weight: Weight): Genome
    requires 0 <= k < |g.vacantConnections|
  {
    var v := g.vacantConnections[k];
    g.(connectionList := g.connectionList + [id],
       connections := g.connections[id := ConnectionGene(v.0, v.1, id, true, weight)],
       vacantConnections := RemoveFirst(g.vacantConnections, v))
  }

  /** A gene of a coherent genome has an id other than the one the registry holds for any link the gene
      does not realise. */
  lemma OtherLinkOtherId(g: Genome, t: TrackerState, t': TrackerState, l: Link)
    requires Coherent(g, t) && Grows(t, t') && ValidState(t') && l in t'.innovations
    ensures forall x :: x in g.connections && LinkOf(g.connections[x]) != l ==> x != t'.innovations[l]
  {
    forall x | x in g.connections && LinkOf(g.connections[x]) != l ensures x != t'.innovations[l] {
      IdsDistinct(t', LinkOf(g.connections[x]), l);
    }
  }

  /** The registry's id for a vacant link is not yet a key, so the dictionary insert of
      `MutateAddConnection` never fails, and the mutation keeps the genome coherent. */
  lemma AddConnectionKeepsCoherent(g: Genome, t: TrackerState, t': TrackerState, k: int, id: int, weight: Weight)
    requires Coherent(g, t) && 0 <= k < |g.vacantConnections|
    requires Grows(t, t') && RegistryLaidOut(t', g.inputNodeCount, g.outputNodeCount)
    requires g.vacantConnections[k] in t'.innovations && t'.innovations[g.vacantConnections[k]] == id
    ensures id !in g.connections
    ensures Coherent(AddConnectionStep(g, k, id, weight), t')
  {
    var v := g.vacantConnections[k];
    OtherLinkOtherId(g, t, t', v);
    AddConnectionKeys(g, k, id, weight);
    AddConnectionVacant(g, k, id, weight);
    AddConnectionSplittable(g, k, id, weight);
    AddConnectionReady(g, k, id, weight);
  }

  /** The new gene leaves the source of a vacant link, and the vacant list only loses a link. */
  lemma AddConnectionReady(g: Genome, k: int, id: int, weight: Weight)
    requires BuildReady(g) && 0 <= k < |g.vacantConnections|
    ensures BuildReady(AddConnectionStep(g, k, id, weight))
  {
    var g' := AddConnectionStep(g, k, id, weight);
    var v := g.vacantConnections[k];
    assert v in g.vacantConnections;
    RemoveFirstMultiset(g.vacantConnections, v);
    forall u | u in g'.vacantConnections ensures !IsOutputIndex(g, u.0) {
      assert u in multiset(g'.vacantConnections);
    }
  }

  lemma AddConnectionSplittable(g: Genome, k: int, id: int, weight: Weight)
    requires SplitCandidates(g.connectionList, g.connections) != [] && 0 <= k < |g.vacantConnections|
    requires id !in g.connections
    ensures SplitCandidates(AddConnectionStep(g, k, id, weight).connectionList,
                            AddConnectionStep(g, k, id, weight).connections) != []
  {
    var g' := AddConnectionStep(g, k, id, weight);
    var c := SplitCandidates(g.connectionList, g.connections)[0];
    assert c in SplitCandidates(g'.connectionList, g'.connections);
  }

  /** `MutateAddConnection` adds one active gene for the chosen vacant link, removes one occurrence of the
      link from the vacant list, and leaves the nodes and every existing gene as they were. */
  lemma AddConnectionEffect(g: Genome, k: int, id: int, weight: Weight)
    requires 0 <= k < |g.vacantConnections| && id !in g.connections
    ensures var g' := AddConnectionStep(g, k, id, weight); var v := g.vacantConnections[k];
      && Extends(g, g') && g'.nodeList == g.nodeList
      && g'.connections.Keys == g.connections.Keys + {id}
      && (forall x :: x in g.connections ==> g'.connections[x] == g.connections[x])
      && g'.connections[id] == ConnectionGene(v.0, v.1, id, true, weight)
      && multiset(g'.vacantConnections) == multiset(g.vacantConnections) - multiset{v}
  {
    var v := g.vacantConnections[k];
    assert v in g.vacantConnections;
    RemoveFirstMultiset(g.vacantConnections, v);
  }

  lemma AddConnectionKeys(g: Genome, k: int, id: int, weight: Weight)
    requires ListKeyInvariant(g) && 0 <= k < |g.vacantConnections| && id !in g.connections
    ensures ListKeyInvariant(AddConnectionStep(g, k, id, weight))
  {
    NoDuplicatesAppend(g.connectionList, [id]);
  }

  lemma AddConnectionVacant(g: Genome, k: int, id: int, weight: Weight)
    requires EndpointsKnown(g) && VacantFree(g) && 0 <= k < |g.vacantConnections|
    ensures EndpointsKnown(AddConnectionStep(g, k, id, weight)) && VacantFree(AddConnectionStep(g, k, id, weight))
  {
    var v := g.vacantConnections[k];
    var g' := AddConnectionStep(g, k, id, weight);
    RemoveFirstNoDuplicates(g.vacantConnections, v);
    forall u | u in g'.vacantConnections ensures u in g.vacantConnections {
      assert u in Elems(g'.vacantConnections);
    }
  }

  // ---------------------------------------------------------------------------------------------
  // MutateAddNode.
  // ---------------------------------------------------------------------------------------------

  /** The nodes of `nodes`, in order, whose index is not `excludedIdx` and whose type is not one of
      `excludedTypes`: the LINQ filters by which `MutateAddNode` picks the nodes to pair with the new one. */
  function Side(nodes: seq<NodeGene>, excludedIdx: int, excludedTypes: set<NodeGeneType>): (r: seq<NodeGene>)
    ensures forall x :: x in r <==> x in nodes && x.idx != excludedIdx && x.nodeType !in excludedTypes
    decreases |nodes|
  {
    if nodes == [] then []
    else
      var rest := Side(nodes[1..], excludedIdx, excludedTypes);
      if nodes[0].idx != excludedIdx && nodes[0].nodeType !in excludedTypes then [nodes[0]] + rest else rest
  }

  /** The filter keeps distinct indices distinct. */
  lemma {:induction false} SideDistinct(nodes: seq<NodeGene>, excludedIdx: int, excludedTypes: set<NodeGeneType>)
    requires DistinctIdxs(nodes)
    ensures DistinctIdxs(Side(nodes, excludedIdx, excludedTypes))
    decreases |nodes|
  {
    if nodes != [] {
      var rest := Side(nodes[1..], excludedIdx, excludedTypes);
      assert DistinctIdxs(nodes[1..]) by {
        forall i, j | 0 <= i < j < |nodes[1..]| ensures nodes[1..][i].idx != nodes[1..][j].idx {
          assert nodes[1..][i] == nodes[i + 1] && nodes[1..][j] == nodes[j + 1];
        }
      }
      SideDistinct(nodes[1..], excludedIdx, excludedTypes);
      forall k | 0 <= k < |rest| ensures rest[k].idx != nodes[0].idx {
        assert rest[k] in nodes[1..];
        var j :| 0 <= j < |nodes[1..]| && nodes[1..][j] == rest[k];
        assert nodes[1..][j] == nodes[j + 1];
      }
      var r := Side(nodes, excludedIdx, excludedTypes);
      if nodes[0].idx != excludedIdx && nodes[0].nodeType !in excludedTypes {
        assert r == [nodes[0]] + rest;
        forall i, j | 0 <= i < j < |r| ensures r[i].idx != r[j].idx {
          assert r[j] == rest[j - 1];
          if i > 0 { assert r[i] == rest[i - 1]; }
        }
      }
    }
  }

  /** The vacant links from each of `nodes` into `target`. */
  function PairsInto(nodes: seq<NodeGene>, target: int): seq<Link> {
    seq(|nodes|, k requires 0 <= k < |nodes| => (nodes[k].idx, target))
  }

  /** The vacant links from `source` into each of `nodes`. */
  function PairsOutOf(source: int, nodes: seq<NodeGene>): seq<Link> {
    seq(|nodes|, k requires 0 <= k < |nodes| => (source, nodes[k].idx))
  }

  /** `MutateAddNode` splitting the gene `c` at the neuron `mid`, whose links in and out have the registry's
      ids `id1` and `id2`: the vacant list gains a link into `mid` from every node but the split gene's
      source and the outputs, then a link out of `mid` to every node but its target, the inputs and the
      bias; the node list gains `mid` as a hidden sigmoid node; the two new active genes are added, and
      the split gene is disabled. */
  function AddNodeStep(g: Genome, c: int, mid: int, id1: int, id2: int, w1: Weight, w2: Weight): Genome
    requires c in g.connections
  {
    var split := g.connections[c];
    g.(nodeList := g.nodeList + [NodeGene(Hidden, mid, Sigmoid)],
       connectionList := g.connectionList + [id1, id2],
       connections := g.connections[id1 := ConnectionGene(split.sourceNodeIdx, mid, id1, true, w1)]
                                   [id2 := ConnectionGene(mid, split.targetNodeIdx, id2, true, w2)]
                                   [c := split.Disabled()],
       vacantConnections := g.vacantConnections
         + PairsInto(Side(g.nodeList, split.sourceNodeIdx, {Output}), mid)
         + PairsOutOf(mid, Side(g.nodeList, split.targetNodeIdx, {Input, Bias})))
  }

  /** The gene `MutateAddNode` splits for a drawn value: `Next` over the split candidates. */
  function ChosenSplit(g: Genome, pick: nat): (c: int)
    requires SplitCandidates(g.connectionList, g.connections) != []
    ensures c in g.connections && g.connections[c].sourceNodeIdx >= BiasNodeCount
  {
    var candidates := SplitCandidates(g.connectionList, g.connections);
    candidates[Next(pick, |candidates|)]
  }

  /** What `MutateAddNode` may assume of the registry after `SplitInnovationConnection`: it only grew,
      it records the two halves of the split under `id1` and `id2`, and the midpoint is a hidden neuron
      it has numbered that the genome lacks. */
  ghost predicate SplitDone(g: Genome, t: TrackerState, t': TrackerState, c: int, mid: int, id1: int, id2: int)
    requires c in g.connections
  {
    var split := g.connections[c];
    && Grows(t, t') && RegistryLaidOut(t', g.inputNodeCount, g.outputNodeCount)
    && (split.sourceNodeIdx, mid) in t'.innovations && t'.innovations[(split.sourceNodeIdx, mid)] == id1
    && (mid, split.targetNodeIdx) in t'.innovations && t'.innovations[(mid, split.targetNodeIdx)] == id2
    && !HasIdx(g.nodeList, mid) && BiasNodeCount + g.inputNodeCount + g.outputNodeCount <= mid <= t'.nextNeuronNumber
  }

  /** A split the registry performs keeps it laid out for the genome's counts, and the midpoint, minted
      or reused, lies beyond the fixed nodes. */
  lemma SplitKeepsLaidOut(t: TrackerState, t': TrackerState, link: Link, mid: int, inputCount: int, outputCount: int,
                          minted: bool)
    requires RegistryLaidOut(t, inputCount, outputCount) && ValidState(t') && BoundedState(t') && Grows(t, t')
    requires minted ==>
      && mid == t.nextNeuronNumber + 1
      && t'.splitConnections == t.splitConnections[link :=
           (if link in t.splitConnections then t.splitConnections[link] else []) + [mid]]
    requires !minted ==> t' == t && link in t.splitConnections && mid in t.splitConnections[link]
    ensures RegistryLaidOut(t', inputCount, outputCount) && BiasNodeCount + inputCount + outputCount <= mid
  {
    if !minted {
      var k :| 0 <= k < |t.splitConnections[link]| && t.splitConnections[link][k] == mid;
    }
  }

  /** An index of a node of the list extended by `x` is one of the list or `x`'s. */
  lemma HasIdxAppend(nodes: seq<NodeGene>, x: NodeGene)
    ensures forall i :: HasIdx(nodes + [x], i) <==> HasIdx(nodes, i) || x.idx == i
  {
    forall i ensures HasIdx(nodes + [x], i) <==> HasIdx(nodes, i) || x.idx == i {
      if HasIdx(nodes, i) {
        var k :| 0 <= k < |nodes| && nodes[k].idx == i;
        assert (nodes + [x])[k] == nodes[k];
      }
      if HasIdx(nodes + [x], i) {
        var k :| 0 <= k < |nodes + [x]| && (nodes + [x])[k].idx == i;
        if k < |nodes| { assert (nodes + [x])[k] == nodes[k]; }
      }
      assert (nodes + [x])[|nodes|] == x;
    }
  }

  /** The links into `mid`: none from the excluded index, each from a node of the list, and no two alike
      when the list's indices are distinct. */
  lemma PairsIntoFacts(nodes: seq<NodeGene>, excludedIdx: int, excludedTypes: set<NodeGeneType>, mid: int)
    ensures forall u :: u in PairsInto(Side(nodes, excludedIdx, excludedTypes), mid) ==>
      u.1 == mid && u.0 != excludedIdx && HasIdx(nodes, u.0)
    ensures DistinctIdxs(nodes) ==> NoDuplicates(PairsInto(Side(nodes, excludedIdx, excludedTypes), mid))
  {
    var side := Side(nodes, excludedIdx, excludedTypes);
    var r := PairsInto(side, mid);
    forall u | u in r ensures u.1 == mid && u.0 != excludedIdx && HasIdx(nodes, u.0) {
      var k :| 0 <= k < |r| && r[k] == u;
      assert side[k] in side;
      var j :| 0 <= j < |nodes| && nodes[j] == side[k];
    }
    if DistinctIdxs(nodes) {
      SideDistinct(nodes, excludedIdx, excludedTypes);
    }
  }

  /** The links out of `mid`, likewise. */
  lemma PairsOutOfFacts(nodes: seq<NodeGene>, excludedIdx: int, excludedTypes: set<NodeGeneType>, mid: int)
    ensures forall u :: u in PairsOutOf(mid, Side(nodes, excludedIdx, excludedTypes)) ==>
      u.0 == mid && u.1 != excludedIdx && HasIdx(nodes, u.1)
    ensures DistinctIdxs(nodes) ==> NoDuplicates(PairsOutOf(mid, Side(nodes, excludedIdx, excludedTypes)))
  {
    var side := Side(nodes, excludedIdx, excludedTypes);
    var r := PairsOutOf(mid, side);
    forall u | u in r ensures u.0 == mid && u.1 != excludedIdx && HasIdx(nodes, u.1) {
      var k :| 0 <= k < |r| && r[k] == u;
      assert side[k] in side;
      var j :| 0 <= j < |nodes| && nodes[j] == side[k];
    }
    if DistinctIdxs(nodes) {
      SideDistinct(nodes, excludedIdx, excludedTypes);
    }
  }

  /** Neither id of the split's halves is a key yet, and the two differ, so both dictionary inserts of
      `MutateAddNode` succeed. */
  lemma AddNodeIdsFresh(g: Genome, t: TrackerState, t': TrackerState, c: int, mid: int, id1: int, id2: int)
    requires Coherent(g, t) && c in g.connections && SplitDone(g, t, t', c, mid, id1, id2)
    ensures id1 !in g.connections && id2 !in g.connections && id1 != id2
  {
    var split := g.connections[c];
    forall x | x in g.connections
      ensures g.connections[x].sourceNodeIdx != mid && g.connections[x].targetNodeIdx != mid
    {
      assert HasIdx(g.nodeList, g.connections[x].sourceNodeIdx);
      assert HasIdx(g.nodeList, g.connections[x].targetNodeIdx);
    }
    OtherLinkOtherId(g, t, t', (split.sourceNodeIdx, mid));
    OtherLinkOtherId(g, t, t', (mid, split.targetNodeIdx));
    IdsDistinct(t', (split.sourceNodeIdx, mid), (mid, split.targetNodeIdx));
  }

  lemma AddNodeKeys(g: Genome, c: int, mid: int, id1: int, id2: int, w1: Weight, w2: Weight)
    requires ListKeyInvariant(g) && c in g.connections
    requires id1 !in g.connections && id2 !in g.connections && id1 != id2
    ensures ListKeyInvariant(AddNodeStep(g, c, mid, id1, id2, w1, w2))
  {
    NoDuplicatesAppend(g.connectionList, [id1, id2]);
  }

  lemma AddNodeRegistered(g: Genome, t: TrackerState, t': TrackerState, c: int, mid: int, id1: int, id2: int,
                          w1: Weight, w2: Weight)
    requires Registered(g, t) && c in g.connections && SplitDone(g, t, t', c, mid, id1, id2)
    ensures Registered(AddNodeStep(g, c, mid, id1, id2, w1, w2), t')
  {
  }

  lemma AddNodeLaidOut(g: Genome, c: int, mid: int, id1: int, id2: int, w1: Weight, w2: Weight)
    requires NodesLaidOut(g) && c in g.connections && !HasIdx(g.nodeList, mid)
    requires g.inputNodeCount > 0 && g.outputNodeCount > 0
    requires BiasNodeCount + g.inputNodeCount + g.outputNodeCount <= mid
    ensures NodesLaidOut(AddNodeStep(g, c, mid, id1, id2, w1, w2))
  {
    var nodes := AddNodeStep(g, c, mid, id1, id2, w1, w2).nodeList;
    forall i, j | 0 <= i < j < |nodes| ensures nodes[i].idx != nodes[j].idx {
      assert nodes[i] == g.nodeList[i];
      if j < |g.nodeList| {
        assert nodes[j] == g.nodeList[j];
      }
    }
  }

  lemma AddNodeEndpoints(g: Genome, c: int, mid: int, id1: int, id2: int, w1: Weight, w2: Weight)
    requires EndpointsKnown(g) && c in g.connections
    ensures EndpointsKnown(AddNodeStep(g, c, mid, id1, id2, w1, w2))
  {
    var split := g.connections[c];
    HasIdxAppend(g.nodeList, NodeGene(Hidden, mid, Sigmoid));
    PairsIntoFacts(g.nodeList, split.sourceNodeIdx, {Output}, mid);
    PairsOutOfFacts(g.nodeList, split.targetNodeIdx, {Input, Bias}, mid);
  }

  lemma AddNodeVacant(g: Genome, c: int, mid: int, id1: int, id2: int, w1: Weight, w2: Weight)
    requires EndpointsKnown(g) && VacantFree(g) && DistinctIdxs(g.nodeList) && c in g.connections
    requires !HasIdx(g.nodeList, mid) && id1 !in g.connections && id2 !in g.connections && id1 != id2
    ensures VacantFree(AddNodeStep(g, c, mid, id1, id2, w1, w2))
  {
    var split := g.connections[c];
    var g' := AddNodeStep(g, c, mid, id1, id2, w1, w2);
    var into := PairsInto(Side(g.nodeList, split.sourceNodeIdx, {Output}), mid);
    var outOf := PairsOutOf(mid, Side(g.nodeList, split.targetNodeIdx, {Input, Bias}));
    PairsIntoFacts(g.nodeList, split.sourceNodeIdx, {Output}, mid);
    PairsOutOfFacts(g.nodeList, split.targetNodeIdx, {Input, Bias}, mid);
    assert g'.vacantConnections == g.vacantConnections + into + outOf;
    forall u | u in g.vacantConnections ensures u !in into && u !in outOf {
      assert HasIdx(g.nodeList, u.0) && HasIdx(g.nodeList, u.1);
    }
    NoDuplicatesAppend(g.vacantConnections, into);
    forall u | u in g.vacantConnections + into ensures u !in outOf {
      assert HasIdx(g.nodeList, u.0);
    }
    NoDuplicatesAppend(g.vacantConnections + into, outOf);
    forall x | x in g'.connections ensures LinkOf(g'.connections[x]) !in g'.vacantConnections {
      if x == id1 || x == id2 {
        assert HasIdx(g.nodeList, split.sourceNodeIdx) && HasIdx(g.nodeList, split.targetNodeIdx);
      } else {
        assert LinkOf(g'.connections[x]) == LinkOf(g.connections[x]);
        assert HasIdx(g.nodeList, g.connections[x].sourceNodeIdx);
        assert HasIdx(g.nodeList, g.connections[x].targetNodeIdx);
      }
    }
  }

  lemma AddNodeWithin(g: Genome, t: TrackerState, t': TrackerState, c: int, mid: int, id1: int, id2: int,
                      w1: Weight, w2: Weight)
    requires WithinRegistry(g, t) && c in g.connections && SplitDone(g, t, t', c, mid, id1, id2)
    ensures WithinRegistry(AddNodeStep(g, c, mid, id1, id2, w1, w2), t')
  {
    var nodes := AddNodeStep(g, c, mid, id1, id2, w1, w2).nodeList;
    forall k | 0 <= k < |nodes| ensures nodes[k].idx <= t'.nextNeuronNumber {
      if k < |g.nodeList| {
        assert nodes[k] == g.nodeList[k];
      }
    }
  }

  /** The halves leave the split gene's source and the hidden midpoint, the links into the midpoint leave
      nodes that are not outputs, and the fixed nodes stay. */
  lemma AddNodeReady(g: Genome, c: int, mid: int, id1: int, id2: int, w1: Weight, w2: Weight)
    requires BuildReady(g) && NodesLaidOut(g) && g.inputNodeCount >= 0 && c in g.connections
    requires BiasNodeCount + g.inputNodeCount + g.outputNodeCount <= mid
    ensures BuildReady(AddNodeStep(g, c, mid, id1, id2, w1, w2))
  {
    var g' := AddNodeStep(g, c, mid, id1, id2, w1, w2);
    var split := g.connections[c];
    HasIdxAppend(g.nodeList, NodeGene(Hidden, mid, Sigmoid));
    IntoMidpointNotFromOutput(g, split.sourceNodeIdx, mid);
    var outOf := PairsOutOf(mid, Side(g.nodeList, split.targetNodeIdx, {Input, Bias}));
    forall u | u in outOf ensures u.0 == mid {
      var q :| 0 <= q < |outOf| && outOf[q] == u;
    }
  }

  /** A node the add-node filter keeps for a link into the midpoint is not an output. */
  lemma IntoMidpointNotFromOutput(g: Genome, excludedIdx: int, mid: int)
    requires NodesLaidOut(g) && g.inputNodeCount >= 0
    ensures forall u :: u in PairsInto(Side(g.nodeList, excludedIdx, {Output}), mid) ==> !IsOutputIndex(g, u.0)
  {
    var side := Side(g.nodeList, excludedIdx, {Output});
    var into := PairsInto(side, mid);
    forall u | u in into ensures !IsOutputIndex(g, u.0) {
      var q :| 0 <= q < |into| && into[q] == u;
      var x := side[q];
      assert u.0 == x.idx;
      assert x in side;
      var j :| 0 <= j < |g.nodeList| && g.nodeList[j] == x;
      assert x == LayoutNode(g.inputNodeCount, g.outputNodeCount, x.idx);
    }
  }

  lemma AddNodeSplittable(g: Genome, c: int, mid: int, id1: int, id2: int, w1: Weight, w2: Weight)
    requires SplitCandidates(g.connectionList, g.connections) != [] && c in g.connections
    requires id1 !in g.connections && id2 !in g.connections
    ensures SplitCandidates(AddNodeStep(g, c, mid, id1, id2, w1, w2).connectionList,
                            AddNodeStep(g, c, mid, id1, id2, w1, w2).connections) != []
  {
    var g' := AddNodeStep(g, c, mid, id1, id2, w1, w2);
    var c0 := SplitCandidates(g.connectionList, g.connections)[0];
    assert c0 in SplitCandidates(g'.connectionList, g'.connections);
  }

  /** `MutateAddNode` appends the hidden node, appends the two new ids, adds the two active halves, disables
      the split gene, keeps every other gene, and only appends to the vacant list. */
  lemma AddNodeEffect(g: Genome, c: int, mid: int, id1: int, id2: int, w1: Weight, w2: Weight)
    requires c in g.connections && id1 !in g.connections && id2 !in g.connections && id1 != id2
    ensures var g' := AddNodeStep(g, c, mid, id1, id2, w1, w2); var split := g.connections[c];
      && Extends(g, g')
      && g'.nodeList == g.nodeList + [NodeGene(Hidden, mid, Sigmoid)]
      && g'.connectionList == g.connectionList + [id1, id2]
      && g'.connections.Keys == g.connections.Keys + {id1, id2}
      && g'.connections[id1] == ConnectionGene(split.sourceNodeIdx, mid, id1, true, w1)
      && g'.connections[id2] == ConnectionGene(mid, split.targetNodeIdx, id2, true, w2)
      && g'.connections[c] == split.(isActive := false)
      && (forall x :: x in g.connections && x != c ==> g'.connections[x] == g.connections[x])
      && g.vacantConnections <= g'.vacantConnections
  {
  }

  /** `MutateAddNode` keeps the genome coherent. */
  lemma AddNodeKeepsCoherent(g: Genome, t: TrackerState, t': TrackerState, c: int, mid: int, id1: int, id2: int,
                             w1: Weight, w2: Weight)
    requires Coherent(g, t) && c in g.connections && SplitDone(g, t, t', c, mid, id1, id2)
    ensures id1 !in g.connections && id2 !in g.connections && id1 != id2
    ensures Coherent(AddNodeStep(g, c, mid, id1, id2, w1, w2), t')
  {
    AddNodeIdsFresh(g, t, t', c, mid, id1, id2);
    AddNodeKeys(g, c, mid, id1, id2, w1, w2);
    AddNodeRegistered(g, t, t', c, mid, id1, id2, w1, w2);
    AddNodeLaidOut(g, c, mid, id1, id2, w1, w2);
    AddNodeEndpoints(g, c, mid, id1, id2, w1, w2);
    AddNodeVacant(g, c, mid, id1, id2, w1, w2);
    AddNodeWithin(g, t, t', c, mid, id1, id2, w1, w2);
    AddNodeSplittable(g, c, mid, id1, id2, w1, w2);
    AddNodeReady(g, c, mid, id1, id2, w1, w2);
  }

  // ---------------------------------------------------------------------------------------------
  // Helpers shared by the mutations.
  // ---------------------------------------------------------------------------------------------

  /** `Dictionary.Add`, which throws on a key that is already present. */
  function DictionaryAdd<K, V>(m: map<K, V>, key: K, value: V): map<K, V>
    requires key !in m
  {
    m[key := value]
  }

  /** The dictionary's values in enumeration order, which is the order of the id list. */
  function DictionaryValues(ids: seq<int>, connections: map<int, ConnectionGene>): (r: seq<ConnectionGene>)
    requires forall k :: 0 <= k < |ids| ==> ids[k] in connections
    ensures |r| == |ids| && forall k :: 0 <= k < |ids| ==> r[k] == connections[ids[k]]
  {
    seq(|ids|, k requires 0 <= k < |ids| => connections[ids[k]])
  }

  /** `g'` keeps everything `g` has: its nodes and ids as prefixes, and each gene's link and id. */
  ghost predicate Extends(g: Genome, g': Genome) {
    && g'.inputNodeCount == g.inputNodeCount && g'.outputNodeCount == g.outputNodeCount
    && g.nodeList <= g'.nodeList && g.connectionList <= g'.connectionList
    && (forall id :: id in g.connections ==>
          id in g'.connections && LinkOf(g'.connections[id]) == LinkOf(g.connections[id])
          && g'.connections[id].innovationNumber == g.connections[id].innovationNumber)
  }

  lemma ExtendsTransitive(g: Genome, g': Genome, g'': Genome)
    requires Extends(g, g') && Extends(g', g'')
    ensures Extends(g, g'')
  {
  }

  /** Every vacant link of a coherent genome joins neurons the registry has numbered, so recording it keeps
      every recorded link within the numbered neurons. */
  lemma VacantWithinRegistry(g: Genome, t: TrackerState, k: int)
    requires Coherent(g, t) && 0 <= k < |g.vacantConnections|
    ensures g.vacantConnections[k].0 <= t.nextNeuronNumber && g.vacantConnections[k].1 <= t.nextNeuronNumber
  {
    var v := g.vacantConnections[k];
    assert v in g.vacantConnections;
    var a :| 0 <= a < |g.nodeList| && g.nodeList[a].idx == v.0;
    var b :| 0 <= b < |g.nodeList| && g.nodeList[b].idx == v.1;
  }

  /** Every node of a coherent genome is numbered by the registry, so a midpoint the registry mints is new
      to the genome. */
  lemma NodesWithinRegistry(g: Genome, t: TrackerState, c: int)
    requires Coherent(g, t) && c in g.connections
    ensures forall k :: 0 <= k < |g.nodeList| ==> g.nodeList[k].idx <= t.nextNeuronNumber
    ensures g.connections[c].sourceNodeIdx <= t.nextNeuronNumber && g.connections[c].targetNodeIdx <= t.nextNeuronNumber
  {
    var a :| 0 <= a < |g.nodeList| && g.nodeList[a].idx == g.connections[c].sourceNodeIdx;
    var b :| 0 <= b < |g.nodeList| && g.nodeList[b].idx == g.connections[c].targetNodeIdx;
  }

  // ---------------------------------------------------------------------------------------------
  // MutateConnectionWeight.
  // ---------------------------------------------------------------------------------------------

  /** The weight `MutateConnectionWeight` leaves on the gene in position `k` of the dictionary order: the
      drawn one, if the draws mutate that gene, and the current one otherwise. */
  function DrawnWeight(draws: seq<Option<Weight>>, k: int, current: Weight): Weight {
    if 0 <= k < |draws| && draws[k].Some? then draws[k].value else current
  }

  /** `g'` differs from `g` at most in the weights of its genes: the topology is unchanged. */
  ghost predicate SameTopology(g: Genome, g': Genome) {
    && g' == g.(connections := g'.connections)
    && (forall id :: id in g'.connections <==> id in g.connections)
    && (forall id :: id in g.connections ==> g'.connections[id] == g.connections[id].(weight := g'.connections[id].weight))
  }

  lemma SameTopologyExtends(g: Genome, g': Genome)
    requires SameTopology(g, g')
    ensures Extends(g, g')
  {
  }

  /** Changing only weights keeps a genome coherent. */
  lemma SameTopologyKeepsCoherent(g: Genome, g': Genome, t: TrackerState)
    requires Coherent(g, t) && SameTopology(g, g')
    ensures Coherent(g', t)
  {
    var c0 := SplitCandidates(g.connectionList, g.connections)[0];
    assert c0 in SplitCandidates(g'.connectionList, g'.connections);
    SameTopologyReady(g, g');
  }

  lemma SameTopologyReady(g: Genome, g': Genome)
    requires BuildReady(g) && SameTopology(g, g')
    ensures BuildReady(g')
  {
  }

  // ---------------------------------------------------------------------------------------------
  // MutateStructure.
  // ---------------------------------------------------------------------------------------------

  /** `Random.Next(maxValue)` for a drawn value: a number below `maxValue`, or 0 when `maxValue` is 0. */
  function Next(draw: nat, maxValue: nat): (r: nat)
    ensures maxValue > 0 ==> r < maxValue
    ensures maxValue == 0 ==> r == 0
    ensures draw < maxValue ==> r == draw
  {
    if maxValue == 0 then 0 else draw % maxValue
  }

  /** The three mutations one step of `MutateStructure` can perform. */
  datatype Operator = AddConnection | AddNode | MutateWeights

  /** The total weight of the operators a step chooses from. */
  function TotalChance(p: MutationParameters, hasVacant: bool): nat {
    if hasVacant then p.addConnectionChance + p.addNodeChance + p.mutateWeightChance
    else p.addNodeChance + p.mutateWeightChance
  }

  /** The operator one step chooses for a drawn value: with vacant links, the draw below the total of the
      three weights picks add-connection, add-node or weight mutation by consecutive ranges; without them,
      add-connection is left out of the choice. */
  function ChooseOperator(p: MutationParameters, hasVacant: bool, draw: nat): (op: Operator)
    ensures !hasVacant ==> op != AddConnection
  {
    var chance := Next(draw, TotalChance(p, hasVacant));
    if hasVacant then
      if chance < p.addConnectionChance then AddConnection
      else if chance < p.addConnectionChance + p.addNodeChance then AddNode
      else MutateWeights
    else
      if chance < p.addNodeChance then AddNode else MutateWeights
  }

  /** The weight each operator has in a step. */
  function OperatorChance(p: MutationParameters, hasVacant: bool, op: Operator): nat {
    match op
    case AddConnection => if hasVacant then p.addConnectionChance else 0
    case AddNode => p.addNodeChance
    case MutateWeights => p.mutateWeightChance
  }

  /** The draws below the total weight that choose `op`. */
  function DrawsChoosing(p: MutationParameters, hasVacant: bool, op: Operator): set<nat> {
    set d: nat | d < TotalChance(p, hasVacant) && ChooseOperator(p, hasVacant, d) == op
  }

  /** The integers in `[lo, hi)`. */
  function Interval(lo: nat, hi: nat): (r: set<nat>)
    ensures forall d :: d in r <==> lo <= d < hi
    decreases hi - lo
  {
    if lo < hi then {lo} + Interval(lo + 1, hi) else {}
  }

  lemma {:induction false} IntervalSize(lo: nat, hi: nat)
    requires lo <= hi
    ensures |Interval(lo, hi)| == hi - lo
    decreases hi - lo
  {
    if lo < hi {
      IntervalSize(lo + 1, hi);
    }
  }

  /** When the draw is uniform below the total weight, each operator is chosen with probability
      proportional to its weight: exactly that many of the draws choose it. */
  lemma ChoiceFollowsChances(p: MutationParameters, hasVacant: bool, op: Operator)
    ensures |DrawsChoosing(p, hasVacant, op)| == OperatorChance(p, hasVacant, op)
  {
    var total := TotalChance(p, hasVacant);
    var ac := if hasVacant then p.addConnectionChance else 0;
    var bounds: (nat, nat) := match op
      case AddConnection => (0, ac)
      case AddNode => (ac, ac + p.addNodeChance)
      case MutateWeights => (ac + p.addNodeChance, total);
    var lo, hi := bounds.0, bounds.1;
    forall d: nat ensures d in DrawsChoosing(p, hasVacant, op) <==> d in Interval(lo, hi) {
      if d < total { assert Next(d, total) == d; }
    }
    assert DrawsChoosing(p, hasVacant, op) == Interval(lo, hi);
    IntervalSize(lo, hi);
  }

  /** The draws one step of `MutateStructure` consumes: the operator chance, the index of the vacant link
      or the gene to split, the weights of the new genes, and the new weight of each gene (in dictionary
      order) when the step mutates weights; a gene without one keeps its weight. */
  datatype StepDraws = StepDraws(chance: nat, pick: nat, weight1: Weight, weight2: Weight, weights: seq<Option<Weight>>)

  /** `MutateConnectionWeight` on values: every gene takes the weight drawn for its position in the
      dictionary order, and nothing else changes. */
  function WeightsDrawn(g: Genome, draws: seq<Option<Weight>>): (g': Genome)
    ensures SameTopology(g, g')
  {
    g.(connections := map id | id in g.connections ::
         g.connections[id].(weight := DrawnWeight(draws, FirstIndex(g.connectionList, id), g.connections[id].weight)))
  }

  /** A genome whose gene in each position of the dictionary order carries the weight drawn for that
      position, and which is otherwise unchanged, is `WeightsDrawn`. */
  lemma WeightsDrawnByPosition(g: Genome, g': Genome, draws: seq<Option<Weight>>)
    requires ListKeyInvariant(g) && SameTopology(g, g')
    requires forall k :: 0 <= k < |g.connectionList| ==>
      && g.connectionList[k] in g'.connections
      && g'.connections[g.connectionList[k]].weight == DrawnWeight(draws, k, g.connections[g.connectionList[k]].weight)
    ensures g' == WeightsDrawn(g, draws)
  {
    var w := WeightsDrawn(g, draws);
    forall id | id in g.connections ensures g'.connections[id] == w.connections[id] {
      var k := FirstIndex(g.connectionList, id);
      FirstIndexDistinct(g.connectionList, k);
    }
    assert forall id :: id in g'.connections <==> id in w.connections;
    assert g'.connections == w.connections;
  }

  /** The split the registry performs for a gene of a coherent genome is one `MutateAddNode` can apply: the
      registry only grows and stays laid out, records both halves of the split under the ids it returns,
      and the midpoint is a hidden neuron the genome lacks. */
  lemma SplitIsDone(g: Genome, t: TrackerState, c: int)
    requires Coherent(g, t) && c in g.connections
    ensures var s := Split(t, LinkOf(g.connections[c]), g.nodeList);
      SplitDone(g, t, s.after, c, s.neuron, s.id1, s.id2)
  {
    var link := LinkOf(g.connections[c]);
    var s := Split(t, link, g.nodeList);
    NodesWithinRegistry(g, t, c);
    var mids := if link in t.splitConnections then t.splitConnections[link] else [];
    if FirstAbsent(mids, g.nodeList) < |mids| {
      SplitKeepsLaidOut(t, s.after, link, s.neuron, g.inputNodeCount, g.outputNodeCount, false);
    } else {
      MintKeepsValid(t, link, mids, s.after);
      SplitKeepsLaidOut(t, s.after, link, s.neuron, g.inputNodeCount, g.outputNodeCount, true);
    }
  }

  /** One step of `MutateStructure` on values: the operator the chance draw chooses (add-connection only
      while a vacant link exists), run with the step's other draws on the genome and the shared registry. */
  function MutationStep(p: MutationParameters, g: Genome, t: TrackerState, d: StepDraws): (Genome, TrackerState)
    requires Coherent(g, t)
  {
    match ChooseOperator(p, |g.vacantConnections| > 0, d.chance)
    case AddConnection =>
      var k := Next(d.pick, |g.vacantConnections|);
      var rec := Record(t, g.vacantConnections[k]);
      (AddConnectionStep(g, k, rec.id, d.weight1), rec.after)
    case AddNode =>
      var c := ChosenSplit(g, d.pick);
      var s := Split(t, LinkOf(g.connections[c]), g.nodeList);
      (AddNodeStep(g, c, s.neuron, s.id1, s.id2, d.weight1, d.weight2), s.after)
    case MutateWeights =>
      (WeightsDrawn(g, d.weights), t)
  }

  /** Every step keeps the genome coherent with the registry, only extends the genome and only grows the
      registry. */
  lemma MutationStepKeepsCoherent(p: MutationParameters, g: Genome, t: TrackerState, d: StepDraws)
    requires Coherent(g, t)
    ensures var r := MutationStep(p, g, t, d); Coherent(r.0, r.1) && Extends(g, r.0) && Grows(t, r.1)
  {
    match ChooseOperator(p, |g.vacantConnections| > 0, d.chance)
    case AddConnection =>
      var k := Next(d.pick, |g.vacantConnections|);
      var rec := Record(t, g.vacantConnections[k]);
      VacantWithinRegistry(g, t, k);
      AddConnectionKeepsCoherent(g, t, rec.after, k, rec.id, d.weight1);
      AddConnectionEffect(g, k, rec.id, d.weight1);
    case AddNode =>
      var c := ChosenSplit(g, d.pick);
      var s := Split(t, LinkOf(g.connections[c]), g.nodeList);
      SplitIsDone(g, t, c);
      AddNodeKeepsCoherent(g, t, s.after, c, s.neuron, s.id1, s.id2, d.weight1, d.weight2);
      AddNodeEffect(g, c, s.neuron, s.id1, s.id2, d.weight1, d.weight2);
    case MutateWeights =>
      SameTopologyKeepsCoherent(g, WeightsDrawn(g, d.weights), t);
      SameTopologyExtends(g, WeightsDrawn(g, d.weights));
  }

  /** `MutateStructure` on values: one step per draw, in order. The genome stays coherent with the
      registry, only extends, and the registry only grows. */
  function Mutated(p: MutationParameters, g: Genome, t: TrackerState, draws: seq<StepDraws>): (r: (Genome, TrackerState))
    requires Coherent(g, t)
    ensures Coherent(r.0, r.1) && Extends(g, r.0) && Grows(t, r.1)
    decreases |draws|
  {
    if draws == [] then (g, t)
    else
      var m := Mutated(p, g, t, draws[..|draws| - 1]);
      MutationStepKeepsCoherent(p, m.0, m.1, draws[|draws| - 1]);
      var r := MutationStep(p, m.0, m.1, draws[|draws| - 1]);
      ExtendsTransitive(g, m.0, r.0);
      GrowsTransitive(t, m.1, r.1);
      r
  }

  /** `Mutated` over the first `i + 1` draws is one more step after the first `i`. */
  lemma MutatedStepByStep(p: MutationParameters, g: Genome, t: TrackerState, draws: seq<StepDraws>, i: int)
    requires Coherent(g, t) && 0 <= i < |draws|
    ensures var m := Mutated(p, g, t, draws[..i]);
      Mutated(p, g, t, draws[..i + 1]) == MutationStep(p, m.0, m.1, draws[i])
  {
    assert draws[..i + 1][..i] == draws[..i];
  }
}
