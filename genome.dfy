/**
 * `NeatGenome`: the node list, the connection-id list, the dictionary from id to gene and the vacant
 * links, changed in place by the initial layout and the structural mutations, with the cached network
 * and its dirty flag. Every random draw is a parameter.
 */
module Genomes {
  import opened Wrappers
  import opened Sequences
  import opened GenomeTypes
  import opened NetworkConfig
  import opened MutationConfig
  import opened NetworkTypes
  import opened Innovations
  import opened GenomeValues
  import opened GenomeLayout
  import opened GenomeCrossover
  import Compiler

  class NeatGenome {
    /** The registry every genome of the population shares. */
    const tracker: InnovationTracker
    const mutationParameters: MutationParameters
    const inputNodeCount: nat
    const outputNodeCount: nat

    var nodeList: seq<NodeGene>
    var connectionList: seq<int>
    var connections: map<int, ConnectionGene>
    var vacantConnections: seq<Link>

    /** The cached network and the flag that says it must be rebuilt. */
    var network: Option<CompiledNetwork>
    var needBuildNetwork: bool

    /** The genome as a value: what another genome reads of it through its interface. */
    function State(): Genome
      reads this`nodeList, this`connectionList, this`connections, this`vacantConnections
    {
      Genome(inputNodeCount, outputNodeCount, nodeList, connectionList, connections, vacantConnections)
    }

    /** The list/key invariant, which every genome keeps, initialised or not. */
    ghost predicate Keyed()
      reads this`nodeList, this`connectionList, this`connections, this`vacantConnections
    {
      ListKeyInvariant(State())
    }

    /** An initialised genome is coherent with the shared registry. */
    ghost predicate Valid()
      reads this`nodeList, this`connectionList, this`connections, this`vacantConnections, tracker
    {
      Coherent(State(), tracker.State())
    }

    /** A clean flag means a network is cached. */
    predicate CacheHeld()
      reads this
    {
      !needBuildNetwork ==> network.Some?
    }

    /** A clean flag means the cached network is a compilation of the genome as it is now. */
    ghost predicate CacheFresh()
      reads this
      requires forall k :: 0 <= k < |connectionList| ==> connectionList[k] in connections
    {
      !needBuildNetwork ==> network.Some? && Compiler.IsCompilationOf(View(), network.value)
    }

    /** What the network builder reads from the genome. */
    function View(): Compiler.GenomeView
      reads this`nodeList, this`connectionList, this`connections, this`vacantConnections
      requires forall k :: 0 <= k < |connectionList| ==> connectionList[k] in connections
    {
      ViewOf(State())
    }

    /** The public constructor: empty collections, no network, dirty. */
    constructor (networkParameters: NetworkParameters, mutationParameters: MutationParameters, tracker: InnovationTracker)
      requires networkParameters.Valid()
      ensures this.tracker == tracker && this.mutationParameters == mutationParameters
      ensures inputNodeCount == networkParameters.inputNodeCount && outputNodeCount == networkParameters.outputNodeCount
      ensures State() == Genome(inputNodeCount, outputNodeCount, [], [], map[], [])
      ensures network == None && needBuildNetwork
      ensures Keyed() && CacheHeld()
    {
      this.tracker := tracker;
      this.mutationParameters := mutationParameters;
      inputNodeCount := networkParameters.inputNodeCount;
      outputNodeCount := networkParameters.outputNodeCount;
      nodeList := [];
      connectionList := [];
      connections := map[];
      vacantConnections := [];
      network := None;
      needBuildNetwork := true;
    }

    /** The copy constructor: the same registry, parameters and counts, and the four collections copied
        element by element, the dictionary in its enumeration order; no network, dirty. */
    constructor Copy(genome: NeatGenome)
      requires genome.Keyed()
      ensures tracker == genome.tracker && mutationParameters == genome.mutationParameters
      ensures State() == genome.State()
      ensures network == None && needBuildNetwork
      ensures Keyed() && CacheHeld()
    {
      var nodes := CopyNodes(genome.nodeList);
      var ids := CopyIds(genome.connectionList);
      var genes := CopyGenes(genome.connectionList, genome.connections);
      var vacant := CopyLinks(genome.vacantConnections);
      tracker := genome.tracker;
      mutationParameters := genome.mutationParameters;
      inputNodeCount := genome.inputNodeCount;
      outputNodeCount := genome.outputNodeCount;
      nodeList := nodes;
      connectionList := ids;
      connections := genes;
      vacantConnections := vacant;
      network := None;
      needBuildNetwork := true;
    }

    // -------------------------------------------------------------------------------------------
    // Crossover.
    // -------------------------------------------------------------------------------------------

    /** `Crossover`: a new genome on the first parent's parameters and the shared registry, filled with the
        union of the parents' nodes, the union of their id lists, a copy of each gene from the first parent
        that has it, and the union of their vacant links less those a child gene realises. It fails, and
        the half-built child is dropped, at an id neither parent has a gene for. */
    static method Crossover(genome1: NeatGenome, genome2: NeatGenome) returns (r: Result<NeatGenome, CrossoverError>)
      requires genome1.inputNodeCount > 0 && genome1.outputNodeCount > 0
      ensures r.Failure? <==> CrossoverOf(genome1.State(), genome2.State()).Failure?
      ensures r.Success? ==>
        && fresh(r.value)
        && r.value.State() == CrossoverOf(genome1.State(), genome2.State()).value
        && r.value.tracker == genome1.tracker && r.value.mutationParameters == genome1.mutationParameters
        && r.value.network == None && r.value.needBuildNetwork
    {
      var child := new NeatGenome(NetworkParameters(genome1.inputNodeCount, genome1.outputNodeCount),
                                  genome1.mutationParameters, genome1.tracker);
      var ok := child.Inherit(genome1.State(), genome2.State());
      if !ok {
        return Failure(ParentsLackChildConnection);
      }
      return Success(child);
    }

    /** The four collections of a fresh child filled from two parents, as `Crossover` does. */
    method Inherit(g1: Genome, g2: Genome) returns (ok: bool)
      requires inputNodeCount == g1.inputNodeCount && outputNodeCount == g1.outputNodeCount
      requires nodeList == [] && connectionList == [] && connections == map[] && vacantConnections == []
      modifies this`nodeList, this`connectionList, this`connections, this`vacantConnections
      ensures ok <==> CrossoverOf(g1, g2).Success?
      ensures ok ==> State() == CrossoverOf(g1, g2).value
    {
      var nodes, ids, links := Union(g1.nodeList, g2.nodeList), Union(g1.connectionList, g2.connectionList),
                               Union(g1.vacantConnections, g2.vacantConnections);
      UnionNoDuplicates(g1.connectionList, g2.connectionList);
      AppendNodes(nodes);
      AppendIds(ids);
      ok := AddParentGenes(ids, g1.connections, g2.connections);
      if ok {
        CrossoverOfParts(g1, g2, connections);
        AddKeptVacancies(links);
      }
    }

    /** The nodes copied into the empty node list, each by `new NodeGene(...)`. */
    method AppendNodes(nodes: seq<NodeGene>)
      requires nodeList == []
      modifies this`nodeList
      ensures nodeList == nodes
    {
      var k := 0;
      while k < |nodes|
        invariant 0 <= k <= |nodes| && nodeList == nodes[..k]
      {
        var n := nodes[k];
        nodeList := nodeList + [NodeGene(n.nodeType, n.idx, n.activationType)];
        assert nodes[..k + 1] == nodes[..k] + [n];
        k := k + 1;
      }
      assert nodes[..k] == nodes;
    }

    /** The ids added to the empty id list. */
    method AppendIds(ids: seq<int>)
      requires connectionList == []
      modifies this`connectionList
      ensures connectionList == ids
    {
      var k := 0;
      while k < |ids|
        invariant 0 <= k <= |ids| && connectionList == ids[..k]
      {
        connectionList := connectionList + [ids[k]];
        assert ids[..k + 1] == ids[..k] + [ids[k]];
        k := k + 1;
      }
      assert ids[..k] == ids;
    }

    /** The gene loop of `Crossover` on an empty dictionary: for each id in order a copy of the gene of the
        first parent that has it; `false` at the first id neither has. */
    method AddParentGenes(ids: seq<int>, c1: map<int, ConnectionGene>, c2: map<int, ConnectionGene>) returns (ok: bool)
      requires NoDuplicates(ids) && connections == map[]
      modifies this`connections
      ensures ok <==> ChildGenes(ids, c1, c2).Success?
      ensures ok ==> connections == ChildGenes(ids, c1, c2).value
    {
      var k := 0;
      while k < |ids|
        invariant 0 <= k <= |ids|
        invariant forall j :: 0 <= j < k ==> ids[j] in c1 || ids[j] in c2
        invariant forall id :: id in connections <==> id in ids[..k]
        invariant forall j :: 0 <= j < k ==> ids[j] in connections
        invariant forall id :: id in connections ==> ParentGene(id, c1, c2) == Some(connections[id])
      {
        var id := ids[k];
        var gene;
        if id in c1 {
          gene := c1[id];
        } else if id in c2 {
          gene := c2[id];
        } else {
          return false;
        }
        assert id !in ids[..k];
        connections := DictionaryAdd(connections, id,
          ConnectionGene(gene.sourceNodeIdx, gene.targetNodeIdx, gene.innovationNumber, gene.isActive, gene.weight));
        assert ids[..k + 1] == ids[..k] + [id];
        k := k + 1;
      }
      assert ids[..k] == ids;
      ChildGenesUnique(ids, c1, c2, connections);
      return true;
    }

    /** The vacant-link loop of `Crossover`: each link in order is kept unless some gene, in dictionary
        order, already realises it. */
    method AddKeptVacancies(links: seq<Link>)
      requires vacantConnections == [] && forall k :: 0 <= k < |connectionList| ==> connectionList[k] in connections
      modifies this`vacantConnections
      ensures vacantConnections == KeptVacant(links, DictionaryValues(connectionList, connections))
    {
      var values := DictionaryValues(connectionList, connections);
      var k := 0;
      assert links[..0] == [];
      while k < |links|
        invariant 0 <= k <= |links|
        invariant vacantConnections == KeptVacant(links[..k], values)
      {
        var v := links[k];
        assert links[..k + 1][..k] == links[..k] && links[..k + 1][k] == v;
        if FirstRealising(values, v).None? {
          vacantConnections := vacantConnections + [(v.0, v.1)];
        }
        k := k + 1;
      }
      assert links[..k] == links;
    }

    // -------------------------------------------------------------------------------------------
    // The registry, as the genome uses it.
    // -------------------------------------------------------------------------------------------

    /** `AddInnovationConnection` for a link between numbered neurons: the registry stays laid out for
        this genome's counts and only grows, and a link it already records is looked up without change. */
    method RecordLink(l: Link) returns (id: int)
      requires RegistryLaidOut(tracker.State(), inputNodeCount, outputNodeCount)
      requires l.0 <= tracker.nextNeuronNumber && l.1 <= tracker.nextNeuronNumber
      modifies tracker
      ensures RegistryLaidOut(tracker.State(), inputNodeCount, outputNodeCount)
      ensures Grows(old(tracker.State()), tracker.State())
      ensures l in tracker.innovations && tracker.innovations[l] == id
      ensures l in old(tracker.innovations) ==> tracker.State() == old(tracker.State())
      ensures tracker.nextNeuronNumber == old(tracker.nextNeuronNumber)
      ensures Record(old(tracker.State()), l) == Recording(tracker.State(), id)
    {
      tracker.StateInvariants();
      id := tracker.AddInnovationConnection(l.0, l.1);
      tracker.StateInvariants();
    }

    /** `SplitInnovationConnection` for the gene `c` of a valid genome, with its node list: the registry
        only grows, records the two halves of the split under `id1` and `id2`, and `mid` is a hidden neuron
        it has numbered that the genome lacks. */
    method RecordSplit(c: int) returns (mid: int, id1: int, id2: int)
      requires RegistryLaidOut(tracker.State(), inputNodeCount, outputNodeCount) && c in connections
      requires WithinRegistry(State(), tracker.State())
      requires connections[c].sourceNodeIdx <= tracker.nextNeuronNumber && connections[c].targetNodeIdx <= tracker.nextNeuronNumber
      modifies tracker
      ensures SplitDone(State(), old(tracker.State()), tracker.State(), c, mid, id1, id2)
      ensures Split(old(tracker.State()), LinkOf(connections[c]), nodeList) == Splitting(tracker.State(), mid, id1, id2)
    {
      var split := connections[c];
      var link := (split.sourceNodeIdx, split.targetNodeIdx);
      tracker.StateInvariants();
      tracker.BoundedCanMint(split.sourceNodeIdx, split.targetNodeIdx);
      ghost var willMint := tracker.WillMint(split.sourceNodeIdx, split.targetNodeIdx, nodeList);
      ghost var before := tracker.State();
      mid, id1, id2 := tracker.SplitInnovationConnection(split.sourceNodeIdx, split.targetNodeIdx, nodeList);
      tracker.StateInvariants();
      if willMint {
        SplitKeepsLaidOut(before, tracker.State(), link, mid, inputNodeCount, outputNodeCount, true);
      } else {
        var k := FirstAbsent(before.splitConnections[link], nodeList);
        assert mid == before.splitConnections[link][k];
        SplitKeepsLaidOut(before, tracker.State(), link, mid, inputNodeCount, outputNodeCount, false);
      }
    }

    // -------------------------------------------------------------------------------------------
    // MutateAddConnection, MutateAddNode, MutateConnectionWeight.
    // -------------------------------------------------------------------------------------------

    /** `MutateAddConnection`: the drawn vacant link becomes an active gene, with the drawn weight, under
        the registry's id for the link, and leaves the vacant list. */
    method MutateAddConnection(pick: nat, weight: Weight)
      requires Valid() && |vacantConnections| > 0
      modifies this`connectionList, this`connections, this`vacantConnections, tracker
      ensures Grows(old(tracker.State()), tracker.State())
      ensures var k := Next(pick, |old(vacantConnections)|);
        && old(vacantConnections)[k] in tracker.innovations
        && State() == AddConnectionStep(old(State()), k, tracker.innovations[old(vacantConnections)[k]], weight)
      ensures var k := Next(pick, |old(vacantConnections)|);
        var rec := Record(old(tracker.State()), old(vacantConnections)[k]);
        tracker.State() == rec.after && State() == AddConnectionStep(old(State()), k, rec.id, weight)
      ensures Valid() && Extends(old(State()), State())
    {
      var k := Next(pick, |vacantConnections|);
      var v := vacantConnections[k];
      ghost var g, t := State(), tracker.State();
      VacantWithinRegistry(g, t, k);
      var innovation := RecordLink(v);
      AddConnectionKeepsCoherent(g, t, tracker.State(), k, innovation, weight);
      AddConnectionEffect(g, k, innovation, weight);
      AddVacantGene(k, innovation, weight);
    }

    /** The dictionary and list updates of `MutateAddConnection` for vacant index `k` and id `id`. */
    method AddVacantGene(k: int, id: int, weight: Weight)
      requires 0 <= k < |vacantConnections| && id !in connections
      modifies this`connectionList, this`connections, this`vacantConnections
      ensures State() == AddConnectionStep(old(State()), k, id, weight)
    {
      var v := vacantConnections[k];
      connectionList := connectionList + [id];
      connections := DictionaryAdd(connections, id, ConnectionGene(v.0, v.1, id, true, weight));
      vacantConnections := RemoveFirst(vacantConnections, v);
    }

    /** `MutateAddNode`: the drawn split candidate is split at the neuron the registry gives it, as
        `AddNodeStep` describes; the new node and the two new ids are the last ones of their lists. */
    method MutateAddNode(pick: nat, w1: Weight, w2: Weight)
      requires Valid()
      modifies this`nodeList, this`connectionList, this`connections, this`vacantConnections, tracker
      ensures |nodeList| == |old(nodeList)| + 1 && |connectionList| == |old(connectionList)| + 2
      ensures var c := ChosenSplit(old(State()), pick);
        var mid, id1, id2 := nodeList[|nodeList| - 1].idx, connectionList[|connectionList| - 2], connectionList[|connectionList| - 1];
        && SplitDone(old(State()), old(tracker.State()), tracker.State(), c, mid, id1, id2)
        && State() == AddNodeStep(old(State()), c, mid, id1, id2, w1, w2)
      ensures var c := ChosenSplit(old(State()), pick);
        var s := Split(old(tracker.State()), LinkOf(old(connections)[c]), old(nodeList));
        tracker.State() == s.after && State() == AddNodeStep(old(State()), c, s.neuron, s.id1, s.id2, w1, w2)
      ensures Valid() && Grows(old(tracker.State()), tracker.State()) && Extends(old(State()), State())
    {
      var candidates := SplitCandidates(connectionList, connections);
      var c := candidates[Next(pick, |candidates|)];
      ghost var g, t := State(), tracker.State();
      NodesWithinRegistry(g, t, c);
      var mid, id1, id2 := RecordSplit(c);
      AddNodeKeepsCoherent(g, t, tracker.State(), c, mid, id1, id2, w1, w2);
      AddNodeEffect(g, c, mid, id1, id2, w1, w2);
      SplitGene(c, mid, id1, id2, w1, w2);
    }

    /** The list, dictionary and vacant-list updates of `MutateAddNode` splitting gene `c` at `mid`, in the
        order the source makes them. */
    method SplitGene(c: int, mid: int, id1: int, id2: int, w1: Weight, w2: Weight)
      requires c in connections && id1 !in connections && id2 !in connections && id1 != id2
      modifies this`nodeList, this`connectionList, this`connections, this`vacantConnections
      ensures State() == AddNodeStep(old(State()), c, mid, id1, id2, w1, w2)
    {
      var split := connections[c];
      var inputNodes := Side(nodeList, split.sourceNodeIdx, {Output});
      AddVacantInto(inputNodes, mid);
      var outputNodes := Side(nodeList, split.targetNodeIdx, {Input, Bias});
      AddVacantOutOf(mid, outputNodes);
      nodeList := nodeList + [NodeGene(Hidden, mid, Sigmoid)];
      connectionList := connectionList + [id1];
      connections := DictionaryAdd(connections, id1, ConnectionGene(split.sourceNodeIdx, mid, id1, true, w1));
      connectionList := connectionList + [id2];
      connections := DictionaryAdd(connections, id2, ConnectionGene(mid, split.targetNodeIdx, id2, true, w2));
      connections := connections[c := split.Disabled()];
      assert old(connectionList) + [id1] + [id2] == old(connectionList) + [id1, id2];
    }

    /** The first `foreach` of `MutateAddNode`: a vacant link from each of `nodes` into `target`. */
    method AddVacantInto(nodes: seq<NodeGene>, target: int)
      modifies this`vacantConnections
      ensures vacantConnections == old(vacantConnections) + PairsInto(nodes, target)
    {
      var k := 0;
      while k < |nodes|
        invariant 0 <= k <= |nodes|
        invariant vacantConnections == old(vacantConnections) + PairsInto(nodes, target)[..k]
      {
        assert PairsInto(nodes, target)[..k + 1] == PairsInto(nodes, target)[..k] + [(nodes[k].idx, target)];
        vacantConnections := vacantConnections + [(nodes[k].idx, target)];
        k := k + 1;
      }
      assert PairsInto(nodes, target)[..k] == PairsInto(nodes, target);
    }

    /** The second `foreach` of `MutateAddNode`: a vacant link from `source` into each of `nodes`. */
    method AddVacantOutOf(source: int, nodes: seq<NodeGene>)
      modifies this`vacantConnections
      ensures vacantConnections == old(vacantConnections) + PairsOutOf(source, nodes)
    {
      var k := 0;
      while k < |nodes|
        invariant 0 <= k <= |nodes|
        invariant vacantConnections == old(vacantConnections) + PairsOutOf(source, nodes)[..k]
      {
        assert PairsOutOf(source, nodes)[..k + 1] == PairsOutOf(source, nodes)[..k] + [(source, nodes[k].idx)];
        vacantConnections := vacantConnections + [(source, nodes[k].idx)];
        k := k + 1;
      }
      assert PairsOutOf(source, nodes)[..k] == PairsOutOf(source, nodes);
    }

    /** `MutateConnectionWeight`: the genes in dictionary order, each taking its drawn weight when the draws
        mutate it; nothing but weights changes. */
    method MutateConnectionWeight(draws: seq<Option<Weight>>)
      requires Keyed()
      modifies this`connections
      ensures SameTopology(old(State()), State()) && Keyed()
      ensures forall k :: 0 <= k < |connectionList| ==>
        connections[connectionList[k]].weight == DrawnWeight(draws, k, old(connections)[connectionList[k]].weight)
      ensures State() == WeightsDrawn(old(State()), draws)
    {
      var k := 0;
      while k < |connectionList|
        invariant 0 <= k <= |connectionList|
        invariant SameTopology(old(State()), State()) && Keyed()
        invariant forall i :: 0 <= i < |connectionList| ==>
          connections[connectionList[i]].weight == (if i < k then DrawnWeight(draws, i, old(connections)[connectionList[i]].weight)
                                                    else old(connections)[connectionList[i]].weight)
      {
        var id := connectionList[k];
        assert id in connectionList;
        if k < |draws| && draws[k].Some? {
          connections := connections[id := connections[id].(weight := draws[k].value)];
        }
        k := k + 1;
      }
      WeightsDrawnByPosition(old(State()), State(), draws);
    }

    // -------------------------------------------------------------------------------------------
    // MutateStructure and the network cache.
    // -------------------------------------------------------------------------------------------

    /** `MutateStructure`: marks the network dirty, then for each step chooses an operator with the step's
        chance draw (add-connection only while a vacant link exists) and runs it with the step's other
        draws, as `Mutated` describes. The genome stays valid, only extends, and the registry only grows. */
    method MutateStructure(draws: seq<StepDraws>)
      requires Valid() && |draws| == mutationParameters.mutationCount
      modifies this`nodeList, this`connectionList, this`connections, this`vacantConnections, this`needBuildNetwork
      modifies tracker
      ensures Valid() && needBuildNetwork && network == old(network)
      ensures Grows(old(tracker.State()), tracker.State()) && Extends(old(State()), State())
      ensures (State(), tracker.State()) == Mutated(mutationParameters, old(State()), old(tracker.State()), draws)
    {
      MutateSteps(draws);
      needBuildNetwork := true;
    }

    /** The loop of `MutateStructure`: one step per draw. */
    method MutateSteps(draws: seq<StepDraws>)
      requires Valid() && |draws| == mutationParameters.mutationCount
      modifies this`nodeList, this`connectionList, this`connections, this`vacantConnections, tracker
      ensures Valid()
      ensures Grows(old(tracker.State()), tracker.State()) && Extends(old(State()), State())
      ensures (State(), tracker.State()) == Mutated(mutationParameters, old(State()), old(tracker.State()), draws)
    {
      ghost var g, t := State(), tracker.State();
      var i := 0;
      while i < mutationParameters.mutationCount
        invariant 0 <= i <= mutationParameters.mutationCount
        invariant Valid()
        invariant (State(), tracker.State()) == Mutated(mutationParameters, g, t, draws[..i])
        decreases mutationParameters.mutationCount - i
      {
        MutatedStepByStep(mutationParameters, g, t, draws, i);
        MutateStep(draws[i]);
        i := i + 1;
      }
      assert draws[..i] == draws;
    }

    /** The `Network` getter: a dirty genome builds its network from its nodes and its genes in dictionary
        order, caches it and clears the flag; a clean one returns the cached network. A build that fails
        leaves the cache and the flag as they were. */
    method Network() returns (r: Result<CompiledNetwork, Compiler.BuildError>)
      requires Keyed() && CacheHeld()
      modifies this`network, this`needBuildNetwork
      ensures CacheHeld()
      ensures old(needBuildNetwork) ==>
        && (r.Success? ==> Compiler.IsCompilationOf(View(), r.value) && network == Some(r.value) && !needBuildNetwork)
        && (r.Failure? ==> Compiler.FailureExplained(View(), r.error) && network == old(network) && needBuildNetwork)
        && (Compiler.Compilable(View()) ==> r.Success?)
        && (old(Valid()) ==> r.Success?)
      ensures old(needBuildNetwork) && r.Success? ==> Compiler.CompiledWith(View(), Compiler.BfsNumbering(View()), r.value)
      ensures old(needBuildNetwork) && r.Success? ==> forall e :: !Compiler.FailureExplained(View(), e)
      ensures !old(needBuildNetwork) ==> r == Success(old(network).value) && network == old(network) && !needBuildNetwork
      ensures old(CacheFresh()) ==> CacheFresh()
    {
      if needBuildNetwork {
        if Valid() {
          ReadyIsCompilable(State());
        }
        r := Rebuild();
      } else {
        r := Success(network.value);
      }
    }

    /** The dirty branch of `Network`: builds from the genome as it is and caches a network that builds. */
    method Rebuild() returns (r: Result<CompiledNetwork, Compiler.BuildError>)
      requires Keyed() && needBuildNetwork
      modifies this`network, this`needBuildNetwork
      ensures r.Success? ==> && Compiler.IsCompilationOf(View(), r.value) && network == Some(r.value) && !needBuildNetwork
                             && Compiler.CompiledWith(View(), Compiler.BfsNumbering(View()), r.value)
                             && forall e :: !Compiler.FailureExplained(View(), e)
      ensures r.Failure? ==> Compiler.FailureExplained(View(), r.error) && network == old(network) && needBuildNetwork
      ensures Compiler.Compilable(View()) ==> r.Success?
    {
      var builder := new Compiler.NetworkBuilder(View());
      r := builder.BuildNetwork();
      if r.Success? {
        network := Some(r.value);
        needBuildNetwork := false;
      }
    }

    /** One step of `MutateStructure`: the operator the chance draw chooses, run with the step's draws. */
    method MutateStep(d: StepDraws)
      requires Valid()
      modifies this`nodeList, this`connectionList, this`connections, this`vacantConnections, tracker
      ensures Valid() && Grows(old(tracker.State()), tracker.State()) && Extends(old(State()), State())
      ensures (State(), tracker.State()) == MutationStep(mutationParameters, old(State()), old(tracker.State()), d)
    {
      var op := ChooseOperator(mutationParameters, |vacantConnections| > 0, d.chance);
      match op
      case AddConnection =>
        MutateAddConnection(d.pick, d.weight1);
      case AddNode =>
        MutateAddNode(d.pick, d.weight1, d.weight2);
      case MutateWeights =>
        ghost var g := State();
        MutateConnectionWeight(d.weights);
        SameTopologyKeepsCoherent(g, State(), tracker.State());
        SameTopologyExtends(g, State());
    }

    // -------------------------------------------------------------------------------------------
    // CreateInitialGenome.
    // -------------------------------------------------------------------------------------------

    /** The genes added so far are those of `done`, in order, with the first `|done|` weights. */
    ghost predicate Realised(done: seq<Link>, weights: seq<Weight>)
      reads this, tracker
    {
      && |done| <= |weights| && AllRecorded(tracker.State(), done)
      && connectionList == IdsFor(tracker.State(), done)
      && connections == GenesFor(tracker.State(), done, weights[..|done|])
    }

    /** `CreateInitialGenome` on the genome the public constructor built: the bias, input and output nodes;
        for each output, for each input, an active gene under the registry's id for the link with the next
        drawn weight; and a vacant link from the bias to each output. The registry was built for the same
        counts, so it already knows every one of these links and does not change; the dirty flag is left as
        it is. */
    method CreateInitialGenome(weights: seq<Weight>)
      requires inputNodeCount > 0 && outputNodeCount > 0
      requires nodeList == [] && connectionList == [] && connections == map[] && vacantConnections == []
      requires RegistryLaidOut(tracker.State(), inputNodeCount, outputNodeCount)
      requires SeedsRecorded(tracker.State(), inputNodeCount, outputNodeCount)
      requires |weights| == inputNodeCount * outputNodeCount
      modifies this, tracker
      ensures tracker.State() == old(tracker.State())
      ensures AllRecorded(tracker.State(), InitialLinks(inputNodeCount, outputNodeCount))
      ensures |weights| == |InitialLinks(inputNodeCount, outputNodeCount)|
      ensures State() == InitialGenome(inputNodeCount, outputNodeCount, tracker.State(), weights)
      ensures Valid()
      ensures network == old(network) && needBuildNetwork == old(needBuildNetwork)
    {
      SeedsRecordInitialLinks(inputNodeCount, outputNodeCount, tracker.State());
      nodeList := BiasNodes() + InputNodes(inputNodeCount) + OutputNodes(inputNodeCount, outputNodeCount);
      AddSeedGenes(weights);
      AddInitialVacancies();
      assert State() == InitialGenome(inputNodeCount, outputNodeCount, tracker.State(), weights);
      InitialKeepsCoherent(inputNodeCount, outputNodeCount, tracker.State(), weights);
    }

    /** The loops of the genes: for each output, for each input, the gene of the link. */
    method AddSeedGenes(weights: seq<Weight>)
      requires inputNodeCount > 0 && outputNodeCount > 0
      requires connectionList == [] && connections == map[]
      requires RegistryLaidOut(tracker.State(), inputNodeCount, outputNodeCount)
      requires SeedsRecorded(tracker.State(), inputNodeCount, outputNodeCount)
      requires |weights| == inputNodeCount * outputNodeCount
      requires AllRecorded(tracker.State(), InitialLinks(inputNodeCount, outputNodeCount))
      requires |weights| == |InitialLinks(inputNodeCount, outputNodeCount)|
      modifies this`connectionList, this`connections, tracker
      ensures tracker.State() == old(tracker.State())
      ensures connectionList == IdsFor(tracker.State(), InitialLinks(inputNodeCount, outputNodeCount))
      ensures connections == GenesFor(tracker.State(), InitialLinks(inputNodeCount, outputNodeCount), weights)
    {
      ghost var t := tracker.State();
      var first := BiasNodeCount + inputNodeCount;
      ghost var done: seq<Link> := [];
      assert weights[..0] == [];
      var i, w := first, 0;
      while i <= inputNodeCount + outputNodeCount
        invariant first <= i <= inputNodeCount + outputNodeCount + 1 && w == |done|
        invariant done == SeedLinks(inputNodeCount, first, i - first)
        invariant tracker.State() == t && Realised(done, weights)
      {
        SeedRowFits(inputNodeCount, outputNodeCount, first, i - first, |weights|);
        done := AddInputsInto(i, weights, w, done);
        i, w := i + 1, w + inputNodeCount;
      }
      SeedRowFits(inputNodeCount, outputNodeCount, first, i - first, |weights|);
      assert weights[..|done|] == weights;
    }

    /** The loops of the vacant links: for each bias, the link to each output. */
    method AddInitialVacancies()
      requires inputNodeCount > 0 && outputNodeCount > 0 && vacantConnections == []
      modifies this`vacantConnections
      ensures vacantConnections == InitialVacant(inputNodeCount, outputNodeCount)
    {
      var b := 0;
      while b < BiasNodeCount
        invariant 0 <= b <= BiasNodeCount && vacantConnections == BiasLinks(inputNodeCount, outputNodeCount, b)
      {
        AddBiasVacancies(b);
        b := b + 1;
      }
    }

    /** The inner loop of the genes: for each input, the gene of its link into `target`. */
    method AddInputsInto(target: int, weights: seq<Weight>, w0: int, ghost done: seq<Link>) returns (ghost done': seq<Link>)
      requires inputNodeCount > 0 && BiasNodeCount + inputNodeCount <= target <= inputNodeCount + outputNodeCount
      requires done == SeedLinks(inputNodeCount, BiasNodeCount + inputNodeCount, target - (BiasNodeCount + inputNodeCount))
      requires w0 == |done| && |done| + inputNodeCount <= |weights|
      requires RegistryLaidOut(tracker.State(), inputNodeCount, outputNodeCount)
      requires SeedsRecorded(tracker.State(), inputNodeCount, outputNodeCount) && Realised(done, weights)
      modifies this`connectionList, this`connections, tracker
      ensures done' == SeedLinks(inputNodeCount, BiasNodeCount + inputNodeCount, target + 1 - (BiasNodeCount + inputNodeCount))
      ensures tracker.State() == old(tracker.State()) && Realised(done', weights)
    {
      ghost var t := tracker.State();
      var first := BiasNodeCount + inputNodeCount;
      done' := done;
      var w := w0;
      var j := BiasNodeCount;
      while j <= inputNodeCount
        invariant BiasNodeCount <= j <= inputNodeCount + 1
        invariant done' == SeedLinks(inputNodeCount, first, target - first) + InputsInto(inputNodeCount, target)[..j - BiasNodeCount]
        invariant w == |done'| == |done| + j - BiasNodeCount
        invariant tracker.State() == t && Realised(done', weights)
      {
        NextSeedLinkFresh(inputNodeCount, first, target, j);
        assert IsSeedLink(inputNodeCount, outputNodeCount, (j, target));
        AddSeedGene((j, target), w, weights, done');
        done' := done' + [(j, target)];
        w := w + 1;
        j := j + 1;
      }
      assert InputsInto(inputNodeCount, target)[..j - BiasNodeCount] == InputsInto(inputNodeCount, target);
    }

    /** One step of the inner loop: the gene of the recorded link `l` with weight number `w`. */
    method AddSeedGene(l: Link, w: int, weights: seq<Weight>, ghost done: seq<Link>)
      requires 0 <= w == |done| < |weights| && l !in done && l in tracker.innovations
      requires Realised(done, weights) && RegistryLaidOut(tracker.State(), inputNodeCount, outputNodeCount)
      requires l.0 <= tracker.nextNeuronNumber && l.1 <= tracker.nextNeuronNumber
      modifies this`connectionList, this`connections, tracker
      ensures tracker.State() == old(tracker.State()) && Realised(done + [l], weights)
    {
      var weight := weights[w];
      var innovation := RecordLink(l);
      FreshLinkFreshId(tracker.State(), done, l, weights[..w]);
      connectionList := connectionList + [innovation];
      connections := DictionaryAdd(connections, innovation, ConnectionGene(l.0, l.1, innovation, true, weight));
      GenesForSnoc(tracker.State(), done, weights[..w], l, weight);
      assert weights[..w + 1] == weights[..w] + [weight];
    }

    /** The inner loop of the vacant links: a link from the bias `source` to each output. */
    method AddBiasVacancies(source: int)
      requires inputNodeCount > 0 && outputNodeCount > 0
      modifies this`vacantConnections
      ensures vacantConnections == old(vacantConnections) + IntoOutputs(inputNodeCount, outputNodeCount, source)
    {
      var j := inputNodeCount + BiasNodeCount;
      while j <= inputNodeCount + outputNodeCount
        invariant inputNodeCount + BiasNodeCount <= j <= inputNodeCount + outputNodeCount + 1
        invariant vacantConnections ==
          old(vacantConnections) + IntoOutputs(inputNodeCount, outputNodeCount, source)[..j - inputNodeCount - BiasNodeCount]
      {
        assert IntoOutputs(inputNodeCount, outputNodeCount, source)[..j + 1 - inputNodeCount - BiasNodeCount]
            == IntoOutputs(inputNodeCount, outputNodeCount, source)[..j - inputNodeCount - BiasNodeCount] + [(source, j)];
        vacantConnections := vacantConnections + [(source, j)];
        j := j + 1;
      }
      assert IntoOutputs(inputNodeCount, outputNodeCount, source)[..j - inputNodeCount - BiasNodeCount]
          == IntoOutputs(inputNodeCount, outputNodeCount, source);
    }
  }

  /** The registry's id for a link the genes do not yet realise is not an id of theirs. */
  lemma FreshLinkFreshId(t: TrackerState, done: seq<Link>, l: Link, weights: seq<Weight>)
    requires ValidState(t) && AllRecorded(t, done) && l in t.innovations && l !in done && |weights| == |done|
    ensures t.innovations[l] !in GenesFor(t, done, weights)
  {
    GenesForFacts(t, done, weights);
    var ids := IdsFor(t, done);
    forall k | 0 <= k < |ids| ensures ids[k] != t.innovations[l] {
      assert done[k] in done;
      IdsDistinct(t, done[k], l);
    }
  }

  // ---------------------------------------------------------------------------------------------
  // The copy constructor's loops.
  // ---------------------------------------------------------------------------------------------

  method CopyNodes(source: seq<NodeGene>) returns (nodes: seq<NodeGene>)
    ensures nodes == source
  {
    nodes := [];
    var k := 0;
    while k < |source|
      invariant 0 <= k <= |source| && nodes == source[..k]
    {
      var n := source[k];
      nodes := nodes + [NodeGene(n.nodeType, n.idx, n.activationType)];
      assert source[..k + 1] == source[..k] + [n];
      k := k + 1;
    }
  }

  method CopyIds(source: seq<int>) returns (ids: seq<int>)
    ensures ids == source
  {
    ids := [];
    var k := 0;
    while k < |source|
      invariant 0 <= k <= |source| && ids == source[..k]
    {
      ids := ids + [source[k]];
      assert source[..k + 1] == source[..k] + [source[k]];
      k := k + 1;
    }
  }

  /** The dictionary copied entry by entry in its enumeration order, each gene by `new ConnectionGene(gene)`. */
  method CopyGenes(ids: seq<int>, source: map<int, ConnectionGene>) returns (genes: map<int, ConnectionGene>)
    requires NoDuplicates(ids) && forall id :: id in source <==> id in ids
    ensures genes == source
  {
    genes := map[];
    var k := 0;
    while k < |ids|
      invariant 0 <= k <= |ids|
      invariant forall id :: id in genes <==> id in ids[..k]
      invariant forall id :: id in genes ==> id in source && genes[id] == source[id]
    {
      var id := ids[k];
      var gene := source[id];
      assert id !in ids[..k];
      genes := DictionaryAdd(genes, id, ConnectionGene(gene.sourceNodeIdx, gene.targetNodeIdx, gene.innovationNumber,
                                                       gene.isActive, gene.weight));
      assert ids[..k + 1] == ids[..k] + [id];
      k := k + 1;
    }
    assert ids[..k] == ids;
    forall id | id in source ensures id in genes {
      assert id in ids[..k];
    }
    assert forall id :: id in genes ==> id in source;
    assert forall id :: id in source ==> id in genes;
    assert genes.Keys == source.Keys;
    assert forall id :: id in genes ==> genes[id] == source[id];
  }

  method CopyLinks(source: seq<Link>) returns (links: seq<Link>)
    ensures links == source
  {
    links := [];
    var k := 0;
    while k < |source|
      invariant 0 <= k <= |source| && links == source[..k]
    {
      var v := source[k];
      links := links + [(v.0, v.1)];
      assert source[..k + 1] == source[..k] + [v];
      k := k + 1;
    }
  }

  /** What the network builder reads from a genome: its counts, its nodes and its genes in dictionary order. */
  function ViewOf(g: Genome): Compiler.GenomeView
    requires forall k :: 0 <= k < |g.connectionList| ==> g.connectionList[k] in g.connections
  {
    Compiler.GenomeView(g.inputNodeCount, g.outputNodeCount, g.nodeList, DictionaryValues(g.connectionList, g.connections))
  }

  /** The build cannot fail on a coherent genome, nor on any genome whose ids are its keys, whose genes join
      its nodes and which is ready to build: no active gene leaves an output, and every fixed index and every
      gene's target has a node gene. */
  lemma ReadyIsCompilable(g: Genome)
    requires ListKeyInvariant(g) && EndpointsKnown(g) && BuildReady(g)
    ensures Compiler.Compilable(ViewOf(g))
  {
    var view := ViewOf(g);
    Compiler.ActiveMembers(view.connections);
    forall c | c in Compiler.Active(view.connections)
      ensures !view.IsOutputIdx(c.sourceNodeIdx) && HasIdx(view.nodeList, c.targetNodeIdx)
    {
      var k :| 0 <= k < |view.connections| && view.connections[k] == c;
      var id := g.connectionList[k];
      assert id in g.connections && c == g.connections[id];
    }
  }
}
