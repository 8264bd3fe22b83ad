/**
 * `NetworkBuilder`: compiles a genome's active connections into a network whose node `k` is compiled
 * node `k`. Bias, inputs and outputs keep their genome index; hidden neurons reached breadth-first from
 * the bias and the inputs are numbered from `1+N+M` on, in the order they are discovered.
 */
module Compiler {
  import opened Wrappers
  import opened Sequences
  import opened GenomeTypes
  import opened NetworkTypes
  import opened NetworkConfig

  /** What the builder reads from the genome: the counts, the node list and the connection genes in
      the genome dictionary's enumeration order. */
  datatype GenomeView = GenomeView(
    inputNodeCount: int, outputNodeCount: int, nodeList: seq<NodeGene>, connections: seq<ConnectionGene>)
  {
    /** Number of compiled nodes with a fixed index: bias, inputs and outputs. */
    function FixedCount(): int { BiasNodeCount + inputNodeCount + outputNodeCount }
    /** `idx` is an output index `N+1..N+M`. */
    predicate IsOutputIdx(idx: int) { BiasNodeCount + inputNodeCount <= idx < FixedCount() }
  }

  /** The exceptions the build can throw: `First` finding no mapped neuron for a connection target, and
      `First` finding no node gene for a mapped neuron. */
  datatype BuildError = UnmappedTarget(neuronId: int) | MissingNodeGene(neuronId: int)

  /** `NodeMap`: a compiled index paired with the genome neuron it compiles. */
  datatype NodeMap = NodeMap(netNodeId: int, neuronId: int)

  // ---------------------------------------------------------------------------------------------
  // The LINQ queries of the builder, as functions.

  /** `Where(c => c.Value.IsActive)`. */
  function Active(cs: seq<ConnectionGene>): seq<ConnectionGene>
    decreases |cs|
  {
    if cs == [] then [] else Active(cs[..|cs| - 1]) + (if cs[|cs| - 1].isActive then [cs[|cs| - 1]] else [])
  }

  lemma {:induction false} ActiveMembers(cs: seq<ConnectionGene>)
    ensures forall c :: c in Active(cs) <==> c in cs && c.isActive
    decreases |cs|
  {
    if cs != [] {
      assert cs == cs[..|cs| - 1] + [cs[|cs| - 1]];
      ActiveMembers(cs[..|cs| - 1]);
    }
  }

  /** Some map entry of `layer` compiles neuron `neuronId` (`FirstOrDefault(n => n.NeuronId == id) != null`). */
  predicate InLayer(layer: seq<NodeMap>, neuronId: int) {
    exists q :: 0 <= q < |layer| && layer[q].neuronId == neuronId
  }

  /** The connections whose target is (`toLayer`) or is not (`!toLayer`) compiled by an entry of `layer`. */
  function ByTarget(cs: seq<ConnectionGene>, layer: seq<NodeMap>, toLayer: bool): seq<ConnectionGene>
    decreases |cs|
  {
    if cs == [] then []
    else
      var c := cs[|cs| - 1];
      ByTarget(cs[..|cs| - 1], layer, toLayer) + (if InLayer(layer, c.targetNodeIdx) == toLayer then [c] else [])
  }

  lemma {:induction false} ByTargetMembers(cs: seq<ConnectionGene>, layer: seq<NodeMap>, toLayer: bool)
    ensures forall c :: c in ByTarget(cs, layer, toLayer) <==> c in cs && InLayer(layer, c.targetNodeIdx) == toLayer
    decreases |cs|
  {
    if cs != [] {
      assert cs == cs[..|cs| - 1] + [cs[|cs| - 1]];
      ByTargetMembers(cs[..|cs| - 1], layer, toLayer);
    }
  }

  /** Inner and output connections split the active connections: every connection goes to exactly one
      side, as often as it occurs. */
  lemma {:induction false} InnerAndOutputPartition(cs: seq<ConnectionGene>, layer: seq<NodeMap>)
    ensures multiset(ByTarget(cs, layer, false)) + multiset(ByTarget(cs, layer, true)) == multiset(cs)
    decreases |cs|
  {
    if cs != [] {
      var init := cs[..|cs| - 1];
      assert cs == init + [cs[|cs| - 1]];
      InnerAndOutputPartition(init, layer);
    }
  }

  /** `Where(c => prevLayerNodes.FirstOrDefault(n => n.NeuronId == c.SourceNodeIdx) != null)`. */
  function FromLayer(cs: seq<ConnectionGene>, layer: seq<NodeMap>): seq<ConnectionGene>
    decreases |cs|
  {
    if cs == [] then []
    else
      var c := cs[|cs| - 1];
      FromLayer(cs[..|cs| - 1], layer) + (if InLayer(layer, c.sourceNodeIdx) then [c] else [])
  }

  lemma {:induction false} FromLayerMembers(cs: seq<ConnectionGene>, layer: seq<NodeMap>)
    ensures forall c :: c in FromLayer(cs, layer) <==> c in cs && InLayer(layer, c.sourceNodeIdx)
    decreases |cs|
  {
    if cs != [] {
      assert cs == cs[..|cs| - 1] + [cs[|cs| - 1]];
      FromLayerMembers(cs[..|cs| - 1], layer);
    }
  }

  /** The target of each connection, in order (the keys `GroupBy(c => c.TargetNodeIdx)` groups by). */
  function TargetsOf(cs: seq<ConnectionGene>): (r: seq<int>)
    ensures |r| == |cs| && forall i :: 0 <= i < |cs| ==> r[i] == cs[i].targetNodeIdx
  {
    seq(|cs|, i requires 0 <= i < |cs| => cs[i].targetNodeIdx)
  }

  /** The connections of `cs` that leave neuron `neuronId`, in order. */
  function From(cs: seq<ConnectionGene>, neuronId: int): seq<ConnectionGene>
    decreases |cs|
  {
    if cs == [] then []
    else
      var c := cs[|cs| - 1];
      From(cs[..|cs| - 1], neuronId) + (if c.sourceNodeIdx == neuronId then [c] else [])
  }

  lemma {:induction false} FromMembers(cs: seq<ConnectionGene>, neuronId: int)
    ensures forall c :: c in From(cs, neuronId) <==> c in cs && c.sourceNodeIdx == neuronId
    decreases |cs|
  {
    if cs != [] {
      assert cs == cs[..|cs| - 1] + [cs[|cs| - 1]];
      FromMembers(cs[..|cs| - 1], neuronId);
    }
  }

  /** Inner connections, compiled: the target becomes the compiled index of the target neuron. */
  function Remapped(cs: seq<ConnectionGene>, neurons: seq<int>): (r: seq<NetConnection>)
    ensures |r| == |cs|
    ensures forall i :: 0 <= i < |cs| ==> r[i] == NetConnection(FirstIndex(neurons, cs[i].targetNodeIdx), cs[i].weight)
    decreases |cs|
  {
    if cs == [] then []
    else
      var c := cs[|cs| - 1];
      Remapped(cs[..|cs| - 1], neurons) + [NetConnection(FirstIndex(neurons, c.targetNodeIdx), c.weight)]
  }

  /** Output connections, compiled: the target stays the genome output index, equal to its compiled index. */
  function Direct(cs: seq<ConnectionGene>): (r: seq<NetConnection>)
    ensures |r| == |cs|
    ensures forall i :: 0 <= i < |cs| ==> r[i] == NetConnection(cs[i].targetNodeIdx, cs[i].weight)
    decreases |cs|
  {
    if cs == [] then []
    else
      var c := cs[|cs| - 1];
      Direct(cs[..|cs| - 1]) + [NetConnection(c.targetNodeIdx, c.weight)]
  }

  /** `NodeList.First(n => n.Idx == idx)`, or `None` where `First` throws. */
  function FindNode(nodes: seq<NodeGene>, idx: int): (r: Option<NodeGene>)
    ensures r.Some? <==> HasIdx(nodes, idx)
    ensures r.Some? ==> r.value.idx == idx && r.value in nodes
    decreases |nodes|
  {
    if nodes == [] then None
    else if nodes[0].idx == idx then Some(nodes[0])
    else
      var r := FindNode(nodes[1..], idx);
      assert HasIdx(nodes, idx) ==> HasIdx(nodes[1..], idx) by {
        if HasIdx(nodes, idx) {
          var k :| 0 <= k < |nodes| && nodes[k].idx == idx;
          assert k > 0 && nodes[1..][k - 1].idx == idx;
        }
      }
      assert HasIdx(nodes[1..], idx) ==> HasIdx(nodes, idx) by {
        if HasIdx(nodes[1..], idx) {
          var k :| 0 <= k < |nodes[1..]| && nodes[1..][k].idx == idx;
          assert nodes[k + 1].idx == idx;
        }
      }
      r
  }

  /** The activation switch of `GetNetworkNodes`: NONE is the identity, SIGMOID and LEAKYRELU keep their
      name, and a BIAS node is a bias whatever its activation says. */
  function ActivationOf(node: NodeGene): (a: ActivationType)
    ensures node.nodeType == Bias <==> a == BiasActivation
    ensures node.nodeType != Bias ==>
              (node.activationType == NoActivation <==> a == Identity)
              && (node.activationType == Sigmoid <==> a == SigmoidActivation)
              && (node.activationType == LeakyRelu <==> a == LeakyReluActivation)
  {
    var actType := match node.activationType
      case NoActivation => Identity
      case LeakyRelu => LeakyReluActivation
      case Sigmoid => SigmoidActivation;
    if node.nodeType == Bias then BiasActivation else actType
  }

  /** The neuron compiled at each index of a map. */
  function NeuronsOf(netMap: seq<NodeMap>): (r: seq<int>)
    ensures |r| == |netMap| && forall k :: 0 <= k < |netMap| ==> r[k] == netMap[k].neuronId
  {
    seq(|netMap|, k requires 0 <= k < |netMap| => netMap[k].neuronId)
  }

  // ---------------------------------------------------------------------------------------------
  // What a compilation is.

  /** Some inner connection leads from neuron `a` to neuron `b`. */
  ghost predicate InnerEdge(inner: seq<ConnectionGene>, a: int, b: int) {
    exists i :: 0 <= i < |inner| && inner[i].sourceNodeIdx == a && inner[i].targetNodeIdx == b
  }

  /** Every inner connection out of a compiled neuron that is not an output reaches a compiled neuron. */
  ghost predicate Closed(view: GenomeView, inner: seq<ConnectionGene>, neurons: seq<int>) {
    forall i :: 0 <= i < |inner| && inner[i].sourceNodeIdx in neurons && !view.IsOutputIdx(inner[i].sourceNodeIdx)
      ==> inner[i].targetNodeIdx in neurons
  }

  /** `neurons[k]` is the neuron that compiled node `k` stands for: bias, inputs and outputs at their own
      index, then distinct hidden neurons, each reached by an inner connection from a non-output neuron
      compiled before it, and nothing reachable left out. */
  ghost predicate IsNumbering(view: GenomeView, inner: seq<ConnectionGene>, neurons: seq<int>) {
    var fixed := view.FixedCount();
    && 0 <= fixed <= |neurons|
    && (forall k :: 0 <= k < fixed ==> neurons[k] == k)
    && NoDuplicates(neurons)
    && (forall k :: fixed <= k < |neurons| ==> !(0 <= neurons[k] < fixed))
    && (forall k :: fixed <= k < |neurons| ==> DiscoveredBefore(view, inner, neurons, k))
    && Closed(view, inner, neurons)
  }

  /** An inner connection from a non-output neuron compiled before `k` reaches `neurons[k]`. */
  ghost predicate DiscoveredBefore(view: GenomeView, inner: seq<ConnectionGene>, neurons: seq<int>, k: int)
    requires 0 <= k < |neurons|
  {
    exists j :: 0 <= j < k && !view.IsOutputIdx(neurons[j]) && InnerEdge(inner, neurons[j], neurons[k])
  }

  /** The active connections whose target is not an output, and those whose target is. */
  function InnerOf(view: GenomeView): seq<ConnectionGene> {
    ByTarget(Active(view.connections), OutputLayer(view), false)
  }

  function OutputsOf(view: GenomeView): seq<ConnectionGene> {
    ByTarget(Active(view.connections), OutputLayer(view), true)
  }

  /** The map entries of the output nodes, `NodeMap(i, i)` for `i` in `N+1..N+M`. */
  function OutputLayer(view: GenomeView): (r: seq<NodeMap>)
    ensures forall id :: InLayer(r, id) <==> view.IsOutputIdx(id)
  {
    var first := BiasNodeCount + view.inputNodeCount;
    var r := seq(if view.outputNodeCount < 0 then 0 else view.outputNodeCount, q => NodeMap(first + q, first + q));
    assert forall id :: InLayer(r, id) <==> view.IsOutputIdx(id) by {
      forall id ensures InLayer(r, id) <==> view.IsOutputIdx(id) {
        if view.IsOutputIdx(id) {
          assert r[id - first].neuronId == id;
        }
      }
    }
    r
  }

  /** The outgoing list of compiled node `id`: its inner connections with remapped targets, then its
      output connections. */
  function Outgoing(view: GenomeView, neurons: seq<int>, id: int): seq<NetConnection> {
    Remapped(From(InnerOf(view), id), neurons) + Direct(From(OutputsOf(view), id))
  }

  /** `net` is the network the builder makes from `view` when it numbers the neurons as `neurons`. */
  ghost predicate CompiledWith(view: GenomeView, neurons: seq<int>, net: CompiledNetwork) {
    && IsNumbering(view, InnerOf(view), neurons)
    && net.inputCount == view.inputNodeCount && net.outputCount == view.outputNodeCount
    && |net.nodes| == |neurons| && |net.connections| == |neurons|
    && (forall k :: 0 <= k < |neurons| ==>
          FindNode(view.nodeList, neurons[k]).Some?
          && net.nodes[k] == ActivationOf(FindNode(view.nodeList, neurons[k]).value))
    && (forall k :: 0 <= k < |neurons| ==> net.connections[k] == Outgoing(view, neurons, neurons[k]))
  }

  ghost predicate IsCompilationOf(view: GenomeView, net: CompiledNetwork) {
    exists neurons :: CompiledWith(view, neurons, net)
  }

  /** A genome the build cannot fail on: no active connection leaves an output, and every fixed index
      and every active target has a node gene. */
  ghost predicate Compilable(view: GenomeView) {
    var active := Active(view.connections);
    && (forall c :: c in active ==> !view.IsOutputIdx(c.sourceNodeIdx) && HasIdx(view.nodeList, c.targetNodeIdx))
    && (forall id :: 0 <= id < view.FixedCount() ==> HasIdx(view.nodeList, id))
  }

  /** Why a build failed: an active connection from an output to a neuron the breadth-first search never
      reached, or a compiled neuron (a fixed index or an active target) without a node gene. */
  ghost predicate FailureExplained(view: GenomeView, e: BuildError) {
    var active := Active(view.connections);
    && view.inputNodeCount >= 0 && view.outputNodeCount >= 0
    && match e
       case UnmappedTarget(t) =>
         && t !in BfsNumbering(view)
         && exists c :: c in active && view.IsOutputIdx(c.sourceNodeIdx) && c.targetNodeIdx == t && !view.IsOutputIdx(t)
       case MissingNodeGene(id) =>
         && id in BfsNumbering(view) && !HasIdx(view.nodeList, id)
         && (0 <= id < view.FixedCount() || exists c :: c in active && c.targetNodeIdx == id)
  }

  // ---------------------------------------------------------------------------------------------
  // Lemmas about numberings.

  /** The compiled bias, inputs and hidden neurons are exactly reachable: each lies in every set that
      holds the bias and the inputs and is closed under inner connections. */
  lemma {:induction false} NumberedNeuronsAreReachable(
    view: GenomeView, inner: seq<ConnectionGene>, neurons: seq<int>, reach: set<int>, k: int)
    requires IsNumbering(view, inner, neurons)
    requires forall id :: 0 <= id < BiasNodeCount + view.inputNodeCount ==> id in reach
    requires forall i :: 0 <= i < |inner| && inner[i].sourceNodeIdx in reach ==> inner[i].targetNodeIdx in reach
    requires 0 <= k < |neurons| && !view.IsOutputIdx(neurons[k])
    ensures neurons[k] in reach
    decreases k
  {
    if k >= view.FixedCount() {
      assert DiscoveredBefore(view, inner, neurons, k);
      var j :| 0 <= j < k && !view.IsOutputIdx(neurons[j]) && InnerEdge(inner, neurons[j], neurons[k]);
      NumberedNeuronsAreReachable(view, inner, neurons, reach, j);
      var i :| 0 <= i < |inner| && inner[i].sourceNodeIdx == neurons[j] && inner[i].targetNodeIdx == neurons[k];
    } else {
      assert neurons[k] == k;
    }
  }

  lemma FromSnoc(cs: seq<ConnectionGene>, i: int, id: int)
    requires 0 <= i < |cs|
    ensures From(cs[..i + 1], id) == From(cs[..i], id) + (if cs[i].sourceNodeIdx == id then [cs[i]] else [])
  {
    assert cs[..i + 1][..i] == cs[..i];
  }

  lemma RemappedAppend(a: seq<ConnectionGene>, b: seq<ConnectionGene>, neurons: seq<int>)
    ensures Remapped(a + b, neurons) == Remapped(a, neurons) + Remapped(b, neurons)
  {
  }

  lemma DirectAppend(a: seq<ConnectionGene>, b: seq<ConnectionGene>)
    ensures Direct(a + b) == Direct(a) + Direct(b)
  {
  }

  /** The target of an inner connection leaving a layer is among the keys the next layer is drawn from. */
  lemma LayerTargetListed(inner: seq<ConnectionGene>, layer: seq<NodeMap>, i: int)
    requires 0 <= i < |inner| && InLayer(layer, inner[i].sourceNodeIdx)
    ensures inner[i].targetNodeIdx in Distinct(TargetsOf(FromLayer(inner, layer)))
  {
    var fromLayer := FromLayer(inner, layer);
    FromLayerMembers(inner, layer);
    DistinctFromProperties(TargetsOf(fromLayer), {});
    assert inner[i] in fromLayer;
    var j :| 0 <= j < |fromLayer| && fromLayer[j] == inner[i];
    assert TargetsOf(fromLayer)[j] == inner[i].targetNodeIdx;
    assert inner[i].targetNodeIdx in Elems(Distinct(TargetsOf(fromLayer)));
  }

  /** The set of targets of a list of connections. */
  function TargetSet(cs: seq<ConnectionGene>): set<int> {
    set i | 0 <= i < |cs| :: cs[i].targetNodeIdx
  }

  /** A sequence without duplicates drawn from a set is no longer than the set. */
  lemma {:induction false} DistinctWithin(s: seq<int>, t: set<int>)
    requires NoDuplicates(s) && forall x :: x in s ==> x in t
    ensures |s| <= |t|
    decreases |s|
  {
    if s != [] {
      var init := s[..|s| - 1];
      var x := s[|s| - 1];
      forall y | y in init ensures y in t - {x} {
        var k :| 0 <= k < |init| && init[k] == y;
        assert s[k] == y;
      }
      DistinctWithin(init, t - {x});
    }
  }

  // ---------------------------------------------------------------------------------------------
  // The state of the map while it is built, as values.

  /** Entry `k` of the map has compiled index `k` and compiles `neurons[k]`. */
  ghost predicate Mirrors(netMap: seq<NodeMap>, neurons: seq<int>) {
    |netMap| == |neurons| && forall k :: 0 <= k < |netMap| ==> netMap[k] == NodeMap(k, neurons[k])
  }

  /** The entries `lo..hi` of a map compile the neurons `neurons[lo..hi]`. */
  lemma LayerNeurons(netMap: seq<NodeMap>, neurons: seq<int>, lo: int, hi: int)
    requires Mirrors(netMap, neurons) && 0 <= lo <= hi <= |netMap|
    ensures forall id :: InLayer(netMap[lo..hi], id) <==> id in neurons[lo..hi]
  {
    forall id ensures InLayer(netMap[lo..hi], id) <==> id in neurons[lo..hi] {
      if id in neurons[lo..hi] {
        var q :| 0 <= q < hi - lo && neurons[lo..hi][q] == id;
        assert netMap[lo..hi][q] == netMap[lo + q];
      }
    }
  }

  // ---------------------------------------------------------------------------------------------
  // The breadth-first numbering `BuildNetwork` makes, as values.

  /** The first `n` keys of `keys` that `mapped` does not hold yet, in order. */
  function Unmapped(keys: seq<int>, n: int, mapped: seq<int>): seq<int>
    requires 0 <= n <= |keys|
  {
    if n == 0 then []
    else Unmapped(keys, n - 1, mapped) + (if keys[n - 1] in mapped then [] else [keys[n - 1]])
  }

  lemma {:induction false} UnmappedMembers(keys: seq<int>, n: int, mapped: seq<int>)
    requires 0 <= n <= |keys|
    ensures forall x :: x in Unmapped(keys, n, mapped) <==> x in keys[..n] && x !in mapped
  {
    if n != 0 {
      assert keys[..n] == keys[..n - 1] + [keys[n - 1]];
      UnmappedMembers(keys, n - 1, mapped);
    }
  }

  /** The next key, which does not occur before it, is appended exactly when it is neither mapped nor
      among the earlier unmapped keys. */
  lemma UnmappedSnoc(keys: seq<int>, q: int, mapped: seq<int>, added: seq<int>)
    requires NoDuplicates(keys) && 0 <= q < |keys| && added == Unmapped(keys, q, mapped)
    ensures keys[q] in mapped + added ==> Unmapped(keys, q + 1, mapped) == added
    ensures keys[q] !in mapped + added ==> Unmapped(keys, q + 1, mapped) == added + [keys[q]]
  {
    UnmappedMembers(keys, q, mapped);
    assert keys[q] !in keys[..q] by {
      forall q' | 0 <= q' < q ensures keys[..q][q'] != keys[q] {
        assert keys[..q][q'] == keys[q'];
      }
    }
    assert added + [] == added;
  }

  /** The entries `lo..hi` of the map that mirrors `neurons`. */
  function LayerOf(neurons: seq<int>, lo: int, hi: int): (r: seq<NodeMap>)
    requires 0 <= lo <= hi <= |neurons|
    ensures |r| == hi - lo && forall q :: 0 <= q < hi - lo ==> r[q] == NodeMap(lo + q, neurons[lo + q])
  {
    seq(hi - lo, q requires 0 <= q < hi - lo => NodeMap(lo + q, neurons[lo + q]))
  }

  /** The entries of a mirroring map between `lo` and `hi` are `LayerOf(neurons, lo, hi)`. */
  lemma MirroredLayer(netMap: seq<NodeMap>, neurons: seq<int>, lo: int, hi: int)
    requires Mirrors(netMap, neurons) && 0 <= lo <= hi <= |netMap|
    ensures netMap[lo..hi] == LayerOf(neurons, lo, hi)
  {
  }

  /** The neurons one layer step appends after the layer `lo..hi` of `neurons`: the targets of the
      inner connections that leave the layer, in order of first occurrence, that are not compiled yet. */
  function NextLayer(inner: seq<ConnectionGene>, neurons: seq<int>, lo: int, hi: int): seq<int>
    requires 0 <= lo <= hi <= |neurons|
  {
    var keys := Distinct(TargetsOf(FromLayer(inner, LayerOf(neurons, lo, hi))));
    Unmapped(keys, |keys|, neurons)
  }

  /** A subset of a set is no larger than the set. */
  lemma SubsetNoLarger(a: set<int>, b: set<int>)
    requires a <= b
    ensures |a| <= |b|
  {
    assert b == a + (b - a);
  }

  /** A non-empty next layer holds a target of `inner` that was not compiled, so fewer are left. */
  lemma NextLayerShrinks(inner: seq<ConnectionGene>, neurons: seq<int>, lo: int, hi: int)
    requires 0 <= lo <= hi <= |neurons| && NextLayer(inner, neurons, lo, hi) != []
    ensures |TargetSet(inner) - Elems(neurons + NextLayer(inner, neurons, lo, hi))| < |TargetSet(inner) - Elems(neurons)|
  {
    var from := FromLayer(inner, LayerOf(neurons, lo, hi));
    var next := NextLayer(inner, neurons, lo, hi);
    var x := next[0];
    UnmappedMembers(Distinct(TargetsOf(from)), |Distinct(TargetsOf(from))|, neurons);
    assert Distinct(TargetsOf(from))[..|Distinct(TargetsOf(from))|] == Distinct(TargetsOf(from));
    FromLayerMembers(inner, LayerOf(neurons, lo, hi));
    DistinctFromProperties(TargetsOf(from), {});
    assert x in Elems(Distinct(TargetsOf(from)));
    var i :| 0 <= i < |from| && TargetsOf(from)[i] == x;
    assert from[i] in inner;
    var j :| 0 <= j < |inner| && inner[j] == from[i];
    var left := TargetSet(inner) - Elems(neurons);
    assert x in left;
    SubsetNoLarger(TargetSet(inner) - Elems(neurons + next), left - {x});
  }

  /** The numbering the layer-by-layer search completes from `neurons`, whose entries `lo..hi` are the
      current layer: an empty layer, or one whose step appends nothing, ends the search; otherwise the
      appended neurons become the current layer. */
  ghost function Bfs(inner: seq<ConnectionGene>, neurons: seq<int>, lo: int, hi: int): seq<int>
    requires 0 <= lo <= hi <= |neurons|
    decreases |TargetSet(inner) - Elems(neurons)|
  {
    if lo == hi then neurons
    else
      var next := NextLayer(inner, neurons, lo, hi);
      if next == [] then neurons
      else
        NextLayerShrinks(inner, neurons, lo, hi);
        Bfs(inner, neurons + next, |neurons|, |neurons| + |next|)
  }

  /** One step of the search on a non-empty layer, whatever it appends. */
  lemma BfsStep(inner: seq<ConnectionGene>, neurons: seq<int>, lo: int, hi: int)
    requires 0 <= lo < hi <= |neurons|
    ensures var next := NextLayer(inner, neurons, lo, hi);
      Bfs(inner, neurons, lo, hi) == Bfs(inner, neurons + next, |neurons|, |neurons| + |next|)
  {
    if NextLayer(inner, neurons, lo, hi) == [] {
      assert neurons + [] == neurons;
    }
  }

  /** The search from a layer continues unchanged from the layer its step appends. */
  lemma BfsContinues(inner: seq<ConnectionGene>, neurons: seq<int>, lo: int, hi: int, layer: seq<NodeMap>, neurons': seq<int>)
    requires 0 <= lo < hi <= |neurons| && layer == LayerOf(neurons, lo, hi)
    requires var keys := Distinct(TargetsOf(FromLayer(inner, layer)));
      neurons' == neurons + Unmapped(keys, |keys|, neurons)
    ensures |neurons| <= |neurons'| && Bfs(inner, neurons', |neurons|, |neurons'|) == Bfs(inner, neurons, lo, hi)
  {
    var next := NextLayer(inner, neurons, lo, hi);
    assert neurons' == neurons + next;
    BfsStep(inner, neurons, lo, hi);
  }

  /** The bias, the inputs and the outputs, each compiled at its own index. */
  function FixedBlock(view: GenomeView): (r: seq<int>)
    requires view.inputNodeCount >= 0 && view.outputNodeCount >= 0
    ensures |r| == view.FixedCount() && forall k :: 0 <= k < |r| ==> r[k] == k
  {
    seq(view.FixedCount(), k => k)
  }

  /** The numbering `BuildNetwork` makes: the fixed block, then the layer-by-layer search through the
      inner connections that starts from the bias and the inputs. */
  ghost function BfsNumbering(view: GenomeView): seq<int>
    requires view.inputNodeCount >= 0 && view.outputNodeCount >= 0
  {
    Bfs(InnerOf(view), FixedBlock(view), 0, BiasNodeCount + view.inputNodeCount)
  }

  /** Without inner connections the search appends nothing: the numbering is the fixed block. */
  lemma BfsWithoutInner(view: GenomeView)
    requires view.inputNodeCount >= 0 && view.outputNodeCount >= 0 && InnerOf(view) == []
    ensures BfsNumbering(view) == FixedBlock(view)
  {
    var fixed := FixedBlock(view);
    assert FromLayer([], LayerOf(fixed, 0, BiasNodeCount + view.inputNodeCount)) == [];
    assert TargetsOf([]) == [];
  }

  // ---------------------------------------------------------------------------------------------
  // The invariant of the map while it is built.

  /** The map invariant: the fixed block compiles `0..N+M` at their own index, later entries compile
      distinct neurons outside it, each the target of an inner connection from the earlier non-output
      entry `parent[k]`. */
  ghost predicate MapInvariant(view: GenomeView, inner: seq<ConnectionGene>, neurons: seq<int>, parent: seq<int>) {
    var fixed := view.FixedCount();
    && view.inputNodeCount >= 0 && view.outputNodeCount >= 0 && fixed <= |neurons| && |parent| == |neurons|
    && (forall k :: 0 <= k < fixed ==> neurons[k] == k)
    && (forall k :: fixed <= k < |neurons| ==> !(0 <= neurons[k] < fixed))
    && NoDuplicates(neurons)
    && (forall k {:trigger parent[k]} :: fixed <= k < |neurons| ==>
          && 0 <= parent[k] < k && !view.IsOutputIdx(neurons[parent[k]])
          && InnerEdge(inner, neurons[parent[k]], neurons[k]))
  }

  /** The entry `x` of the layer `netMap[lo..hi]` from which an inner connection reaches `key`, a target
      of the inner connections leaving the layer. */
  lemma LayerEntry(inner: seq<ConnectionGene>, netMap: seq<NodeMap>, neurons: seq<int>, layer: seq<NodeMap>, lo: int, hi: int, key: int)
    returns (x: int)
    requires Mirrors(netMap, neurons) && 0 <= lo <= hi <= |netMap| && layer == netMap[lo..hi]
    requires key in Distinct(TargetsOf(FromLayer(inner, layer)))
    ensures lo <= x < hi && InnerEdge(inner, neurons[x], key)
  {
    var fromLayer := FromLayer(inner, layer);
    FromLayerMembers(inner, layer);
    DistinctFromProperties(TargetsOf(fromLayer), {});
    assert key in Elems(Distinct(TargetsOf(fromLayer)));
    assert key in Elems(TargetsOf(fromLayer));
    var i :| 0 <= i < |fromLayer| && TargetsOf(fromLayer)[i] == key;
    var c := fromLayer[i];
    var q :| 0 <= q < |layer| && layer[q].neuronId == c.sourceNodeIdx;
    x := lo + q;
    var i' :| 0 <= i' < |inner| && inner[i'] == c;
    assert |layer| == hi - lo && layer[q] == netMap[x];
    assert netMap[x] == NodeMap(x, neurons[x]);
    assert inner[i'].sourceNodeIdx == neurons[x] && inner[i'].targetNodeIdx == key;
  }

  /** Appending a newly discovered neuron keeps the map invariant. */
  lemma MapInvariantAppend(
    view: GenomeView, inner: seq<ConnectionGene>, neurons: seq<int>, parent: seq<int>, key: int, x: int)
    requires MapInvariant(view, inner, neurons, parent) && key !in neurons
    requires 0 <= x < |neurons| && !view.IsOutputIdx(neurons[x]) && InnerEdge(inner, neurons[x], key)
    ensures MapInvariant(view, inner, neurons + [key], parent + [x])
  {
    var fixed := view.FixedCount();
    forall id | 0 <= id < fixed ensures id in neurons {
      assert neurons[id] == id;
    }
    var n := neurons + [key];
    var p := parent + [x];
    assert forall k :: 0 <= k < |neurons| ==> n[k] == neurons[k] && p[k] == parent[k];
    assert NoDuplicates(n) by {
      forall i, j | 0 <= i < j < |n| ensures n[i] != n[j] {
        if j == |neurons| {
          assert n[i] == neurons[i];
        }
      }
    }
  }

  /** Every hidden neuron of the map is an inner target, so the map holds at most `N+M+1` entries more than
      there are inner targets. */
  lemma HiddenBound(view: GenomeView, inner: seq<ConnectionGene>, neurons: seq<int>, parent: seq<int>)
    requires MapInvariant(view, inner, neurons, parent)
    ensures forall k :: view.FixedCount() <= k < |neurons| ==> neurons[k] in TargetSet(inner)
    ensures |neurons| <= view.FixedCount() + |TargetSet(inner)|
  {
    var fixed := view.FixedCount();
    forall k | fixed <= k < |neurons| ensures neurons[k] in TargetSet(inner) {
      assert InnerEdge(inner, neurons[parent[k]], neurons[k]);
      var i :| 0 <= i < |inner| && inner[i].sourceNodeIdx == neurons[parent[k]] && inner[i].targetNodeIdx == neurons[k];
    }
    var hidden := neurons[fixed..];
    forall x | x in hidden ensures x in TargetSet(inner) {
      var q :| 0 <= q < |hidden| && hidden[q] == x;
      assert neurons[fixed + q] == x;
    }
    assert NoDuplicates(hidden) by {
      forall i, j | 0 <= i < j < |hidden| ensures hidden[i] != hidden[j] {
        assert hidden[i] == neurons[fixed + i] && hidden[j] == neurons[fixed + j];
      }
    }
    DistinctWithin(hidden, TargetSet(inner));
  }

  /** Every inner connection out of a compiled non-output neuron that is not in `layer` reaches a
      compiled neuron. */
  ghost predicate ClosedOutside(view: GenomeView, inner: seq<ConnectionGene>, neurons: seq<int>, layer: seq<int>) {
    forall i :: 0 <= i < |inner| && inner[i].sourceNodeIdx in neurons
      && !view.IsOutputIdx(inner[i].sourceNodeIdx) && inner[i].sourceNodeIdx !in layer
      ==> inner[i].targetNodeIdx in neurons
  }

  /** With only the fixed block mapped, every compiled non-output neuron is in the first layer. */
  lemma FirstLayerClosed(view: GenomeView, inner: seq<ConnectionGene>, neurons: seq<int>, parent: seq<int>)
    requires MapInvariant(view, inner, neurons, parent) && |neurons| == view.FixedCount()
    ensures ClosedOutside(view, inner, neurons, neurons[..BiasNodeCount + view.inputNodeCount])
  {
    var layer := neurons[..BiasNodeCount + view.inputNodeCount];
    forall i | 0 <= i < |inner| && inner[i].sourceNodeIdx in neurons && !view.IsOutputIdx(inner[i].sourceNodeIdx)
      ensures inner[i].sourceNodeIdx in layer
    {
      var q :| 0 <= q < |neurons| && neurons[q] == inner[i].sourceNodeIdx;
      assert layer[q] == neurons[q];
    }
  }

  /** After a layer step, closure holds outside the new layer: a source outside it was either in the
      old layer, whose targets the step mapped, or closed already. */
  lemma LayerStepClosed(
    view: GenomeView, inner: seq<ConnectionGene>, before: seq<int>, layer: seq<int>, next: seq<int>)
    requires ClosedOutside(view, inner, before, layer)
    requires forall i :: 0 <= i < |inner| && inner[i].sourceNodeIdx in layer ==> inner[i].targetNodeIdx in before + next
    ensures ClosedOutside(view, inner, before + next, next)
  {
  }

  /** `_netMap.Where(n => n.Key.NeuronId == id)`: the entries that compile neuron `id`, in order. */
  function EntriesFor(netMap: seq<NodeMap>, id: int): seq<NodeMap>
    decreases |netMap|
  {
    if netMap == [] then []
    else
      var e := netMap[|netMap| - 1];
      EntriesFor(netMap[..|netMap| - 1], id) + (if e.neuronId == id then [e] else [])
  }

  /** In a map without repeated neurons, the entries for `id` are the single entry at its first index,
      or none when `id` is not compiled. */
  lemma {:induction false} EntriesForDistinct(netMap: seq<NodeMap>, neurons: seq<int>, id: int)
    requires Mirrors(netMap, neurons) && NoDuplicates(neurons)
    ensures EntriesFor(netMap, id) == if id in neurons then [NodeMap(FirstIndex(neurons, id), id)] else []
    decreases |netMap|
  {
    if netMap != [] {
      var n := |netMap| - 1;
      var init, ninit := netMap[..n], neurons[..n];
      assert Mirrors(init, ninit);
      assert NoDuplicates(ninit) by {
        forall i, j | 0 <= i < j < n ensures ninit[i] != ninit[j] {
          assert ninit[i] == neurons[i] && ninit[j] == neurons[j];
        }
      }
      EntriesForDistinct(init, ninit, id);
      assert neurons == ninit + [neurons[n]];
      if neurons[n] == id {
        assert id !in ninit by {
          forall q | 0 <= q < n ensures ninit[q] != id {
            assert neurons[q] != neurons[n];
          }
        }
        FirstIndexDistinct(neurons, n);
      } else if id in ninit {
        var g := FirstIndex(ninit, id);
        assert neurons[g] == id;
        FirstIndexDistinct(neurons, g);
      }
    }
  }

  /** `_netMap.Keys.FirstOrDefault(n => n.NeuronId == id)`: the first entry for `id`, or `None` where
      `First` throws. */
  function FindEntry(netMap: seq<NodeMap>, id: int): (r: Option<NodeMap>)
    ensures r.Some? <==> InLayer(netMap, id)
    ensures r.Some? ==> r.value in netMap && r.value.neuronId == id
    decreases |netMap|
  {
    if netMap == [] then None
    else if netMap[0].neuronId == id then Some(netMap[0])
    else
      var r := FindEntry(netMap[1..], id);
      assert InLayer(netMap, id) ==> InLayer(netMap[1..], id) by {
        if InLayer(netMap, id) {
          var q :| 0 <= q < |netMap| && netMap[q].neuronId == id;
          assert netMap[1..][q - 1] == netMap[q];
        }
      }
      assert InLayer(netMap[1..], id) ==> InLayer(netMap, id) by {
        if InLayer(netMap[1..], id) {
          var q :| 0 <= q < |netMap| - 1 && netMap[1..][q].neuronId == id;
          assert netMap[q + 1] == netMap[1..][q];
        }
      }
      r
  }

  /** In a map without repeated neurons, an entry's compiled index is the first index of its neuron,
      and a neuron has an entry exactly when it is compiled. */
  lemma EntryIndex(netMap: seq<NodeMap>, neurons: seq<int>, id: int)
    requires Mirrors(netMap, neurons) && NoDuplicates(neurons)
    ensures InLayer(netMap, id) <==> id in neurons
    ensures forall e :: e in netMap && e.neuronId == id ==> e.netNodeId == FirstIndex(neurons, id)
  {
    LayerNeurons(netMap, neurons, 0, |netMap|);
    assert netMap[0..|netMap|] == netMap && neurons[0..|netMap|] == neurons;
    forall e | e in netMap && e.neuronId == id ensures e.netNodeId == FirstIndex(neurons, id) {
      var k :| 0 <= k < |netMap| && netMap[k] == e;
      assert neurons[k] == id;
      FirstIndexDistinct(neurons, k);
    }
  }

  /** The outgoing lists once the given inner connections are added to empty lists. */
  function InnerLists(neurons: seq<int>, cs: seq<ConnectionGene>): seq<seq<NetConnection>>
  {
    seq(|neurons|, k requires 0 <= k < |neurons| => Remapped(From(cs, neurons[k]), neurons))
  }

  /** The outgoing lists once the given output connections are added to `lists`. */
  function OutputLists(lists: seq<seq<NetConnection>>, neurons: seq<int>, cs: seq<ConnectionGene>): seq<seq<NetConnection>>
    requires |lists| == |neurons|
  {
    seq(|lists|, k requires 0 <= k < |lists| => lists[k] + Direct(From(cs, neurons[k])))
  }

  /** `nc` appended to the list of every entry compiling `id`. */
  function Bump(lists: seq<seq<NetConnection>>, neurons: seq<int>, id: int, nc: NetConnection): seq<seq<NetConnection>>
    requires |lists| == |neurons|
  {
    seq(|lists|, k requires 0 <= k < |lists| => lists[k] + (if neurons[k] == id then [nc] else []))
  }

  /** Without repeated neurons, appending to the list of entry `k0` appends to the lists of its neuron. */
  lemma BumpAt(lists: seq<seq<NetConnection>>, neurons: seq<int>, k0: int, nc: NetConnection)
    requires NoDuplicates(neurons) && |lists| == |neurons| && 0 <= k0 < |neurons|
    ensures lists[k0 := lists[k0] + [nc]] == Bump(lists, neurons, neurons[k0], nc)
  {
    var r := Bump(lists, neurons, neurons[k0], nc);
    forall k | 0 <= k < |lists| ensures lists[k0 := lists[k0] + [nc]][k] == r[k] {
      if k != k0 {
        assert neurons[k] != neurons[k0];
      }
    }
  }

  lemma BumpAbsent(lists: seq<seq<NetConnection>>, neurons: seq<int>, id: int, nc: NetConnection)
    requires |lists| == |neurons| && id !in neurons
    ensures Bump(lists, neurons, id, nc) == lists
  {
    var r := Bump(lists, neurons, id, nc);
    forall k | 0 <= k < |lists| ensures r[k] == lists[k] {
      assert neurons[k] != id;
    }
  }

  /** Every connection whose source is compiled has a compiled target. */
  ghost predicate TargetsResolved(cs: seq<ConnectionGene>, neurons: seq<int>) {
    forall i :: 0 <= i < |cs| && cs[i].sourceNodeIdx in neurons ==> cs[i].targetNodeIdx in neurons
  }

  lemma TargetsResolvedSnoc(cs: seq<ConnectionGene>, i: int, neurons: seq<int>)
    requires 0 <= i < |cs| && TargetsResolved(cs[..i], neurons)
    requires cs[i].sourceNodeIdx in neurons ==> cs[i].targetNodeIdx in neurons
    ensures TargetsResolved(cs[..i + 1], neurons)
  {
    var pre := cs[..i + 1];
    forall i' | 0 <= i' < i + 1 && pre[i'].sourceNodeIdx in neurons
      ensures pre[i'].targetNodeIdx in neurons
    {
      if i' < i {
        assert pre[i'] == cs[..i][i'];
      }
    }
  }

  /** `foreach (var node in nodes) node.Value.Add(nc)`: `nc` appended to the list of each entry. */
  function AppendToEntries(lists: seq<seq<NetConnection>>, nodes: seq<NodeMap>, nc: NetConnection): (r: seq<seq<NetConnection>>)
    ensures |r| == |lists|
    decreases |nodes|
  {
    if nodes == [] then lists
    else
      var r := AppendToEntries(lists, nodes[..|nodes| - 1], nc);
      var k := nodes[|nodes| - 1].netNodeId;
      if 0 <= k < |r| then r[k := r[k] + [nc]] else r
  }

  /** Appending to the entries for `id` appends to the list of every entry compiling `id`. */
  lemma EntriesAppended(netMap: seq<NodeMap>, neurons: seq<int>, lists: seq<seq<NetConnection>>, id: int, nc: NetConnection)
    requires Mirrors(netMap, neurons) && NoDuplicates(neurons) && |lists| == |neurons|
    ensures AppendToEntries(lists, EntriesFor(netMap, id), nc) == Bump(lists, neurons, id, nc)
  {
    EntriesForDistinct(netMap, neurons, id);
    if id in neurons {
      var f := FirstIndex(neurons, id);
      assert EntriesFor(netMap, id)[..0] == [];
      BumpAt(lists, neurons, f, nc);
    } else {
      BumpAbsent(lists, neurons, id, nc);
    }
  }

  lemma InnerListsEmpty(lists: seq<seq<NetConnection>>, neurons: seq<int>, cs: seq<ConnectionGene>)
    requires |lists| == |neurons| && forall k :: 0 <= k < |lists| ==> lists[k] == []
    ensures InnerLists(neurons, cs[..0]) == lists
  {
    assert cs[..0] == [];
  }

  lemma OutputListsEmpty(lists: seq<seq<NetConnection>>, neurons: seq<int>, cs: seq<ConnectionGene>)
    requires |lists| == |neurons|
    ensures OutputLists(lists, neurons, cs[..0]) == lists
  {
    assert cs[..0] == [];
    var r := OutputLists(lists, neurons, cs[..0]);
    forall k | 0 <= k < |lists| ensures r[k] == lists[k] {
      assert From(cs[..0], neurons[k]) == [];
    }
  }

  lemma InnerListsSnoc(neurons: seq<int>, cs: seq<ConnectionGene>, i: int)
    requires 0 <= i < |cs|
    ensures InnerLists(neurons, cs[..i + 1])
              == Bump(InnerLists(neurons, cs[..i]), neurons, cs[i].sourceNodeIdx,
                      NetConnection(FirstIndex(neurons, cs[i].targetNodeIdx), cs[i].weight))
  {
    forall k | 0 <= k < |neurons|
      ensures InnerLists(neurons, cs[..i + 1])[k] == Bump(InnerLists(neurons, cs[..i]), neurons, cs[i].sourceNodeIdx,
                      NetConnection(FirstIndex(neurons, cs[i].targetNodeIdx), cs[i].weight))[k]
    {
      FromSnoc(cs, i, neurons[k]);
      RemappedAppend(From(cs[..i], neurons[k]), [cs[i]], neurons);
    }
  }

  lemma OutputListsSnoc(lists: seq<seq<NetConnection>>, neurons: seq<int>, cs: seq<ConnectionGene>, i: int)
    requires 0 <= i < |cs| && |lists| == |neurons|
    ensures OutputLists(lists, neurons, cs[..i + 1])
              == Bump(OutputLists(lists, neurons, cs[..i]), neurons, cs[i].sourceNodeIdx,
                      NetConnection(cs[i].targetNodeIdx, cs[i].weight))
  {
    forall k | 0 <= k < |neurons|
      ensures OutputLists(lists, neurons, cs[..i + 1])[k] == Bump(OutputLists(lists, neurons, cs[..i]), neurons,
                      cs[i].sourceNodeIdx, NetConnection(cs[i].targetNodeIdx, cs[i].weight))[k]
    {
      FromSnoc(cs, i, neurons[k]);
      DirectAppend(From(cs[..i], neurons[k]), [cs[i]]);
    }
  }

  /** An inner connection from a compiled neuron to one that is not compiled leaves an output, so the
      genome is not compilable and the failure is explained. */
  lemma UnmappedExplained(view: GenomeView, neurons: seq<int>, i: int)
    requires view.inputNodeCount >= 0 && view.outputNodeCount >= 0 && neurons == BfsNumbering(view)
    requires ClosedOutside(view, InnerOf(view), neurons, [])
    requires 0 <= i < |InnerOf(view)| && InnerOf(view)[i].sourceNodeIdx in neurons
    requires InnerOf(view)[i].targetNodeIdx !in neurons
    ensures FailureExplained(view, UnmappedTarget(InnerOf(view)[i].targetNodeIdx)) && !Compilable(view)
  {
    var c := InnerOf(view)[i];
    ByTargetMembers(Active(view.connections), OutputLayer(view), false);
    ActiveMembers(view.connections);
    assert c in Active(view.connections);
  }

  /** A compiled neuron is a fixed index or an active target, so one without a node gene explains the
      failure and makes the genome not compilable. */
  lemma MissingExplained(view: GenomeView, neurons: seq<int>, parent: seq<int>, k: int)
    requires view.inputNodeCount >= 0 && view.outputNodeCount >= 0 && neurons == BfsNumbering(view)
    requires MapInvariant(view, InnerOf(view), neurons, parent)
    requires 0 <= k < |neurons| && !HasIdx(view.nodeList, neurons[k])
    ensures FailureExplained(view, MissingNodeGene(neurons[k])) && !Compilable(view)
  {
    var inner := InnerOf(view);
    if k < view.FixedCount() {
      assert neurons[k] == k;
    } else {
      HiddenBound(view, inner, neurons, parent);
      var i :| 0 <= i < |inner| && inner[i].targetNodeIdx == neurons[k];
      ByTargetMembers(Active(view.connections), OutputLayer(view), false);
      ActiveMembers(view.connections);
      assert inner[i] in Active(view.connections);
    }
  }

  /** A build that numbered the neurons by the search, resolved every inner target from a compiled
      neuron and found a node gene for every compiled neuron exhibits no reason to fail: the target of
      an active connection out of an output is compiled, and so is no neuron without a node gene. */
  lemma BuiltUnexplained(view: GenomeView, net: CompiledNetwork)
    requires view.inputNodeCount >= 0 && view.outputNodeCount >= 0
    requires CompiledWith(view, BfsNumbering(view), net) && TargetsResolved(InnerOf(view), BfsNumbering(view))
    ensures forall e :: !FailureExplained(view, e)
  {
    var neurons := BfsNumbering(view);
    ByTargetMembers(Active(view.connections), OutputLayer(view), false);
    forall c | c in Active(view.connections) && view.IsOutputIdx(c.sourceNodeIdx) && !view.IsOutputIdx(c.targetNodeIdx)
      ensures c.targetNodeIdx in neurons
    {
      var i :| 0 <= i < |InnerOf(view)| && InnerOf(view)[i] == c;
      assert neurons[c.sourceNodeIdx] == c.sourceNodeIdx;
    }
    forall id | id in neurons ensures HasIdx(view.nodeList, id) {
      var k :| 0 <= k < |neurons| && neurons[k] == id;
      assert FindNode(view.nodeList, neurons[k]).Some?;
    }
  }

  /** Once the bias, the inputs and the outputs are mapped at their own index, the map invariant holds. */
  lemma FixedBlockMapped(view: GenomeView, inner: seq<ConnectionGene>, neurons: seq<int>, parent: seq<int>)
    requires view.inputNodeCount >= 0 && view.outputNodeCount >= 0
    requires |neurons| == |parent| == view.FixedCount() && forall k :: 0 <= k < |neurons| ==> neurons[k] == k
    ensures MapInvariant(view, inner, neurons, parent)
  {
  }

  /** The network assembled from a numbering, the node activations and the filled lists is a
      compilation of the genome. */
  lemma AssembledIsCompilation(
    view: GenomeView, neurons: seq<int>, nodes: seq<ActivationType>, connections: seq<seq<NetConnection>>,
    innerLists: seq<seq<NetConnection>>)
    requires IsNumbering(view, InnerOf(view), neurons)
    requires |nodes| == |neurons| && forall k :: 0 <= k < |neurons| ==>
               FindNode(view.nodeList, neurons[k]).Some? && nodes[k] == ActivationOf(FindNode(view.nodeList, neurons[k]).value)
    requires innerLists == InnerLists(neurons, InnerOf(view))
    requires connections == OutputLists(innerLists, neurons, OutputsOf(view))
    ensures CompiledWith(view, neurons, CompiledNetwork(view.inputNodeCount, view.outputNodeCount, nodes, connections))
    ensures IsCompilationOf(view, CompiledNetwork(view.inputNodeCount, view.outputNodeCount, nodes, connections))
  {
    var net := CompiledNetwork(view.inputNodeCount, view.outputNodeCount, nodes, connections);
    assert CompiledWith(view, neurons, net);
  }

  // ---------------------------------------------------------------------------------------------
  // The builder.

  class NetworkBuilder {
    const genome: GenomeView
    /** The keys of `_netMap`, in insertion order, and the outgoing list stored under each. */
    var netMap: seq<NodeMap>
    var netLists: seq<seq<NetConnection>>
    var nextNetNodeId: int
    /** The neuron each entry compiles, and for each hidden entry the entry whose inner connection
        discovered it. */
    ghost var neurons: seq<int>
    ghost var parent: seq<int>

    constructor (genome: GenomeView)
      requires genome.inputNodeCount >= 0 && genome.outputNodeCount >= 0
      ensures this.genome == genome && netMap == [] && netLists == [] && neurons == [] && parent == []
      ensures nextNetNodeId == genome.FixedCount()
    {
      this.genome := genome;
      nextNetNodeId := BiasNodeCount + genome.inputNodeCount + genome.outputNodeCount;
      netMap := [];
      netLists := [];
      neurons := [];
      parent := [];
    }

    /** The map invariant, and the next compiled index is the size of the map. */
    ghost predicate Numbered(inner: seq<ConnectionGene>)
      reads this
    {
      && |netLists| == |netMap| && nextNetNodeId == |netMap| && Mirrors(netMap, neurons)
      && MapInvariant(genome, inner, neurons, parent)
    }

    /** A layer is a slice `lo..hi` of the map, either within the bias and inputs or among the hidden
        entries, so none of its neurons is an output. */
    ghost predicate IsLayer(layer: seq<NodeMap>, lo: int, hi: int)
      reads this
    {
      0 <= lo <= hi <= |netMap| && layer == netMap[lo..hi]
      && (hi <= BiasNodeCount + genome.inputNodeCount || genome.FixedCount() <= lo)
    }

    /** While the map is being built, no outgoing list has been filled. */
    ghost predicate ListsEmpty()
      reads this
    {
      forall k :: 0 <= k < |netLists| ==> netLists[k] == []
    }

    /** The body of the `GetNextLayerNodes` loop: maps `key`, a target of an inner connection leaving
        `layer`, unless it is already mapped. */
    method MapTarget(ghost inner: seq<ConnectionGene>, ghost layer: seq<NodeMap>, ghost lo: int, ghost hi: int, key: int)
      returns (isNew: bool)
      requires Numbered(inner) && ListsEmpty() && IsLayer(layer, lo, hi)
      requires key in Distinct(TargetsOf(FromLayer(inner, layer)))
      modifies this
      ensures Numbered(inner) && ListsEmpty() && IsLayer(layer, lo, hi)
      ensures isNew <==> key !in old(neurons)
      ensures isNew ==> netMap == old(netMap) + [NodeMap(|old(netMap)|, key)] && neurons == old(neurons) + [key]
      ensures !isNew ==> netMap == old(netMap) && neurons == old(neurons)
    {
      LayerNeurons(netMap, neurons, 0, |netMap|);
      assert netMap[0..|netMap|] == netMap && neurons[0..|netMap|] == neurons;
      isNew := !InLayer(netMap, key);
      if isNew {
        ghost var x := DiscoveringEntry(layer, inner, lo, hi, key);
        MapInvariantAppend(genome, inner, neurons, parent, key, x);
        var nodeMap := NodeMap(nextNetNodeId, key);
        netMap := netMap + [nodeMap];
        netLists := netLists + [[]];
        neurons := neurons + [key];
        parent := parent + [x];
        nextNetNodeId := nextNetNodeId + 1;
      }
    }

    /** The map entry from which an inner connection reaches `key`, for a `key` among the targets of the
        inner connections leaving the layer; it is not an output. */
    lemma DiscoveringEntry(layer: seq<NodeMap>, inner: seq<ConnectionGene>, lo: int, hi: int, key: int)
      returns (x: int)
      requires Mirrors(netMap, neurons) && MapInvariant(genome, inner, neurons, parent) && IsLayer(layer, lo, hi)
      requires key in Distinct(TargetsOf(FromLayer(inner, layer)))
      ensures lo <= x < hi && !genome.IsOutputIdx(neurons[x]) && InnerEdge(inner, neurons[x], key)
    {
      x := LayerEntry(inner, netMap, neurons, layer, lo, hi, key);
      if hi <= BiasNodeCount + genome.inputNodeCount {
        assert neurons[x] == x;
      } else {
        assert !(0 <= neurons[x] < genome.FixedCount());
      }
    }

    lemma NumberedIsNumbering(inner: seq<ConnectionGene>)
      requires Numbered(inner) && ClosedOutside(genome, inner, neurons, [])
      ensures IsNumbering(genome, inner, neurons) && NeuronsOf(netMap) == neurons
    {
      var fixed := genome.FixedCount();
      forall k | fixed <= k < |neurons| ensures DiscoveredBefore(genome, inner, neurons, k) {
        var j := parent[k];
        assert 0 <= j < k && !genome.IsOutputIdx(neurons[j]) && InnerEdge(inner, neurons[j], neurons[k]);
      }
    }

    /** `GetOutputConnections`: the connections whose target is an output node. */
    method GetOutputConnections(connections: seq<ConnectionGene>, outputNodeLayer: seq<NodeMap>)
      returns (outConnections: seq<ConnectionGene>)
      ensures outConnections == ByTarget(connections, outputNodeLayer, true)
    {
      outConnections := [];
      var i := 0;
      while i < |connections|
        invariant 0 <= i <= |connections|
        invariant outConnections == ByTarget(connections[..i], outputNodeLayer, true)
      {
        var connection := connections[i];
        var found := false;
        var q := 0;
        while q < |outputNodeLayer|
          invariant 0 <= q <= |outputNodeLayer|
          invariant found <==> exists q' :: 0 <= q' < q && outputNodeLayer[q'].neuronId == connection.targetNodeIdx
        {
          if connection.targetNodeIdx == outputNodeLayer[q].neuronId {
            found := true;
            break;
          }
          q := q + 1;
        }
        if found {
          outConnections := outConnections + [connection];
        }
        assert connections[..i + 1][..i] == connections[..i];
        i := i + 1;
      }
      assert connections[..i] == connections;
    }

    /** `GetInnerConnections`: the connections whose target is not an output node. */
    method GetInnerConnections(connections: seq<ConnectionGene>, outputNodeLayer: seq<NodeMap>)
      returns (innerConnections: seq<ConnectionGene>)
      ensures innerConnections == ByTarget(connections, outputNodeLayer, false)
    {
      innerConnections := [];
      var i := 0;
      while i < |connections|
        invariant 0 <= i <= |connections|
        invariant innerConnections == ByTarget(connections[..i], outputNodeLayer, false)
      {
        var connection := connections[i];
        var found := false;
        var q := 0;
        while q < |outputNodeLayer|
          invariant 0 <= q <= |outputNodeLayer|
          invariant found <==> exists q' :: 0 <= q' < q && outputNodeLayer[q'].neuronId == connection.targetNodeIdx
        {
          if connection.targetNodeIdx == outputNodeLayer[q].neuronId {
            found := true;
            break;
          }
          q := q + 1;
        }
        if !found {
          innerConnections := innerConnections + [connection];
        }
        assert connections[..i + 1][..i] == connections[..i];
        i := i + 1;
      }
      assert connections[..i] == connections;
    }

    /** The loop of `GetNextLayerNodes` over the grouped targets `keys`: maps each key not yet compiled,
        in order, and returns the new entries. */
    method MapTargets(ghost inner: seq<ConnectionGene>, ghost layer: seq<NodeMap>, ghost lo: int, ghost hi: int, keys: seq<int>)
      returns (nextNodeLayer: seq<NodeMap>)
      requires Numbered(inner) && ListsEmpty() && IsLayer(layer, lo, hi)
      requires (forall x :: x in keys ==> x in Distinct(TargetsOf(FromLayer(inner, layer)))) && NoDuplicates(keys)
      modifies this
      ensures Numbered(inner) && ListsEmpty() && IsLayer(layer, lo, hi)
      ensures netMap == old(netMap) + nextNodeLayer && neurons == old(neurons) + Unmapped(keys, |keys|, old(neurons))
      ensures forall x :: x in keys ==> x in neurons
    {
      nextNodeLayer := [];
      ghost var added: seq<int> := [];
      var q := 0;
      while q < |keys|
        invariant 0 <= q <= |keys|
        invariant Numbered(inner) && ListsEmpty() && IsLayer(layer, lo, hi)
        invariant netMap == old(netMap) + nextNodeLayer && neurons == old(neurons) + added
        invariant added == Unmapped(keys, q, old(neurons))
      {
        nextNodeLayer, added := MapKey(inner, layer, lo, hi, keys, q, nextNodeLayer, added, old(netMap), old(neurons));
        q := q + 1;
      }
      assert keys[..q] == keys;
      UnmappedMembers(keys, q, old(neurons));
    }

    /** One pass of the loop of `MapTargets`: maps key `q` unless it is compiled, and extends the new
        entries and the neurons added since `map0` and `neurons0`. */
    method MapKey(ghost inner: seq<ConnectionGene>, ghost layer: seq<NodeMap>, ghost lo: int, ghost hi: int, keys: seq<int>, q: int,
                  nextNodeLayer: seq<NodeMap>, ghost added: seq<int>, ghost map0: seq<NodeMap>, ghost neurons0: seq<int>)
      returns (nextNodeLayer': seq<NodeMap>, ghost added': seq<int>)
      requires Numbered(inner) && ListsEmpty() && IsLayer(layer, lo, hi)
      requires (forall x :: x in keys ==> x in Distinct(TargetsOf(FromLayer(inner, layer)))) && NoDuplicates(keys)
      requires 0 <= q < |keys| && netMap == map0 + nextNodeLayer && neurons == neurons0 + added
      requires added == Unmapped(keys, q, neurons0)
      modifies this
      ensures Numbered(inner) && ListsEmpty() && IsLayer(layer, lo, hi)
      ensures netMap == map0 + nextNodeLayer' && neurons == neurons0 + added'
      ensures added' == Unmapped(keys, q + 1, neurons0)
    {
      var key := keys[q];
      UnmappedSnoc(keys, q, neurons0, added);
      var isNew := MapTarget(inner, layer, lo, hi, key);
      nextNodeLayer', added' := nextNodeLayer, added;
      if isNew {
        nextNodeLayer' := nextNodeLayer + [NodeMap(|netMap| - 1, key)];
        added' := added + [key];
      }
    }

    /** `GetNextLayerNodes`: maps, in order of first occurrence, every not yet compiled target of an inner
        connection leaving `prevLayerNodes`, and returns those new entries as the next layer. Closure
        outside the layer moves from the old layer to the new one. */
    method GetNextLayerNodes(prevLayerNodes: seq<NodeMap>, innerConnections: seq<ConnectionGene>, ghost lo: int, ghost hi: int)
      returns (nextNodeLayer: seq<NodeMap>)
      requires Numbered(innerConnections) && ListsEmpty() && IsLayer(prevLayerNodes, lo, hi)
      modifies this
      ensures Numbered(innerConnections) && ListsEmpty() && IsLayer(nextNodeLayer, |old(netMap)|, |netMap|)
      ensures netMap == old(netMap) + nextNodeLayer
      ensures var keys := Distinct(TargetsOf(FromLayer(innerConnections, prevLayerNodes)));
                neurons == old(neurons) + Unmapped(keys, |keys|, old(neurons))
      ensures old(ClosedOutside(genome, innerConnections, neurons, neurons[lo..hi])) ==>
                ClosedOutside(genome, innerConnections, neurons, neurons[|old(netMap)|..|netMap|])
    {
      ghost var before := neurons;
      var fromLayer := FromLayer(innerConnections, prevLayerNodes);
      var connectionNodes := Distinct(TargetsOf(fromLayer));
      DistinctFromProperties(TargetsOf(fromLayer), {});
      nextNodeLayer := MapTargets(innerConnections, prevLayerNodes, lo, hi, connectionNodes);
      ghost var added := Unmapped(connectionNodes, |connectionNodes|, before);
      assert nextNodeLayer == netMap[|old(netMap)|..|netMap|];
      assert added == neurons[|old(netMap)|..|netMap|];
      LayerNeurons(old(netMap), before, lo, hi);
      forall i | 0 <= i < |innerConnections| && innerConnections[i].sourceNodeIdx in before[lo..hi]
        ensures innerConnections[i].targetNodeIdx in neurons
      {
        LayerTargetListed(innerConnections, prevLayerNodes, i);
      }
      if ClosedOutside(genome, innerConnections, before, before[lo..hi]) {
        LayerStepClosed(genome, innerConnections, before, before[lo..hi], added);
      }
    }

    /** The `while (currentNodeLayer.Count > 0)` loop: maps, layer by layer, everything the inner
        connections reach from the bias and the inputs without passing through an output. */
    method MapReachable(innerConnections: seq<ConnectionGene>)
      requires Numbered(innerConnections) && ListsEmpty() && |netMap| == genome.FixedCount()
      modifies this
      ensures Numbered(innerConnections) && ListsEmpty() && ClosedOutside(genome, innerConnections, neurons, [])
      ensures neurons == Bfs(innerConnections, old(neurons), 0, BiasNodeCount + genome.inputNodeCount)
    {
      var currentNodeLayer := netMap[..BiasNodeCount + genome.inputNodeCount];
      ghost var lo, hi := 0, BiasNodeCount + genome.inputNodeCount;
      SearchStarts(innerConnections);
      while |currentNodeLayer| > 0
        invariant Searching(innerConnections, currentNodeLayer, lo, hi, old(neurons))
        decreases genome.FixedCount() + |TargetSet(innerConnections)| - |netMap|, |currentNodeLayer|
      {
        currentNodeLayer, lo, hi := NextLayerStep(currentNodeLayer, innerConnections, lo, hi, old(neurons));
      }
      SearchEnds(innerConnections, currentNodeLayer, lo, hi, old(neurons));
    }

    /** The search starts with the bias and the inputs as the current layer. */
    lemma SearchStarts(inner: seq<ConnectionGene>)
      requires Numbered(inner) && ListsEmpty() && |netMap| == genome.FixedCount()
      ensures Searching(inner, netMap[..BiasNodeCount + genome.inputNodeCount], 0, BiasNodeCount + genome.inputNodeCount, neurons)
    {
      var hi := BiasNodeCount + genome.inputNodeCount;
      FirstLayerClosed(genome, inner, neurons, parent);
      assert neurons[0..hi] == neurons[..hi];
      assert netMap[0..hi] == netMap[..hi];
    }

    /** An empty layer ends the search: closure holds everywhere and the numbering is the search's. */
    lemma SearchEnds(inner: seq<ConnectionGene>, layer: seq<NodeMap>, lo: int, hi: int, start: seq<int>)
      requires Searching(inner, layer, lo, hi, start) && |layer| == 0
      ensures Numbered(inner) && ListsEmpty() && ClosedOutside(genome, inner, neurons, [])
      ensures neurons == Bfs(inner, start, 0, BiasNodeCount + genome.inputNodeCount)
    {
      assert neurons[lo..hi] == [];
    }

    /** The state of the search loop: `layer` is the current layer, closure holds outside it, the search
        from it completes the search from `start`, and at most the inner targets follow the fixed block. */
    ghost predicate Searching(inner: seq<ConnectionGene>, layer: seq<NodeMap>, lo: int, hi: int, start: seq<int>)
      reads this
    {
      && Numbered(inner) && ListsEmpty() && IsLayer(layer, lo, hi)
      && ClosedOutside(genome, inner, neurons, neurons[lo..hi])
      && BiasNodeCount + genome.inputNodeCount <= |start|
      && Bfs(inner, neurons, lo, hi) == Bfs(inner, start, 0, BiasNodeCount + genome.inputNodeCount)
      && |netMap| <= genome.FixedCount() + |TargetSet(inner)|
    }

    /** One pass of the `while` loop: the next layer replaces the current one, and the search from it
        ends with the same numbering. */
    method NextLayerStep(currentNodeLayer: seq<NodeMap>, innerConnections: seq<ConnectionGene>, ghost lo: int, ghost hi: int,
                         ghost start: seq<int>)
      returns (nextNodeLayer: seq<NodeMap>, ghost lo': int, ghost hi': int)
      requires Searching(innerConnections, currentNodeLayer, lo, hi, start) && lo < hi
      modifies this
      ensures Searching(innerConnections, nextNodeLayer, lo', hi', start)
      ensures netMap == old(netMap) + nextNodeLayer
    {
      MirroredLayer(netMap, neurons, lo, hi);
      ghost var before := neurons;
      nextNodeLayer := GetNextLayerNodes(currentNodeLayer, innerConnections, lo, hi);
      BfsContinues(innerConnections, before, lo, hi, currentNodeLayer, neurons);
      HiddenBound(genome, innerConnections, neurons, parent);
      lo', hi' := |before|, |neurons|;
    }

    /** The `foreach (var innerConnection in innerConnections)` loop: appends to the list of the entry
        for each connection's source the connection with its target remapped to the target's compiled
        index, and fails at the first connection whose source is compiled and whose target is not. */
    method AddInnerConnections(innerConnections: seq<ConnectionGene>) returns (err: Option<BuildError>)
      requires Mirrors(netMap, neurons) && NoDuplicates(neurons) && |netLists| == |netMap| && ListsEmpty()
      modifies this`netLists
      ensures |netLists| == |netMap|
      ensures err.None? <==> TargetsResolved(innerConnections, neurons)
      ensures err.None? ==> netLists == InnerLists(neurons, innerConnections)
      ensures err.Some? ==>
                exists i :: 0 <= i < |innerConnections| && innerConnections[i].sourceNodeIdx in neurons
                  && innerConnections[i].targetNodeIdx !in neurons && err == Some(UnmappedTarget(innerConnections[i].targetNodeIdx))
    {
      InnerListsEmpty(netLists, neurons, innerConnections);
      var i := 0;
      while i < |innerConnections|
        invariant 0 <= i <= |innerConnections| && netLists == InnerLists(neurons, innerConnections[..i])
        invariant TargetsResolved(innerConnections[..i], neurons)
      {
        var innerConnection := innerConnections[i];
        var nodes := EntriesFor(netMap, innerConnection.sourceNodeIdx);
        EntriesForDistinct(netMap, neurons, innerConnection.sourceNodeIdx);
        ghost var lists := netLists;
        err := AddRemapped(nodes, innerConnection);
        if err.Some? {
          assert innerConnections[i].sourceNodeIdx in neurons;
          return;
        }
        EntriesAppended(netMap, neurons, lists, innerConnection.sourceNodeIdx,
          NetConnection(FirstIndex(neurons, innerConnection.targetNodeIdx), innerConnection.weight));
        InnerListsSnoc(neurons, innerConnections, i);
        TargetsResolvedSnoc(innerConnections, i, neurons);
        i := i + 1;
      }
      assert innerConnections[..i] == innerConnections;
      return None;
    }

    /** The `foreach (var node in nodes)` loop over the entries for an inner connection's source: each
        lookup of the target's entry fails when the target is not compiled. */
    method AddRemapped(nodes: seq<NodeMap>, innerConnection: ConnectionGene) returns (err: Option<BuildError>)
      requires Mirrors(netMap, neurons) && NoDuplicates(neurons) && |netLists| == |netMap|
      modifies this`netLists
      ensures |netLists| == |netMap|
      ensures err.None? ==> (|nodes| > 0 ==> innerConnection.targetNodeIdx in neurons)
      ensures err.None? ==>
                netLists == AppendToEntries(old(netLists), nodes,
                  NetConnection(FirstIndex(neurons, innerConnection.targetNodeIdx), innerConnection.weight))
      ensures err.Some? ==>
                |nodes| > 0 && innerConnection.targetNodeIdx !in neurons && err == Some(UnmappedTarget(innerConnection.targetNodeIdx))
    {
      EntryIndex(netMap, neurons, innerConnection.targetNodeIdx);
      ghost var added := NetConnection(FirstIndex(neurons, innerConnection.targetNodeIdx), innerConnection.weight);
      var j := 0;
      while j < |nodes|
        invariant 0 <= j <= |nodes| && netLists == AppendToEntries(old(netLists), nodes[..j], added)
        invariant 0 < j ==> innerConnection.targetNodeIdx in neurons
      {
        var node := nodes[j];
        var target := FindEntry(netMap, innerConnection.targetNodeIdx);
        if target.None? {
          return Some(UnmappedTarget(innerConnection.targetNodeIdx));
        }
        assert nodes[..j + 1][..j] == nodes[..j];
        if 0 <= node.netNodeId < |netLists| {
          netLists := netLists[node.netNodeId := netLists[node.netNodeId] + [NetConnection(target.value.netNodeId, innerConnection.weight)]];
        }
        j := j + 1;
      }
      assert nodes[..j] == nodes;
      return None;
    }

    /** The `foreach (var outputConnection in outputConnections)` loop: appends each connection, with its
        genome target index, to the list of the entry for its source. */
    method AddOutputConnections(outputConnections: seq<ConnectionGene>)
      requires Mirrors(netMap, neurons) && NoDuplicates(neurons) && |netLists| == |netMap|
      modifies this`netLists
      ensures netLists == OutputLists(old(netLists), neurons, outputConnections)
    {
      OutputListsEmpty(netLists, neurons, outputConnections);
      var i := 0;
      while i < |outputConnections|
        invariant 0 <= i <= |outputConnections| && netLists == OutputLists(old(netLists), neurons, outputConnections[..i])
      {
        var outputConnection := outputConnections[i];
        var nodes := EntriesFor(netMap, outputConnection.sourceNodeIdx);
        ghost var lists := netLists;
        AddDirect(nodes, outputConnection);
        EntriesAppended(netMap, neurons, lists, outputConnection.sourceNodeIdx,
          NetConnection(outputConnection.targetNodeIdx, outputConnection.weight));
        OutputListsSnoc(old(netLists), neurons, outputConnections, i);
        i := i + 1;
      }
      assert outputConnections[..i] == outputConnections;
    }

    /** The `foreach (var node in nodes)` loop over the entries for an output connection's source. */
    method AddDirect(nodes: seq<NodeMap>, outputConnection: ConnectionGene)
      modifies this`netLists
      ensures netLists == AppendToEntries(old(netLists), nodes, NetConnection(outputConnection.targetNodeIdx, outputConnection.weight))
    {
      var j := 0;
      while j < |nodes|
        invariant 0 <= j <= |nodes|
        invariant netLists == AppendToEntries(old(netLists), nodes[..j], NetConnection(outputConnection.targetNodeIdx, outputConnection.weight))
      {
        var node := nodes[j];
        assert nodes[..j + 1][..j] == nodes[..j];
        if 0 <= node.netNodeId < |netLists| {
          netLists := netLists[node.netNodeId := netLists[node.netNodeId] + [NetConnection(outputConnection.targetNodeIdx, outputConnection.weight)]];
        }
        j := j + 1;
      }
      assert nodes[..j] == nodes;
    }

    /** `GetNetworkNodes`: the activation of each entry's node gene, in map order, or the exception
        `First` throws for the first entry whose neuron has no node gene. */
    method GetNetworkNodes() returns (r: Result<seq<ActivationType>, BuildError>)
      ensures r.Success? <==> forall k :: 0 <= k < |netMap| ==> HasIdx(genome.nodeList, netMap[k].neuronId)
      ensures r.Success? ==>
                |r.value| == |netMap| && forall k :: 0 <= k < |netMap| ==>
                  FindNode(genome.nodeList, netMap[k].neuronId).Some?
                  && r.value[k] == ActivationOf(FindNode(genome.nodeList, netMap[k].neuronId).value)
      ensures r.Failure? ==>
                exists k :: 0 <= k < |netMap| && !HasIdx(genome.nodeList, netMap[k].neuronId)
                  && r.error == MissingNodeGene(netMap[k].neuronId)
    {
      var netNodes := new ActivationType[|netMap|];
      var index := 0;
      while index < |netMap|
        invariant 0 <= index <= |netMap|
        invariant forall k :: 0 <= k < index ==>
                    FindNode(genome.nodeList, netMap[k].neuronId).Some?
                    && netNodes[k] == ActivationOf(FindNode(genome.nodeList, netMap[k].neuronId).value)
      {
        var nodeMap := netMap[index];
        var genomeNode := FindNode(genome.nodeList, nodeMap.neuronId);
        if genomeNode.None? {
          return Failure(MissingNodeGene(nodeMap.neuronId));
        }
        netNodes[index] := ActivationOf(genomeNode.value);
        index := index + 1;
      }
      return Success(netNodes[..]);
    }

    /** `GetNetworkConnections`: the outgoing list of each entry, stored at the entry's compiled index. */
    method GetNetworkConnections() returns (connections: seq<seq<NetConnection>>)
      requires Mirrors(netMap, neurons) && |netLists| == |netMap|
      ensures |connections| == |netMap| && forall k :: 0 <= k < |netMap| ==> connections[netMap[k].netNodeId] == netLists[k]
    {
      var netNodeConnections := new seq<NetConnection>[|netMap|];
      var k := 0;
      while k < |netMap|
        invariant 0 <= k <= |netMap|
        invariant forall k' :: 0 <= k' < k ==> netNodeConnections[netMap[k'].netNodeId] == netLists[k']
      {
        netNodeConnections[netMap[k].netNodeId] := netLists[k];
        k := k + 1;
      }
      return netNodeConnections[..];
    }

    /** The state the constructor leaves. */
    ghost predicate Fresh()
      reads this
    {
      && genome.inputNodeCount >= 0 && genome.outputNodeCount >= 0
      && netMap == [] && netLists == [] && neurons == [] && parent == [] && nextNetNodeId == genome.FixedCount()
    }

    /** The state after the bias, the inputs and the outputs are mapped. */
    ghost predicate FixedMapped()
      reads this
    {
      && genome.inputNodeCount >= 0 && genome.outputNodeCount >= 0
      && |netMap| == |netLists| == |parent| == genome.FixedCount() && Mirrors(netMap, neurons)
      && nextNetNodeId == genome.FixedCount() && ListsEmpty()
      && forall k :: 0 <= k < |neurons| ==> neurons[k] == k
    }

    /** The first two loops of `BuildNetwork`: maps the bias, the inputs and the outputs, each at its own
        index, and returns the entries of the outputs. */
    method MapFixedNodes() returns (outputNodeLayer: seq<NodeMap>)
      requires Fresh()
      modifies this
      ensures FixedMapped() && outputNodeLayer == OutputLayer(genome)
    {
      var first := BiasNodeCount + genome.inputNodeCount;
      // Bias & Inputs
      var i := 0;
      while i < first
        invariant 0 <= i <= first && |netMap| == |netLists| == |parent| == i && Mirrors(netMap, neurons)
        invariant nextNetNodeId == genome.FixedCount() && ListsEmpty()
        invariant forall k :: 0 <= k < i ==> neurons[k] == k
      {
        netMap := netMap + [NodeMap(i, i)];
        netLists := netLists + [[]];
        neurons := neurons + [i];
        parent := parent + [0];
        i := i + 1;
      }
      // Outputs
      outputNodeLayer := [];
      i := first;
      while i < genome.FixedCount()
        invariant first <= i <= genome.FixedCount() && |netMap| == |netLists| == |parent| == i && Mirrors(netMap, neurons)
        invariant nextNetNodeId == genome.FixedCount() && ListsEmpty()
        invariant forall k :: 0 <= k < i ==> neurons[k] == k
        invariant outputNodeLayer == OutputLayer(genome)[..i - first]
      {
        var nodeMap := NodeMap(i, i);
        netMap := netMap + [nodeMap];
        netLists := netLists + [[]];
        neurons := neurons + [i];
        parent := parent + [0];
        outputNodeLayer := outputNodeLayer + [nodeMap];
        i := i + 1;
      }
      assert outputNodeLayer == OutputLayer(genome);
    }

    /** The middle of `BuildNetwork`: splits the active connections at the outputs, maps the hidden
        neurons the inner connections reach, and fills the outgoing lists, or fails on an inner
        connection from a compiled neuron to one that is not compiled. */
    method ConnectNodes(activeConnections: seq<ConnectionGene>, outputNodeLayer: seq<NodeMap>)
      returns (err: Option<BuildError>)
      requires activeConnections == Active(genome.connections) && outputNodeLayer == OutputLayer(genome)
      requires FixedMapped()
      modifies this
      ensures err.Some? ==> FailureExplained(genome, err.value) && !Compilable(genome)
      ensures err.None? ==>
                && Numbered(InnerOf(genome)) && ClosedOutside(genome, InnerOf(genome), neurons, [])
                && TargetsResolved(InnerOf(genome), neurons)
                && netLists == OutputLists(InnerLists(neurons, InnerOf(genome)), neurons, OutputsOf(genome))
      ensures neurons == BfsNumbering(genome)
    {
      var innerConnections := GetInnerConnections(activeConnections, outputNodeLayer);
      FixedBlockMapped(genome, innerConnections, neurons, parent);
      assert neurons == FixedBlock(genome);
      if |innerConnections| > 0 {
        MapReachable(innerConnections);
        err := AddInnerConnections(innerConnections);
        if err.Some? {
          ghost var w :| 0 <= w < |innerConnections| && innerConnections[w].sourceNodeIdx in neurons
                  && innerConnections[w].targetNodeIdx !in neurons && err == Some(UnmappedTarget(innerConnections[w].targetNodeIdx));
          UnmappedExplained(genome, neurons, w);
          return;
        }
      } else {
        InnerListsEmpty(netLists, neurons, innerConnections);
        BfsWithoutInner(genome);
      }
      var outputConnections := GetOutputConnections(activeConnections, outputNodeLayer);
      AddOutputConnections(outputConnections);
      return None;
    }

    /** `BuildNetwork`: maps the bias, the inputs and the outputs, then the hidden neurons reachable
        through inner connections, fills the outgoing lists and assembles the network. It succeeds on
        every compilable genome, with a compilation of the genome, and otherwise fails for a reason the
        genome exhibits. */
    method BuildNetwork() returns (r: Result<CompiledNetwork, BuildError>)
      requires Fresh()
      modifies this
      ensures r.Success? ==> IsCompilationOf(genome, r.value) && CompiledWith(genome, BfsNumbering(genome), r.value)
      ensures r.Failure? ==> FailureExplained(genome, r.error)
      ensures r.Success? ==> forall e :: !FailureExplained(genome, e)
      ensures Compilable(genome) ==> r.Success?
    {
      var activeConnections := Active(genome.connections);
      var outputNodeLayer := MapFixedNodes();
      var err := ConnectNodes(activeConnections, outputNodeLayer);
      if err.Some? {
        return Failure(err.value);
      }
      var networkNodes := GetNetworkNodes();
      if networkNodes.Failure? {
        ghost var w :| 0 <= w < |netMap| && !HasIdx(genome.nodeList, netMap[w].neuronId) && networkNodes.error == MissingNodeGene(netMap[w].neuronId);
        MissingExplained(genome, neurons, parent, w);
        return Failure(networkNodes.error);
      }
      var networkConnections := GetNetworkConnections();
      NumberedIsNumbering(InnerOf(genome));
      r := Success(CompiledNetwork(genome.inputNodeCount, genome.outputNodeCount, networkNodes.value, networkConnections));
      AssembledIsCompilation(genome, neurons, networkNodes.value, networkConnections, InnerLists(neurons, InnerOf(genome)));
      BuiltUnexplained(genome, r.value);
    }
  }
}
