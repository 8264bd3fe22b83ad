/**
 * `NeatGenome.Crossover` as a value: the child of two genomes is the ordered union of their nodes and of
 * their id lists, each gene taken from the first parent that has it, and the ordered union of their
 * vacant links less those a child gene realises. The child of two coherent genomes on the same registry
 * is coherent.
 */
module GenomeCrossover {
  import opened Wrappers
  import opened Sequences
  import opened GenomeTypes
  import opened NetworkConfig
  import opened Innovations
  import opened GenomeValues

  /** The `ArgumentOutOfRangeException` thrown when neither parent has a gene for an id of the union. */
  datatype CrossoverError = ParentsLackChildConnection

  /** The gene the child copies for `id`: the first parent's if it has one, else the second's. */
  function ParentGene(id: int, c1: map<int, ConnectionGene>, c2: map<int, ConnectionGene>): Option<ConnectionGene> {
    if id in c1 then Some(c1[id]) else if id in c2 then Some(c2[id]) else None
  }

  /** The child's dictionary, built along the union `ids` in order; it fails at an id neither parent has. */
  function ChildGenes(ids: seq<int>, c1: map<int, ConnectionGene>, c2: map<int, ConnectionGene>)
    : (r: Result<map<int, ConnectionGene>, CrossoverError>)
    ensures r.Success? <==> forall k :: 0 <= k < |ids| ==> ids[k] in c1 || ids[k] in c2
    ensures r.Success? ==> forall id :: id in r.value <==> id in ids
    ensures r.Success? ==> forall k :: 0 <= k < |ids| ==> ids[k] in r.value
    ensures r.Success? ==> forall id :: id in r.value ==> ParentGene(id, c1, c2) == Some(r.value[id])
    decreases |ids|
  {
    if ids == [] then Success(map[])
    else
      var prefix, id := ids[..|ids| - 1], ids[|ids| - 1];
      assert ids == prefix + [id];
      match ChildGenes(prefix, c1, c2)
      case Failure(e) => Failure(e)
      case Success(genes) =>
        match ParentGene(id, c1, c2)
        case None => Failure(ParentsLackChildConnection)
        case Some(gene) => Success(genes[id := gene])
  }

  /** The child's dictionary is the only map keyed by exactly the ids whose every gene is its parent gene. */
  lemma ChildGenesUnique(ids: seq<int>, c1: map<int, ConnectionGene>, c2: map<int, ConnectionGene>,
                         m: map<int, ConnectionGene>)
    requires (forall k :: 0 <= k < |ids| ==> ids[k] in m) && forall id :: id in m ==> id in ids
    requires forall id :: id in m ==> ParentGene(id, c1, c2) == Some(m[id])
    ensures ChildGenes(ids, c1, c2) == Success(m)
  {
    forall k | 0 <= k < |ids| ensures ids[k] in c1 || ids[k] in c2 {
      assert ParentGene(ids[k], c1, c2) == Some(m[ids[k]]);
    }
    var r := ChildGenes(ids, c1, c2).value;
    forall id | id in r ensures id in m {
      var k :| 0 <= k < |ids| && ids[k] == id;
    }
    forall id | id in m ensures id in r {
      var k :| 0 <= k < |ids| && ids[k] == id;
    }
    assert r.Keys == m.Keys;
    forall id | id in r ensures r[id] == m[id] {
      assert ParentGene(id, c1, c2) == Some(r[id]) == Some(m[id]);
    }
    assert r == m;
  }

  /** LINQ `FirstOrDefault` over the genes: the first one that realises the link, if any. */
  function FirstRealising(genes: seq<ConnectionGene>, l: Link): (r: Option<ConnectionGene>)
    ensures r.None? <==> forall k :: 0 <= k < |genes| ==> LinkOf(genes[k]) != l
    ensures r.Some? ==> r.value in genes && LinkOf(r.value) == l
    decreases |genes|
  {
    if genes == [] then None
    else if LinkOf(genes[0]) == l then Some(genes[0])
    else
      assert forall k :: 0 < k < |genes| ==> genes[k] == genes[1..][k - 1];
      FirstRealising(genes[1..], l)
  }

  /** The links of `links`, in order, that no gene of `genes` realises. */
  function KeptVacant(links: seq<Link>, genes: seq<ConnectionGene>): (r: seq<Link>)
    ensures forall l :: l in r <==> l in links && FirstRealising(genes, l).None?
    decreases |links|
  {
    if links == [] then []
    else
      var prefix, l := links[..|links| - 1], links[|links| - 1];
      assert links == prefix + [l];
      var rest := KeptVacant(prefix, genes);
      if FirstRealising(genes, l).None? then rest + [l] else rest
  }

  /** Filtering keeps a list free of duplicates. */
  lemma {:induction false} KeptVacantNoDuplicates(links: seq<Link>, genes: seq<ConnectionGene>)
    requires NoDuplicates(links)
    ensures NoDuplicates(KeptVacant(links, genes))
    decreases |links|
  {
    if links != [] {
      var prefix, l := links[..|links| - 1], links[|links| - 1];
      assert links == prefix + [l];
      assert NoDuplicates(prefix) by {
        forall i, j | 0 <= i < j < |prefix| ensures prefix[i] != prefix[j] {
          assert prefix[i] == links[i] && prefix[j] == links[j];
        }
      }
      KeptVacantNoDuplicates(prefix, genes);
      var rest := KeptVacant(prefix, genes);
      if FirstRealising(genes, l).None? {
        assert l !in prefix by {
          forall k | 0 <= k < |prefix| ensures prefix[k] != l {
            assert prefix[k] == links[k];
          }
        }
        NoDuplicatesAppend(rest, [l]);
      }
    }
  }

  /** `Crossover`: the child has the first parent's counts, the union of the node lists, the union of the
      id lists with each gene from `ParentGene`, and the union of the vacant lists less every link a child
      gene realises, checked against the child's genes in dictionary order. */
  function CrossoverOf(g1: Genome, g2: Genome): Result<Genome, CrossoverError> {
    var ids := Union(g1.connectionList, g2.connectionList);
    match ChildGenes(ids, g1.connections, g2.connections)
    case Failure(e) => Failure(e)
    case Success(genes) =>
      Success(Genome(g1.inputNodeCount, g1.outputNodeCount, Union(g1.nodeList, g2.nodeList), ids, genes,
                     KeptVacant(Union(g1.vacantConnections, g2.vacantConnections), DictionaryValues(ids, genes))))
  }

  /** The child `CrossoverOf` builds, from the unions and the child's dictionary. */
  lemma CrossoverOfParts(g1: Genome, g2: Genome, genes: map<int, ConnectionGene>)
    requires ChildGenes(Union(g1.connectionList, g2.connectionList), g1.connections, g2.connections) == Success(genes)
    ensures CrossoverOf(g1, g2) == Success(Genome(g1.inputNodeCount, g1.outputNodeCount,
      Union(g1.nodeList, g2.nodeList), Union(g1.connectionList, g2.connectionList), genes,
      KeptVacant(Union(g1.vacantConnections, g2.vacantConnections),
                 DictionaryValues(Union(g1.connectionList, g2.connectionList), genes))))
  {
  }

  // ---------------------------------------------------------------------------------------------
  // What the child is.
  // ---------------------------------------------------------------------------------------------

  /** Crossover fails exactly when some id of either parent's list is a key of neither dictionary. */
  lemma CrossoverFailsExactly(g1: Genome, g2: Genome)
    ensures CrossoverOf(g1, g2).Failure? <==>
      exists id :: (id in g1.connectionList || id in g2.connectionList) && id !in g1.connections && id !in g2.connections
  {
    var ids := Union(g1.connectionList, g2.connectionList);
    var r := ChildGenes(ids, g1.connections, g2.connections);
    assert CrossoverOf(g1, g2).Failure? <==> r.Failure?;
    UnionProperties(g1.connectionList, g2.connectionList);
    if r.Failure? {
      var k :| 0 <= k < |ids| && ids[k] !in g1.connections && ids[k] !in g2.connections;
      var id := ids[k];
      assert id in Elems(ids);
      assert id in Elems(g1.connectionList) || id in Elems(g2.connectionList);
      assert (id in g1.connectionList || id in g2.connectionList) && id !in g1.connections && id !in g2.connections;
    } else {
      forall id | id in g1.connectionList || id in g2.connectionList
        ensures id in g1.connections || id in g2.connections
      {
        assert id in Elems(g1.connectionList) || id in Elems(g2.connectionList);
        assert id in Elems(ids);
        var k :| 0 <= k < |ids| && ids[k] == id;
      }
    }
  }

  /** Parents that keep the list/key invariant always have a child. */
  lemma CrossoverOfKeyedSucceeds(g1: Genome, g2: Genome)
    requires ListKeyInvariant(g1) && ListKeyInvariant(g2)
    ensures CrossoverOf(g1, g2).Success?
  {
    CrossoverFailsExactly(g1, g2);
  }

  /** The child's lists: the first parent's distinct nodes in order, then the second's not seen before,
      and likewise the ids, whose set is the union whichever parent comes first. */
  lemma CrossoverChildLists(g1: Genome, g2: Genome)
    requires CrossoverOf(g1, g2).Success?
    ensures var child := CrossoverOf(g1, g2).value;
      && child.inputNodeCount == g1.inputNodeCount && child.outputNodeCount == g1.outputNodeCount
      && child.nodeList == Distinct(g1.nodeList) + DistinctFrom(g2.nodeList, Elems(g1.nodeList))
      && NoDuplicates(child.nodeList) && Elems(child.nodeList) == Elems(g1.nodeList) + Elems(g2.nodeList)
      && child.connectionList == Distinct(g1.connectionList) + DistinctFrom(g2.connectionList, Elems(g1.connectionList))
      && NoDuplicates(child.connectionList)
      && Elems(child.connectionList) == Elems(g1.connectionList) + Elems(g2.connectionList)
      && Elems(child.connectionList) == Elems(Union(g2.connectionList, g1.connectionList))
  {
    UnionProperties(g1.nodeList, g2.nodeList);
    UnionProperties(g1.connectionList, g2.connectionList);
  }

  /** The child holds a gene for each id of its list and no other, the first parent's when it has the id
      and the second's otherwise. */
  lemma CrossoverChildGenes(g1: Genome, g2: Genome)
    requires CrossoverOf(g1, g2).Success?
    ensures var child := CrossoverOf(g1, g2).value;
      && (forall id :: id in child.connections <==> id in child.connectionList)
      && (forall id :: id in child.connections ==>
            child.connections[id] == if id in g1.connections then g1.connections[id] else g2.connections[id])
  {
    var child := CrossoverOf(g1, g2).value;
    forall id | id in child.connections
      ensures child.connections[id] == if id in g1.connections then g1.connections[id] else g2.connections[id]
    {
      assert ParentGene(id, g1.connections, g2.connections) == Some(child.connections[id]);
    }
  }

  /** Filtering against the dictionary's values in enumeration order drops exactly the links some gene
      of the dictionary realises. */
  lemma KeptVacantOfDictionary(links: seq<Link>, ids: seq<int>, genes: map<int, ConnectionGene>)
    requires forall k :: 0 <= k < |ids| ==> ids[k] in genes
    requires forall id :: id in genes ==> id in ids
    ensures forall l :: l in KeptVacant(links, DictionaryValues(ids, genes)) <==>
      l in links && forall id :: id in genes ==> LinkOf(genes[id]) != l
  {
    var values := DictionaryValues(ids, genes);
    forall l | l in links
      ensures FirstRealising(values, l).None? <==> forall id :: id in genes ==> LinkOf(genes[id]) != l
    {
      if FirstRealising(values, l).None? {
        forall id | id in genes ensures LinkOf(genes[id]) != l {
          var k :| 0 <= k < |ids| && ids[k] == id;
          assert values[k] == genes[id];
          assert LinkOf(values[k]) != l;
        }
      } else {
        var k :| 0 <= k < |values| && LinkOf(values[k]) == l;
        var id0 := ids[k];
        assert id0 in genes && genes[id0] == values[k];
        assert LinkOf(genes[id0]) == l;
      }
    }
  }

  /** The child's vacant links are those of either parent that no child gene realises, once each. */
  lemma CrossoverChildVacant(g1: Genome, g2: Genome)
    requires CrossoverOf(g1, g2).Success?
    ensures var child := CrossoverOf(g1, g2).value;
      && NoDuplicates(child.vacantConnections)
      && (forall l :: l in child.vacantConnections <==>
            (l in g1.vacantConnections || l in g2.vacantConnections)
            && forall id :: id in child.connections ==> LinkOf(child.connections[id]) != l)
  {
    var child := CrossoverOf(g1, g2).value;
    var links := Union(g1.vacantConnections, g2.vacantConnections);
    UnionProperties(g1.vacantConnections, g2.vacantConnections);
    KeptVacantNoDuplicates(links, DictionaryValues(child.connectionList, child.connections));
    KeptVacantOfDictionary(links, child.connectionList, child.connections);
    forall l ensures l in links <==> l in g1.vacantConnections || l in g2.vacantConnections {
      assert l in links <==> l in Elems(links);
      assert l in Elems(links) <==> l in Elems(g1.vacantConnections) || l in Elems(g2.vacantConnections);
    }
  }

  // ---------------------------------------------------------------------------------------------
  // The child of coherent parents is coherent.
  // ---------------------------------------------------------------------------------------------

  /** An index of a node of either parent is an index of a node of the child. */
  lemma UnionHasIdx(a: seq<NodeGene>, b: seq<NodeGene>, i: int)
    requires HasIdx(a, i) || HasIdx(b, i)
    ensures HasIdx(Union(a, b), i)
  {
    UnionProperties(a, b);
    var u := Union(a, b);
    var x: NodeGene;
    if HasIdx(a, i) {
      var k :| 0 <= k < |a| && a[k].idx == i;
      x := a[k];
    } else {
      var k :| 0 <= k < |b| && b[k].idx == i;
      x := b[k];
    }
    assert x in Elems(u);
    var k :| 0 <= k < |u| && u[k] == x;
  }

  /** Nodes the layout fixes by their index are told apart by their index once duplicates are gone. */
  lemma LaidOutUnionDistinct(a: seq<NodeGene>, b: seq<NodeGene>, inputCount: int, outputCount: int)
    requires forall k :: 0 <= k < |a| ==> a[k] == LayoutNode(inputCount, outputCount, a[k].idx)
    requires forall k :: 0 <= k < |b| ==> b[k] == LayoutNode(inputCount, outputCount, b[k].idx)
    ensures DistinctIdxs(Union(a, b))
    ensures forall k :: 0 <= k < |Union(a, b)| ==>
      Union(a, b)[k] == LayoutNode(inputCount, outputCount, Union(a, b)[k].idx)
  {
    UnionProperties(a, b);
    var u := Union(a, b);
    forall k | 0 <= k < |u| ensures u[k] in a || u[k] in b {
      assert u[k] in Elems(u);
    }
  }

  lemma ChildKeyed(g1: Genome, g2: Genome)
    requires ListKeyInvariant(g1) && ListKeyInvariant(g2) && CrossoverOf(g1, g2).Success?
    ensures ListKeyInvariant(CrossoverOf(g1, g2).value)
  {
    CrossoverChildLists(g1, g2);
    CrossoverChildGenes(g1, g2);
  }

  lemma ChildRegistered(g1: Genome, g2: Genome, t: TrackerState)
    requires Registered(g1, t) && Registered(g2, t) && CrossoverOf(g1, g2).Success?
    ensures Registered(CrossoverOf(g1, g2).value, t)
  {
    CrossoverChildGenes(g1, g2);
  }

  lemma ChildLaidOut(g1: Genome, g2: Genome)
    requires NodesLaidOut(g1) && NodesLaidOut(g2) && CrossoverOf(g1, g2).Success?
    requires g1.inputNodeCount == g2.inputNodeCount && g1.outputNodeCount == g2.outputNodeCount
    ensures NodesLaidOut(CrossoverOf(g1, g2).value)
  {
    var child := CrossoverOf(g1, g2).value;
    LaidOutUnionDistinct(g1.nodeList, g2.nodeList, g1.inputNodeCount, g1.outputNodeCount);
    UnionProperties(g1.nodeList, g2.nodeList);
    forall k | 0 <= k < |child.nodeList| ensures 0 <= child.nodeList[k].idx {
      assert child.nodeList[k] in Elems(child.nodeList);
    }
  }

  lemma ChildEndpoints(g1: Genome, g2: Genome)
    requires EndpointsKnown(g1) && EndpointsKnown(g2) && CrossoverOf(g1, g2).Success?
    ensures EndpointsKnown(CrossoverOf(g1, g2).value)
  {
    var child := CrossoverOf(g1, g2).value;
    CrossoverChildGenes(g1, g2);
    CrossoverChildVacant(g1, g2);
    forall id | id in child.connections
      ensures HasIdx(child.nodeList, child.connections[id].sourceNodeIdx)
      ensures HasIdx(child.nodeList, child.connections[id].targetNodeIdx)
    {
      UnionHasIdx(g1.nodeList, g2.nodeList, child.connections[id].sourceNodeIdx);
      UnionHasIdx(g1.nodeList, g2.nodeList, child.connections[id].targetNodeIdx);
    }
    forall v | v in child.vacantConnections ensures HasIdx(child.nodeList, v.0) && HasIdx(child.nodeList, v.1) {
      UnionHasIdx(g1.nodeList, g2.nodeList, v.0);
      UnionHasIdx(g1.nodeList, g2.nodeList, v.1);
    }
  }

  lemma ChildWithin(g1: Genome, g2: Genome, t: TrackerState)
    requires WithinRegistry(g1, t) && WithinRegistry(g2, t) && CrossoverOf(g1, g2).Success?
    ensures WithinRegistry(CrossoverOf(g1, g2).value, t)
  {
    var child := CrossoverOf(g1, g2).value;
    UnionProperties(g1.nodeList, g2.nodeList);
    forall k | 0 <= k < |child.nodeList| ensures child.nodeList[k].idx <= t.nextNeuronNumber {
      assert child.nodeList[k] in Elems(child.nodeList);
    }
  }

  lemma ChildSplittable(g1: Genome, g2: Genome)
    requires SplitCandidates(g1.connectionList, g1.connections) != [] && CrossoverOf(g1, g2).Success?
    ensures SplitCandidates(CrossoverOf(g1, g2).value.connectionList, CrossoverOf(g1, g2).value.connections) != []
  {
    var child := CrossoverOf(g1, g2).value;
    CrossoverChildLists(g1, g2);
    CrossoverChildGenes(g1, g2);
    var c0 := SplitCandidates(g1.connectionList, g1.connections)[0];
    assert c0 in Elems(g1.connectionList);
    assert c0 in SplitCandidates(child.connectionList, child.connections);
  }

  /** The child of two coherent genomes with the same counts on the same registry is coherent. */
  lemma CrossoverKeepsCoherent(g1: Genome, g2: Genome, t: TrackerState)
    requires Coherent(g1, t) && Coherent(g2, t)
    requires g1.inputNodeCount == g2.inputNodeCount && g1.outputNodeCount == g2.outputNodeCount
    ensures CrossoverOf(g1, g2).Success? && Coherent(CrossoverOf(g1, g2).value, t)
  {
    CrossoverOfKeyedSucceeds(g1, g2);
    CrossoverChildVacant(g1, g2);
    ChildKeyed(g1, g2);
    ChildRegistered(g1, g2, t);
    ChildLaidOut(g1, g2);
    ChildEndpoints(g1, g2);
    ChildWithin(g1, g2, t);
    ChildSplittable(g1, g2);
    ChildReady(g1, g2);
  }

  lemma ChildReady(g1: Genome, g2: Genome)
    requires BuildReady(g1) && BuildReady(g2) && CrossoverOf(g1, g2).Success?
    requires g1.inputNodeCount == g2.inputNodeCount && g1.outputNodeCount == g2.outputNodeCount
    ensures BuildReady(CrossoverOf(g1, g2).value)
  {
    var child := CrossoverOf(g1, g2).value;
    CrossoverChildGenes(g1, g2);
    CrossoverChildVacant(g1, g2);
    forall idx | 0 <= idx < BiasNodeCount + g1.inputNodeCount + g1.outputNodeCount
      ensures HasIdx(child.nodeList, idx)
    {
      UnionHasIdx(g1.nodeList, g2.nodeList, idx);
    }
  }
}
