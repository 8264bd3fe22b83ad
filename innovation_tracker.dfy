/**
 * `InnovationTracker`: the registry that gives every (source, target) link one connection id for the
 * whole run, and remembers which midpoint neurons have split each link.
 */
module Innovations {
  import opened GenomeTypes
  import opened NetworkConfig

  type Link = (int, int)

  /** The connection id the constructor gives the link from input `i` to output `j`: the links are
      numbered from 1, input by input, and for each input output by output. */
  function SeedId(inputCount: int, outputCount: int, i: int, j: int): int {
    (i - BiasNodeCount) * outputCount + (j - inputCount - BiasNodeCount) + 1
  }

  /** The links the constructor records: every input `1..N` to every output `N+1..N+M`. */
  predicate IsSeedLink(inputCount: int, outputCount: int, l: Link) {
    BiasNodeCount <= l.0 < BiasNodeCount + inputCount
    && inputCount + BiasNodeCount <= l.1 <= inputCount + outputCount
  }

  /** Row-major numbering keeps the order of rows: an earlier row numbers every column lower. */
  lemma RowMajorOrdered(row: int, column: int, row': int, column': int, width: int)
    requires row < row' && 0 <= column < width && 0 <= column'
    ensures row * width + column < row' * width + column'
  {
    MultiplyMonotone(row + 1, row', width);
    assert (row + 1) * width == row * width + width;
  }

  lemma MultiplyMonotone(a: int, b: int, width: int)
    requires a <= b && 0 <= width
    ensures a * width <= b * width
  {
    assert b * width - a * width == (b - a) * width;
  }

  /** The seed ids lie in `1..N*M` and no two seed links share one. */
  lemma SeedIdsAreDistinct(inputCount: int, outputCount: int, l: Link, l': Link)
    requires IsSeedLink(inputCount, outputCount, l) && IsSeedLink(inputCount, outputCount, l')
    ensures 1 <= SeedId(inputCount, outputCount, l.0, l.1) <= inputCount * outputCount
    ensures l != l' ==> SeedId(inputCount, outputCount, l.0, l.1) != SeedId(inputCount, outputCount, l'.0, l'.1)
  {
    var row, column := l.0 - BiasNodeCount, l.1 - inputCount - BiasNodeCount;
    var row', column' := l'.0 - BiasNodeCount, l'.1 - inputCount - BiasNodeCount;
    assert SeedId(inputCount, outputCount, l.0, l.1) == row * outputCount + column + 1;
    assert SeedId(inputCount, outputCount, l'.0, l'.1) == row' * outputCount + column' + 1;
    MultiplyMonotone(row, inputCount - 1, outputCount);
    assert (inputCount - 1) * outputCount + outputCount == inputCount * outputCount;
    MultiplyMonotone(0, row, outputCount);
    if row < row' {
      RowMajorOrdered(row, column, row', column', outputCount);
    } else if row' < row {
      RowMajorOrdered(row', column', row, column, outputCount);
    }
  }

  /** The two maps and the two counters, as one value. */
  datatype TrackerState = TrackerState(
    innovations: map<Link, int>, splitConnections: map<Link, seq<int>>,
    nextConnectionNumber: int, nextNeuronNumber: int, linkOf: map<int, Link>)

  /** `after` only adds to `before`: recorded ids stay, split lists only grow at their end, counters
      never go down. */
  ghost predicate Grows(before: TrackerState, after: TrackerState) {
    && (forall l :: l in before.innovations ==> l in after.innovations && after.innovations[l] == before.innovations[l])
    && (forall l :: l in before.splitConnections ==>
          l in after.splitConnections && before.splitConnections[l] <= after.splitConnections[l])
    && before.nextConnectionNumber <= after.nextConnectionNumber
    && before.nextNeuronNumber <= after.nextNeuronNumber
  }

  /** Growth composes. */
  lemma GrowsTransitive(t: TrackerState, t': TrackerState, t'': TrackerState)
    requires Grows(t, t') && Grows(t', t'')
    ensures Grows(t, t'')
  {
  }

  /** The registry invariant: ids are `1..nextConnectionNumber` and each was given to one link only
      (`linkOf` is the ghost inverse); every recorded midpoint of a link is a neuron already numbered, and
      both halves of its split are recorded. */
  ghost predicate ValidState(t: TrackerState) {
    && 0 <= t.nextConnectionNumber && 0 <= t.nextNeuronNumber
    && (forall l :: l in t.innovations ==>
          1 <= t.innovations[l] <= t.nextConnectionNumber
          && t.innovations[l] in t.linkOf && t.linkOf[t.innovations[l]] == l)
    && (forall l, k :: l in t.splitConnections && 0 <= k < |t.splitConnections[l]| ==>
          0 <= t.splitConnections[l][k] <= t.nextNeuronNumber
          && (l.0, t.splitConnections[l][k]) in t.innovations
          && (t.splitConnections[l][k], l.1) in t.innovations)
  }

  /** Every recorded link joins neurons that are already numbered. */
  ghost predicate BoundedState(t: TrackerState) {
    forall l :: l in t.innovations ==> l.0 <= t.nextNeuronNumber && l.1 <= t.nextNeuronNumber
  }

  /** In a valid registry no two links share an id. */
  lemma IdsDistinct(t: TrackerState, l: Link, l': Link)
    requires ValidState(t) && l in t.innovations && l' in t.innovations && l != l'
    ensures t.innovations[l] != t.innovations[l']
  {
  }

  /** The index of the first recorded midpoint that `nodes` lacks, or `|mids|` when it has them all. */
  function FirstAbsent(mids: seq<int>, nodes: seq<NodeGene>): (k: nat)
    ensures k <= |mids|
    ensures forall q :: 0 <= q < k ==> HasIdx(nodes, mids[q])
    ensures k < |mids| ==> !HasIdx(nodes, mids[k])
    decreases |mids|
  {
    if mids == [] then 0
    else if !HasIdx(nodes, mids[0]) then 0
    else 1 + FirstAbsent(mids[1..], nodes)
  }

  /** Numbering a new midpoint for `link`, whose two halves are not recorded yet, keeps the registry
      invariant. */
  lemma MintKeepsValid(t: TrackerState, link: Link, midpoints: seq<int>, t': TrackerState)
    requires ValidState(t)
    requires var n := t.nextNeuronNumber + 1;
      (link.0, n) !in t.innovations && (n, link.1) !in t.innovations && (link.0, n) != (n, link.1)
    requires link in t.splitConnections ==> midpoints == t.splitConnections[link]
    requires link !in t.splitConnections ==> midpoints == []
    requires var n, c := t.nextNeuronNumber + 1, t.nextConnectionNumber;
      t' == TrackerState(t.innovations[(link.0, n) := c + 1][(n, link.1) := c + 2],
                         t.splitConnections[link := midpoints + [n]], c + 2, n,
                         t.linkOf[c + 1 := (link.0, n)][c + 2 := (n, link.1)])
    ensures ValidState(t') && Grows(t, t')
    ensures BoundedState(t) && link.0 < t'.nextNeuronNumber && link.1 < t'.nextNeuronNumber ==> BoundedState(t')
  {
    var n, c := t.nextNeuronNumber + 1, t.nextConnectionNumber;
    forall l, k | l in t'.splitConnections && 0 <= k < |t'.splitConnections[l]|
      ensures 0 <= t'.splitConnections[l][k] <= t'.nextNeuronNumber
      ensures (l.0, t'.splitConnections[l][k]) in t'.innovations && (t'.splitConnections[l][k], l.1) in t'.innovations
    {
      if l == link && k == |midpoints| {
        assert t'.splitConnections[l][k] == n;
      } else {
        assert t'.splitConnections[l][k] == t.splitConnections[l][k];
      }
    }
  }

  /** What `AddInnovationConnection` returns, and the registry it leaves. */
  datatype Recording = Recording(after: TrackerState, id: int)

  /** `AddInnovationConnection` on registry values: a link already recorded keeps its id and the registry is
      unchanged; a new link gets the next connection number. */
  function Record(t: TrackerState, l: Link): (r: Recording)
    ensures l in r.after.innovations && r.after.innovations[l] == r.id
    ensures r.after.splitConnections == t.splitConnections && r.after.nextNeuronNumber == t.nextNeuronNumber
    ensures ValidState(t) ==> ValidState(r.after) && Grows(t, r.after)
    ensures BoundedState(t) && l.0 <= t.nextNeuronNumber && l.1 <= t.nextNeuronNumber ==> BoundedState(r.after)
  {
    if l in t.innovations then Recording(t, t.innovations[l])
    else
      var n := t.nextConnectionNumber + 1;
      Recording(t.(innovations := t.innovations[l := n], nextConnectionNumber := n, linkOf := t.linkOf[n := l]), n)
  }

  /** What `SplitInnovationConnection` returns (the midpoint neuron and the ids of the links into and out of
      it), and the registry it leaves. */
  datatype Splitting = Splitting(after: TrackerState, neuron: int, id1: int, id2: int)

  /** `SplitInnovationConnection` on registry values, for `link` in a genome with nodes `nodes`: the first
      recorded midpoint of the link the genome lacks, with its recorded ids and the registry unchanged; when
      there is none, the next neuron number, whose two links get the next two connection numbers and which
      is appended to the link's midpoints. */
  function Split(t: TrackerState, link: Link, nodes: seq<NodeGene>): (r: Splitting)
    requires ValidState(t)
    ensures link in r.after.splitConnections && r.neuron in r.after.splitConnections[link]
    ensures (link.0, r.neuron) in r.after.innovations && (r.neuron, link.1) in r.after.innovations
    ensures r.neuron == t.nextNeuronNumber + 1 || (r.after == t && !HasIdx(nodes, r.neuron))
  {
    var mids := if link in t.splitConnections then t.splitConnections[link] else [];
    var k := FirstAbsent(mids, nodes);
    if k < |mids| then
      Splitting(t, mids[k], t.innovations[(link.0, mids[k])], t.innovations[(mids[k], link.1)])
    else
      var n, c := t.nextNeuronNumber + 1, t.nextConnectionNumber;
      Splitting(TrackerState(t.innovations[(link.0, n) := c + 1][(n, link.1) := c + 2],
                             t.splitConnections[link := mids + [n]], c + 2, n,
                             t.linkOf[c + 1 := (link.0, n)][c + 2 := (n, link.1)]),
                n, c + 1, c + 2)
  }

  class InnovationTracker {
    var innovations: map<Link, int>
    var splitConnections: map<Link, seq<int>>
    var nextConnectionNumber: int
    var nextNeuronNumber: int
    ghost var linkOf: map<int, Link>

    ghost function State(): TrackerState
      reads this
    {
      TrackerState(innovations, splitConnections, nextConnectionNumber, nextNeuronNumber, linkOf)
    }

    /** The registry invariant (`ValidState`) on the fields. */
    ghost predicate Valid()
      reads this
    {
      && 0 <= nextConnectionNumber && 0 <= nextNeuronNumber
      && (forall l :: l in innovations ==>
            1 <= innovations[l] <= nextConnectionNumber && innovations[l] in linkOf && linkOf[innovations[l]] == l)
      && (forall l, k :: l in splitConnections && 0 <= k < |splitConnections[l]| ==>
            0 <= splitConnections[l][k] <= nextNeuronNumber
            && (l.0, splitConnections[l][k]) in innovations
            && (splitConnections[l][k], l.1) in innovations)
    }

    /** `BoundedState` on the fields. */
    ghost predicate Bounded()
      reads this
    {
      forall l :: l in innovations ==> l.0 <= nextNeuronNumber && l.1 <= nextNeuronNumber
    }

    /** The field-level invariants are the value-level ones of `State()`. */
    lemma StateInvariants()
      ensures Valid() <==> ValidState(State())
      ensures Bounded() <==> BoundedState(State())
    {
    }

    /** The two links a new midpoint would get are not recorded yet, and differ. */
    ghost predicate CanMint(sourceIdx: int, targetIdx: int)
      reads this
    {
      var n := nextNeuronNumber + 1;
      (sourceIdx, n) !in innovations && (n, targetIdx) !in innovations && (sourceIdx, n) != (n, targetIdx)
    }

    /** A split of `(sourceIdx, targetIdx)` for a genome with these nodes mints a new midpoint. */
    ghost predicate WillMint(sourceIdx: int, targetIdx: int, nodes: seq<NodeGene>)
      reads this
    {
      var link := (sourceIdx, targetIdx);
      link !in splitConnections || FirstAbsent(splitConnections[link], nodes) == |splitConnections[link]|
    }

    /** The link-to-id map of a valid registry is injective. */
    lemma InnovationsInjective()
      requires Valid()
      ensures forall l, l' :: l in innovations && l' in innovations && l != l' ==> innovations[l] != innovations[l']
    {
    }

    /** If every recorded link joins numbered neurons, a split of a link between numbered neurons can
        always mint: its inserts never meet an existing key. */
    lemma BoundedCanMint(sourceIdx: int, targetIdx: int)
      requires Bounded() && sourceIdx <= nextNeuronNumber && targetIdx <= nextNeuronNumber
      ensures CanMint(sourceIdx, targetIdx)
    {
    }

    /** The private constructor: seeds the link of every input to every output. */
    constructor (networkParameters: NetworkParameters)
      requires networkParameters.Valid()
      ensures Valid() && Bounded()
      ensures var n, m := networkParameters.inputNodeCount, networkParameters.outputNodeCount;
        && (forall l :: l in innovations <==> IsSeedLink(n, m, l))
        && (forall l :: l in innovations ==> innovations[l] == SeedId(n, m, l.0, l.1))
        && nextConnectionNumber == n * m && nextNeuronNumber == n + m
        && splitConnections == map[]
    {
      var inputCount := networkParameters.inputNodeCount;
      var outputCount := networkParameters.outputNodeCount;
      nextConnectionNumber := 0;
      nextNeuronNumber := inputCount + outputCount;
      innovations := map[];
      splitConnections := map[];
      linkOf := map[];
      new;
      var i := BiasNodeCount;
      while i < BiasNodeCount + inputCount
        invariant BiasNodeCount <= i <= BiasNodeCount + inputCount
        invariant SeededBefore(inputCount, outputCount, i, inputCount + BiasNodeCount)
      {
        SeedRow(inputCount, outputCount, i);
        i := i + 1;
      }
      forall l | l in innovations ensures 1 <= innovations[l] <= nextConnectionNumber {
        SeedIdsAreDistinct(inputCount, outputCount, l, l);
      }
    }

    /** The seeding loops have recorded every seed link of an input below `i`, and of input `i` every
        output below `j`, each under its `SeedId`, and nothing else. */
    ghost predicate SeededBefore(inputCount: int, outputCount: int, i: int, j: int)
      reads this
    {
      && nextConnectionNumber == (i - BiasNodeCount) * outputCount + (j - inputCount - BiasNodeCount)
      && nextNeuronNumber == inputCount + outputCount && splitConnections == map[]
      && (forall l :: l in innovations <==>
            IsSeedLink(inputCount, outputCount, l) && (l.0 < i || (l.0 == i && l.1 < j)))
      && (forall l :: l in innovations ==>
            innovations[l] == SeedId(inputCount, outputCount, l.0, l.1)
            && innovations[l] in linkOf && linkOf[innovations[l]] == l)
      && (forall id :: id in linkOf ==> id <= nextConnectionNumber)
    }

    /** The inner seeding loop: records the link of input `i` to every output. */
    method SeedRow(inputCount: int, outputCount: int, i: int)
      requires inputCount > 0 && outputCount > 0 && BiasNodeCount <= i < BiasNodeCount + inputCount
      requires SeededBefore(inputCount, outputCount, i, inputCount + BiasNodeCount)
      modifies this
      ensures SeededBefore(inputCount, outputCount, i + 1, inputCount + BiasNodeCount)
    {
      var j := inputCount + BiasNodeCount;
      while j <= inputCount + outputCount
        invariant inputCount + BiasNodeCount <= j <= inputCount + outputCount + 1
        invariant SeededBefore(inputCount, outputCount, i, j)
      {
        nextConnectionNumber := nextConnectionNumber + 1;
        innovations := innovations[(i, j) := nextConnectionNumber];
        linkOf := linkOf[nextConnectionNumber := (i, j)];
        j := j + 1;
      }
      assert (i + 1 - BiasNodeCount) * outputCount == (i - BiasNodeCount) * outputCount + outputCount;
    }

    /** `AddInnovationConnection`: the id of the link, recorded under the next number if it is new. */
    method AddInnovationConnection(sourceIdx: int, targetIdx: int) returns (innovationNumber: int)
      requires Valid()
      modifies this
      ensures Valid() && Grows(old(State()), State())
      ensures (sourceIdx, targetIdx) in innovations && innovations[(sourceIdx, targetIdx)] == innovationNumber
      ensures (sourceIdx, targetIdx) in old(innovations) ==>
                innovationNumber == old(innovations)[(sourceIdx, targetIdx)] && State() == old(State())
      ensures (sourceIdx, targetIdx) !in old(innovations) ==>
                && innovationNumber == old(nextConnectionNumber) + 1
                && nextConnectionNumber == innovationNumber
                && innovations == old(innovations)[(sourceIdx, targetIdx) := innovationNumber]
                && splitConnections == old(splitConnections) && nextNeuronNumber == old(nextNeuronNumber)
      ensures old(Bounded()) && sourceIdx <= nextNeuronNumber && targetIdx <= nextNeuronNumber ==> Bounded()
      ensures Record(old(State()), (sourceIdx, targetIdx)) == Recording(State(), innovationNumber)
    {
      var link := (sourceIdx, targetIdx);
      if link in innovations {
        innovationNumber := innovations[link];
      } else {
        nextConnectionNumber := nextConnectionNumber + 1;
        innovations := innovations[link := nextConnectionNumber];
        linkOf := linkOf[nextConnectionNumber := link];
        innovationNumber := nextConnectionNumber;
      }
    }

    /** `SplitInnovationConnection`: the midpoint neuron for splitting `(sourceIdx, targetIdx)` in a genome
        with nodes `nodeGeneList`, and the ids of the links into and out of it. The first recorded midpoint
        the genome lacks is reused with its recorded ids; otherwise a new neuron is numbered, its two links
        get the next two ids, and it is appended to the link's midpoints. */
    method SplitInnovationConnection(sourceIdx: int, targetIdx: int, nodeGeneList: seq<NodeGene>)
      returns (neuronIdx: int, innovation1: int, innovation2: int)
      requires Valid()
      requires WillMint(sourceIdx, targetIdx, nodeGeneList) ==> CanMint(sourceIdx, targetIdx)
      modifies this
      ensures Valid() && Grows(old(State()), State())
      ensures (sourceIdx, neuronIdx) in innovations && innovations[(sourceIdx, neuronIdx)] == innovation1
      ensures (neuronIdx, targetIdx) in innovations && innovations[(neuronIdx, targetIdx)] == innovation2
      ensures var link := (sourceIdx, targetIdx);
        if old(WillMint(sourceIdx, targetIdx, nodeGeneList)) then
          && neuronIdx == old(nextNeuronNumber) + 1 && nextNeuronNumber == neuronIdx
          && innovation1 == old(nextConnectionNumber) + 1 && innovation2 == old(nextConnectionNumber) + 2
          && nextConnectionNumber == innovation2
          && innovations == old(innovations)[(sourceIdx, neuronIdx) := innovation1][(neuronIdx, targetIdx) := innovation2]
          && splitConnections == old(splitConnections)[link :=
               (if link in old(splitConnections) then old(splitConnections)[link] else []) + [neuronIdx]]
        else
          && neuronIdx == old(splitConnections)[link][FirstAbsent(old(splitConnections)[link], nodeGeneList)]
          && State() == old(State())
      ensures !old(WillMint(sourceIdx, targetIdx, nodeGeneList)) ==> !HasIdx(nodeGeneList, neuronIdx)
      ensures (forall k :: 0 <= k < |nodeGeneList| ==> nodeGeneList[k].idx <= old(nextNeuronNumber)) ==>
                !HasIdx(nodeGeneList, neuronIdx)
      ensures 0 <= neuronIdx <= nextNeuronNumber
      ensures old(Bounded()) && sourceIdx <= old(nextNeuronNumber) && targetIdx <= old(nextNeuronNumber) ==> Bounded()
      ensures Split(old(State()), (sourceIdx, targetIdx), nodeGeneList) == Splitting(State(), neuronIdx, innovation1, innovation2)
    {
      var linkIdx := (sourceIdx, targetIdx);
      if linkIdx in splitConnections {
        var connectionNodes := splitConnections[linkIdx];
        var newNodeIdx := -1;
        var k := 0;
        while k < |connectionNodes|
          invariant 0 <= k <= |connectionNodes| && k <= FirstAbsent(connectionNodes, nodeGeneList)
          invariant newNodeIdx == -1
        {
          if !HasIdx(nodeGeneList, connectionNodes[k]) {
            newNodeIdx := connectionNodes[k];
            break;
          }
          k := k + 1;
        }
        assert connectionNodes == old(splitConnections)[linkIdx];
        if newNodeIdx >= 0 {
          neuronIdx := newNodeIdx;
          innovation1 := innovations[(sourceIdx, newNodeIdx)];
          innovation2 := innovations[(newNodeIdx, targetIdx)];
        } else {
          neuronIdx, innovation1, innovation2 := MintMidpoint(sourceIdx, targetIdx, connectionNodes);
        }
      } else {
        neuronIdx, innovation1, innovation2 := MintMidpoint(sourceIdx, targetIdx, []);
      }
    }

    /** Numbers a new midpoint neuron for the link, records both halves under the next two connection
        ids, and records the split list `midpoints + [neuron]` for the link. */
    method MintMidpoint(sourceIdx: int, targetIdx: int, midpoints: seq<int>)
      returns (neuronIdx: int, innovation1: int, innovation2: int)
      requires Valid() && CanMint(sourceIdx, targetIdx)
      requires (sourceIdx, targetIdx) in splitConnections ==> midpoints == splitConnections[(sourceIdx, targetIdx)]
      requires (sourceIdx, targetIdx) !in splitConnections ==> midpoints == []
      modifies this
      ensures Valid() && Grows(old(State()), State())
      ensures neuronIdx == old(nextNeuronNumber) + 1 && nextNeuronNumber == neuronIdx
      ensures innovation1 == old(nextConnectionNumber) + 1 && innovation2 == old(nextConnectionNumber) + 2
      ensures nextConnectionNumber == innovation2
      ensures innovations == old(innovations)[(sourceIdx, neuronIdx) := innovation1][(neuronIdx, targetIdx) := innovation2]
      ensures splitConnections == old(splitConnections)[(sourceIdx, targetIdx) := midpoints + [neuronIdx]]
      ensures linkOf == old(linkOf)[innovation1 := (sourceIdx, neuronIdx)][innovation2 := (neuronIdx, targetIdx)]
      ensures old(Bounded()) && sourceIdx <= old(nextNeuronNumber) && targetIdx <= old(nextNeuronNumber) ==> Bounded()
    {
      ghost var before := State();
      neuronIdx := nextNeuronNumber + 1;
      innovation1 := nextConnectionNumber + 1;
      innovation2 := nextConnectionNumber + 2;
      innovations, splitConnections, nextConnectionNumber, nextNeuronNumber, linkOf :=
        innovations[(sourceIdx, neuronIdx) := innovation1][(neuronIdx, targetIdx) := innovation2],
        splitConnections[(sourceIdx, targetIdx) := midpoints + [neuronIdx]], innovation2, neuronIdx,
        linkOf[innovation1 := (sourceIdx, neuronIdx)][innovation2 := (neuronIdx, targetIdx)];
      MintKeepsValid(before, (sourceIdx, targetIdx), midpoints, State());
      StateInvariants();
    }
  }
}
