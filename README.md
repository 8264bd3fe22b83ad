# SNeat genome core, modelled in Dafny

SNeat is a C# implementation of NEAT (NeuroEvolution of Augmenting Topologies). This project models the
part of it that evolves network topologies, and proves properties of that model:

- **The innovation registry** (`InnovationTracker`). It is shared by every genome. It hands out one global
  innovation number per link `(source, target)`. It remembers which hidden neurons were inserted into
  which link, so that the same structural mutation in two genomes gets the same numbers.
- **The genome** (`NeatGenome`). It has four collections: a node list, a list of connection ids, a
  dictionary from id to connection gene, and a list of vacant links (links a later mutation may add). It
  also holds a cached network and a dirty flag. The model covers:
  - the two constructors and `CreateInitialGenome`;
  - the structural mutations (add a vacant connection, split a connection with a new hidden node);
  - weight mutation, with the new weight of each gene taken from a draw;
  - the `MutateStructure` loop, with its weighted choice of operator, as a fold of one step per draw;
  - the `Network` getter, which builds the network once after each change.
- **Crossover** (`NeatGenome.Crossover`). The child gets:
  - the union of the parents' nodes and the union of their ids;
  - for each id, a copy of the first parent's gene if it has one, else the second's;
  - the union of the vacant links, less those a child gene realises.
- **The network builder** (`NetworkBuilder`). It compiles a genome into the arrays a `NeatNetwork` is
  constructed from. Bias, inputs and outputs keep their own indices. Hidden neurons are numbered in the
  order a layer-by-layer search from the bias and the inputs discovers them (`BfsNumbering`). Each compiled node gets its
  activation and its list of outgoing connections.
- **Parameter validation** (`NetworkParameters`, `PopulationParameters`).

The model has these modules:

| module | role |
|---|---|
| `Wrappers` | `Option`/`Result` |
| `Sequences` | LINQ `Distinct`/`Union`, first index, removal of the first occurrence |
| `GenomeTypes` | gene enumerations and records |
| `NetworkTypes` | the compiled network records |
| `NetworkConfig` | `NetworkParameters` |
| `PopulationConfig` | `PopulationParameters` |
| `MutationConfig` | `MutationParameters`, as data |
| `Innovations` | the registry class and its value-level state `TrackerState` |
| `GenomeValues` | the genome as a value, its invariant `Coherent`, and the value-level effect of each mutation |
| `GenomeLayout` | the initial genome |
| `GenomeCrossover` | crossover on values |
| `Genomes` | the `NeatGenome` class |
| `Compiler` | the network builder: LINQ queries as functions, the numbering and compilation predicates, the breadth-first numbering as a value, and the `NetworkBuilder` class |
| `BuildOrderExample` | three small genomes worked out by hand: the breadth-first order of one, a build that the second cannot fail and a build that the third must fail, as concrete witnesses of the general contracts |

How the model is organised:

- **Classes follow what the source mutates.** The registry, the genome and the builder are classes whose
  methods change their fields in place. Genes, nodes, links and parameter records are values.
- **Methods are tied to value functions.** The genome's state-changing methods ensure that the new
  genome and registry are a function of the old ones and the draws: `AddConnectionStep` with `Record`,
  `AddNodeStep` with `Split`, `WeightsDrawn`, `MutationStep`, `Mutated` (the fold over the draws of
  `MutateStructure`), `InitialGenome` and `CrossoverOf`. The builder's result is `CompiledWith` the
  numbering `BfsNumbering`. The lemmas about those functions prove the invariant kept and the effect.
  The copy loops and the parameter checks are stated directly. The proofs that carry the weight are
  the lemmas about these functions and the loop invariants of the builder; the worked examples in
  `BuildOrderExample` are witnesses that the contracts pin concrete results, not part of those proofs.
- **`Coherent(g, t)` is the genome invariant.** It is stated against the shared registry `t` and holds:
  - the id list holds each id once, and exactly the dictionary's keys;
  - each gene is stored under its own number, which is the registry's number for its link;
  - each node is the one the index layout gives its index;
  - every gene and vacant link joins nodes of the genome;
  - no vacant link is realised by a gene;
  - every node is numbered by the registry;
  - there is a gene `MutateAddNode` can split;
  - the bias, input and output nodes are all present, and no gene or vacant link leaves an output
    (`BuildReady`), so the builder's lookups succeed (`ReadyIsCompilable`).

  It guarantees that every `Dictionary.Add` and every index the genome operations perform succeeds.
  Every operation that changes a genome keeps it. A mutation of another genome only grows the registry,
  which also keeps it (`CoherentGrows`).

Some behaviours of the code are worth stating because a reader of NEAT descriptions might expect others.
The model follows the code:

- The registry records only the input→output links. The initial genome has no bias connections: the
  bias→output links start out vacant.
- `MutateAddNode` may split any gene whose source is not the bias, including genes that are already
  disabled.
- When a link was split before, the first recorded midpoint the genome does not yet have is reused. Only
  when the genome has all of them is a new neuron minted.
- `CreateInitialGenome` does not set the dirty flag.

## Model

| member | source | states |
|---|---|---|
| `NetworkConfig.New` | SNeat/Model/NetworkParameters.cs:15-22 | accepted exactly when both counts are positive; a bad input count is reported first, then a bad output count; accepted counts are kept |
| `PopulationConfig.New` | SNeat/Model/PopulationParameters.cs:15-31 | accepted exactly when `populationSize >= 1`, `archiveSize >= 0`, `bestChildCount >= 0` and the 32-bit sum `Wrap32(bestChildCount + archiveSize) <= populationSize`. When the sum does not overflow this is the plain inequality. When it overflows, the guard always passes. Each guard fails with the argument name it reports, and accepted values are stored unchanged |
| `PopulationConfig.Wrap32` | SNeat/Model/PopulationParameters.cs:23 | unchecked C# `int` addition: a sum in range is kept, any other sum is reduced modulo 2^32 into range |
| `PopulationConfig.AcceptedOverflowingCounts` | SNeat/Model/PopulationParameters.cs:23-24 | the guards accept `(2, 0, int.MaxValue, 1)`, whose two counts overflow; its best-child positions are in range, and the random-child count of `XorModel.Search` is then negative |
| `PopulationConfig.GenerationSizeIsStable` | SNeat/XorModel.cs:133-171 | for accepted parameters whose two counts add up without overflow, the random-child count is not negative and the next generation has `populationSize` individuals |
| `PopulationConfig.AcceptedBestChildIndexOutOfRange` | SNeat/Model/PopulationParameters.cs:23-24 | the guards accept `(1, 0, 0, 1)`, for which the best-child loop reads position 1 of a one-individual population |
| `PopulationConfig.NewChecked` | SNeat/Model/PopulationParameters.cs:15-31 | accepts exactly what `New` accepts when also `bestChildCount + archiveSize <= populationSize` without wrap-around and `bestChildCount < populationSize`, and then returns the same record |
| `PopulationConfig.CheckedParametersAreSafe` | SNeat/XorModel.cs:137-171 | for parameters `NewChecked` accepts, every best-child position indexes the population, the random-child count is not negative, and the generation size is stable |
| `Innovations.SeedIdsAreDistinct` | SNeat/Model/InnovationTracker.cs:30-37 | the row-major seed numbers lie in `1..N*M` and differ for different seed links |
| `Innovations.IdsDistinct` | SNeat/Model/InnovationTracker.cs:51-56 | in a valid registry two different links never share a number |
| `Innovations.FirstAbsent` | SNeat/Model/InnovationTracker.cs:76-84 | the position of the first recorded midpoint the node list lacks: every earlier one is present, and the found one is absent |
| `Innovations.MintKeepsValid` | SNeat/Model/InnovationTracker.cs:92-127 | minting a midpoint (next neuron, next two numbers, the midpoint appended to the link's list) keeps the registry valid, only grows it, and keeps every link between numbered neurons |
| `Innovations.Record` | SNeat/Model/InnovationTracker.cs:40-60 | the registry after `AddInnovationConnection`: it holds the returned number for the link, keeps the split lists and the neuron counter, stays valid and bounded, and only grows |
| `Innovations.Split` | SNeat/Model/InnovationTracker.cs:62-154 | the registry after `SplitInnovationConnection`: both halves of the link through the returned midpoint are recorded, and the midpoint is either the next neuron number or a recorded midpoint the genome lacks, with the registry unchanged |
| `Innovations.InnovationTracker.constructor` | SNeat/Model/InnovationTracker.cs:19-38 | records exactly the links from each input to each output, numbered row-major from 1; connection counter `N*M`, neuron counter `N+M`, no splits |
| `Innovations.InnovationTracker.SeedRow` | SNeat/Model/InnovationTracker.cs:32-36 | the inner seeding loop: records the links of one input to every output, with consecutive numbers |
| `Innovations.InnovationTracker.InnovationsInjective` | SNeat/Model/InnovationTracker.cs:40-60 | a valid registry maps different links to different numbers |
| `Innovations.InnovationTracker.AddInnovationConnection` | SNeat/Model/InnovationTracker.cs:40-60 | a known link returns its number and changes nothing; a new link gets the incremented counter, and only that entry is added; the registry stays valid and only grows |
| `Innovations.InnovationTracker.SplitInnovationConnection` | SNeat/Model/InnovationTracker.cs:62-154 | returns the midpoint and the numbers of both halves. A link never split, or one whose midpoints the genome already has, mints a new neuron and two new numbers. Otherwise the first absent recorded midpoint is reused with its recorded numbers and nothing changes. A reused or fresh midpoint is never a node of the genome |
| `Innovations.InnovationTracker.MintMidpoint` | SNeat/Model/InnovationTracker.cs:92-127 | the shared mint branch: neuron counter + 1, both halves numbered with the next two counters, and the midpoint appended to the link's split list |
| `GenomeTypes.ConnectionGene.Disabled` | SNeat/Model/NeatGenome.cs:86-89 | the same gene with `isActive` false and every other field kept |
| `GenomeValues.SplitCandidates` | SNeat/Model/NeatGenome.cs:331-334 | an id is a candidate exactly when the genome has the gene and its source is not the bias (disabled genes included) |
| `GenomeValues.ChosenSplit` | SNeat/Model/NeatGenome.cs:336 | the drawn candidate is a gene of the genome whose source is not the bias |
| `GenomeValues.Side` | SNeat/Model/NeatGenome.cs:344-363 | the `Where` of the two vacant-link queries: the nodes other than the excluded index whose type is not excluded |
| `GenomeValues.SideDistinct` | SNeat/Model/NeatGenome.cs:344-363 | filtering a node list with distinct indices keeps them distinct |
| `GenomeValues.PairsIntoFacts` | SNeat/Model/NeatGenome.cs:352-355 | the links into the new neuron come from nodes of the genome other than the split gene's source, each once |
| `GenomeValues.PairsOutOfFacts` | SNeat/Model/NeatGenome.cs:365-368 | the links out of the new neuron go to nodes of the genome other than the split gene's target, each once |
| `GenomeValues.Next` | SNeat/Model/NeatGenome.cs:316 | `Random.Next(n)` on a draw: below `n` when `n > 0`, `0` when `n == 0`, and the draw itself when it is already below `n` |
| `GenomeValues.ChooseOperator` | SNeat/Model/NeatGenome.cs:258-289 | the operator chosen for a chance draw; without vacant links it is never add-connection |
| `GenomeValues.ChoiceFollowsChances` | SNeat/Model/NeatGenome.cs:258-289 | of the draws below the total weight, exactly `AddConnectionChance` (0 without vacant links), `AddNodeChance` and `MutateWeightChance` choose the three operators |
| `GenomeValues.CoherentGrows` | SNeat/Model/InnovationTracker.cs:156-167 | the registry is shared: growth caused by another genome keeps this genome coherent |
| `GenomeValues.OtherLinkOtherId` | SNeat/Model/InnovationTracker.cs:40-60 | a gene of another link never has the number the grown registry gives this link |
| `GenomeValues.AddConnectionKeepsCoherent` | SNeat/Model/NeatGenome.cs:314-326 | adding the drawn vacant link under the registry's number keeps the genome coherent with the grown registry, and the number is new to the genome |
| `GenomeValues.AddConnectionEffect` | SNeat/Model/NeatGenome.cs:314-326 | the genome extends the old one: one new key, with an active gene on the vacant link and the drawn weight; the old genes are unchanged; that link leaves the vacant list once |
| `GenomeValues.AddConnectionKeys` | SNeat/Model/NeatGenome.cs:321-323 | the list/key invariant survives the new id |
| `GenomeValues.AddConnectionVacant` | SNeat/Model/NeatGenome.cs:325 | the vacant list stays duplicate-free, disjoint from the genes and within the genome's nodes |
| `GenomeValues.AddConnectionSplittable` | SNeat/Model/NeatGenome.cs:331-336 | a split candidate still exists |
| `GenomeValues.SplitKeepsLaidOut` | SNeat/Model/InnovationTracker.cs:86-127 | a split, minted or reused, keeps the registry laid out for the genome's counts, and its midpoint lies beyond the bias, inputs and outputs |
| `GenomeValues.AddNodeIdsFresh` | SNeat/Model/NeatGenome.cs:338 | the two numbers a split returns are different and new to the genome |
| `GenomeValues.AddNodeKeys` | SNeat/Model/NeatGenome.cs:374-378 | the list/key invariant survives the two new ids |
| `GenomeValues.AddNodeRegistered` | SNeat/Model/NeatGenome.cs:374-378 | the two new genes carry the numbers the registry holds for their links |
| `GenomeValues.AddNodeLaidOut` | SNeat/Model/NeatGenome.cs:341-372 | the new node is a hidden sigmoid node at a fresh index, so the node layout is kept |
| `GenomeValues.AddNodeEndpoints` | SNeat/Model/NeatGenome.cs:344-378 | every gene and vacant link still joins nodes of the genome |
| `GenomeValues.AddNodeVacant` | SNeat/Model/NeatGenome.cs:343-368 | the vacant list stays duplicate-free and no gene realises a vacant link |
| `GenomeValues.AddNodeWithin` | SNeat/Model/NeatGenome.cs:338-372 | every node, the new one included, is numbered by the registry |
| `GenomeValues.AddNodeSplittable` | SNeat/Model/NeatGenome.cs:374-380 | a split candidate still exists |
| `GenomeValues.AddNodeKeepsCoherent` | SNeat/Model/NeatGenome.cs:329-381 | splitting the chosen gene at the registry's midpoint keeps the genome coherent with the grown registry |
| `GenomeValues.AddNodeEffect` | SNeat/Model/NeatGenome.cs:329-381 | the genome extends the old one: the node list gains the hidden node; the id list gains the two ids in order; the two active genes join source→mid→target with the drawn weights; the split gene is disabled; other genes are unchanged; vacant links are only appended |
| `GenomeValues.SameTopologyExtends` | SNeat/Model/NeatGenome.cs:293-311 | a change of weights only is an extension |
| `GenomeValues.SameTopologyKeepsCoherent` | SNeat/Model/NeatGenome.cs:293-311 | a change of weights only keeps the genome coherent |
| `GenomeValues.WeightsDrawn` | SNeat/Model/NeatGenome.cs:293-311 | the weight mutation on values changes only weights |
| `GenomeValues.WeightsDrawnByPosition` | SNeat/Model/NeatGenome.cs:293-311 | a genome whose gene at each position of the dictionary order has that position's drawn weight, and which is otherwise unchanged, is `WeightsDrawn` |
| `GenomeValues.SplitIsDone` | SNeat/Model/NeatGenome.cs:338 | the registry's split of a gene of a coherent genome grows the registry, keeps it laid out, records both halves under the returned numbers, and gives a hidden midpoint the genome lacks |
| `GenomeValues.MutationStepKeepsCoherent` | SNeat/Model/NeatGenome.cs:258-289 | every step the chance draw chooses keeps the genome coherent with the registry, extends the genome and grows the registry |
| `GenomeValues.Mutated` | SNeat/Model/NeatGenome.cs:251-291 | the fold of one chosen step per draw keeps the genome coherent, extends it and grows the registry |
| `GenomeValues.MutatedStepByStep` | SNeat/Model/NeatGenome.cs:255-290 | the fold over the first `i + 1` draws is the step on draw `i` after the fold over the first `i` |
| `GenomeValues.AddConnectionReady` | SNeat/Model/NeatGenome.cs:314-326 | adding a vacant link keeps the fixed nodes present and keeps genes and vacant links from leaving an output |
| `GenomeValues.AddNodeReady` | SNeat/Model/NeatGenome.cs:329-381 | a split at a hidden midpoint keeps the fixed nodes present and keeps genes and vacant links from leaving an output |
| `GenomeValues.IntoMidpointNotFromOutput` | SNeat/Model/NeatGenome.cs:344-355 | the links added into the new neuron never leave an output |
| `GenomeLayout.InitialNodesLaidOut` | SNeat/Model/NeatGenome.cs:210-224 | the initial node at position `k` has index `k` and is the bias, an input or an output as the layout gives it |
| `GenomeLayout.InitialNodesFacts` | SNeat/Model/NeatGenome.cs:210-224 | the initial nodes have distinct indices, are laid out, and cover exactly the indices `0..N+M` |
| `GenomeLayout.SeedLinksFacts` | SNeat/Model/NeatGenome.cs:227-238 | the genes' links are every input to each covered output, each once, `count * N` of them |
| `GenomeLayout.InitialLinksFacts` | SNeat/Model/NeatGenome.cs:227-238 | the initial genes' links are exactly the links the registry seeds, each once, `N*M` of them |
| `GenomeLayout.BiasLinksFacts` | SNeat/Model/NeatGenome.cs:242-248 | the initial vacant links are every bias to every output, each once |
| `GenomeLayout.SeedsRecordInitialLinks` | SNeat/Model/NeatGenome.cs:233 | a registry seeded for the same counts knows every initial link, so `AddInnovationConnection` only looks them up |
| `GenomeLayout.GenesForFacts` | SNeat/Model/NeatGenome.cs:233-236 | the initial dictionary's keys are the initial ids, and each gene is active, on one of the links, and numbered as the registry numbers its link |
| `GenomeLayout.GenesForGrows` | SNeat/Model/NeatGenome.cs:233 | a grown registry gives the same ids and genes |
| `GenomeLayout.GenesForSnoc` | SNeat/Model/NeatGenome.cs:235-236 | one more inner-loop step appends the link's number to the id list and adds its gene to the dictionary |
| `GenomeLayout.InitialKeys` | SNeat/Model/NeatGenome.cs:227-238 | the initial genome keeps the list/key invariant and every gene is registered |
| `GenomeLayout.InitialIdsDistinct` | SNeat/Model/NeatGenome.cs:235 | distinct recorded links give distinct ids |
| `GenomeLayout.InitialNodesWithin` | SNeat/Model/NeatGenome.cs:210-224 | the initial nodes are laid out and numbered by the registry |
| `GenomeLayout.InitialGenesFit` | SNeat/Model/NeatGenome.cs:227-248 | genes and vacant links join initial nodes; vacant links are distinct and none is a gene |
| `GenomeLayout.InitialSplittable` | SNeat/Model/NeatGenome.cs:227-238 | the initial genome has a gene `MutateAddNode` can split |
| `GenomeLayout.InitialKeepsCoherent` | SNeat/Model/NeatGenome.cs:208-249 | the initial genome is coherent with a registry laid out for its counts |
| `GenomeLayout.InitialReady` | SNeat/Model/NeatGenome.cs:208-249 | the initial genome has its fixed nodes, and no gene or vacant link leaves an output |
| `GenomeCrossover.ChildGenes` | SNeat/Model/NeatGenomeUtils.cs:27-43 | succeeds exactly when every id has a gene in one parent; the keys are then exactly the ids, and each gene is the first parent's if it has one, else the second's |
| `GenomeCrossover.ChildGenesUnique` | SNeat/Model/NeatGenomeUtils.cs:27-43 | any dictionary with those keys and those genes is the one the loop builds |
| `GenomeCrossover.FirstRealising` | SNeat/Model/NeatGenomeUtils.cs:48-49 | `FirstOrDefault` is null exactly when no gene realises the link; otherwise it is a gene on that link |
| `GenomeCrossover.KeptVacant` | SNeat/Model/NeatGenomeUtils.cs:45-53 | a link is kept exactly when it is in the union and no child gene realises it |
| `GenomeCrossover.KeptVacantNoDuplicates` | SNeat/Model/NeatGenomeUtils.cs:45-53 | filtering a duplicate-free union keeps it duplicate-free |
| `GenomeCrossover.KeptVacantOfDictionary` | SNeat/Model/NeatGenomeUtils.cs:45-53 | over the child's dictionary, a link is kept exactly when it is in the union and no gene of the dictionary is on it |
| `GenomeCrossover.CrossoverFailsExactly` | SNeat/Model/NeatGenomeUtils.cs:39-40 | crossover throws exactly when some id in either parent's list has no gene in either parent |
| `GenomeCrossover.CrossoverOfKeyedSucceeds` | SNeat/Model/NeatGenomeUtils.cs:27-43 | parents whose lists and dictionaries agree never make it throw |
| `GenomeCrossover.CrossoverChildLists` | SNeat/Model/NeatGenomeUtils.cs:12-24 | the child has the first parent's counts. Its nodes and ids are the first parent's distinct elements, then the second's not already present. Both lists are duplicate-free and hold exactly the elements of both parents, in either order of the parents |
| `GenomeCrossover.CrossoverChildGenes` | SNeat/Model/NeatGenomeUtils.cs:27-43 | the child's keys are exactly its ids, and each gene is the first parent's if it has one, else the second's |
| `GenomeCrossover.CrossoverChildVacant` | SNeat/Model/NeatGenomeUtils.cs:45-53 | the child's vacant links are duplicate-free and are exactly the parents' vacant links that no child gene realises |
| `GenomeCrossover.LaidOutUnionDistinct` | SNeat/Model/NeatGenomeUtils.cs:14 | the union of two laid-out node lists has distinct indices, because node equality is field equality |
| `GenomeCrossover.ChildKeyed` | SNeat/Model/NeatGenomeUtils.cs:20-43 | the child keeps the list/key invariant |
| `GenomeCrossover.ChildRegistered` | SNeat/Model/NeatGenomeUtils.cs:42 | the child's genes carry the registry's numbers |
| `GenomeCrossover.ChildLaidOut` | SNeat/Model/NeatGenomeUtils.cs:14-18 | the child's nodes are laid out |
| `GenomeCrossover.ChildEndpoints` | SNeat/Model/NeatGenomeUtils.cs:14-53 | the child's genes and vacant links join its nodes |
| `GenomeCrossover.ChildWithin` | SNeat/Model/NeatGenomeUtils.cs:14-18 | the child's nodes are numbered by the registry |
| `GenomeCrossover.ChildSplittable` | SNeat/Model/NeatGenomeUtils.cs:27-43 | the child has a gene `MutateAddNode` can split |
| `GenomeCrossover.CrossoverKeepsCoherent` | SNeat/Model/NeatGenomeUtils.cs:10-56 | crossover of two coherent parents with the same counts succeeds, and the child is coherent with the same registry |
| `GenomeCrossover.ChildReady` | SNeat/Model/NeatGenomeUtils.cs:10-56 | the child of two parents with the same counts, neither with a gene or vacant link out of an output, has the same property and its fixed nodes |
| `Sequences.UnionProperties` | SNeat/Model/NeatGenomeUtils.cs:14-24 | LINQ `Union` is the first sequence's distinct elements followed by the second's new ones: duplicate-free, with the elements of both |
| `Sequences.RemoveFirstNoDuplicates` | SNeat/Model/NeatGenome.cs:325 | `List.Remove` on a duplicate-free list removes the element and leaves every other element, one fewer |
| `Sequences.RemoveFirstMultiset` | SNeat/Model/NeatGenome.cs:325 | `List.Remove` removes exactly one occurrence |
| `Genomes.NeatGenome.constructor` | SNeat/Model/NeatGenome.cs:142-167 | empty collections, the given registry, parameters and counts, no network, dirty |
| `Genomes.NeatGenome.Copy` | SNeat/Model/NeatGenome.cs:169-201 | the copy has the same registry, parameters and collections as the original, no network, and is dirty |
| `Genomes.CopyNodes` | SNeat/Model/NeatGenome.cs:179-182 | the copied node list equals the original |
| `Genomes.CopyIds` | SNeat/Model/NeatGenome.cs:185-188 | the copied id list equals the original |
| `Genomes.CopyGenes` | SNeat/Model/NeatGenome.cs:191-194 | the dictionary copied in enumeration order equals the original |
| `Genomes.CopyLinks` | SNeat/Model/NeatGenome.cs:197-200 | the copied vacant list equals the original |
| `Genomes.NeatGenome.Crossover` | SNeat/Model/NeatGenomeUtils.cs:10-56 | it fails exactly when `CrossoverOf` of the parents' states fails. Otherwise it returns a new genome whose state is that child, on the first parent's registry and parameters, with no network and dirty |
| `Genomes.NeatGenome.Inherit` | SNeat/Model/NeatGenomeUtils.cs:14-53 | filling an empty genome from two parents succeeds exactly when `CrossoverOf` does, and then leaves its state |
| `Genomes.NeatGenome.AppendNodes` | SNeat/Model/NeatGenomeUtils.cs:14-18 | the node list becomes the union of the parents' nodes |
| `Genomes.NeatGenome.AppendIds` | SNeat/Model/NeatGenomeUtils.cs:20-24 | the id list becomes the union of the parents' ids |
| `Genomes.NeatGenome.AddParentGenes` | SNeat/Model/NeatGenomeUtils.cs:26-43 | the loop returns exactly when `ChildGenes` succeeds, and leaves that dictionary |
| `Genomes.NeatGenome.AddKeptVacancies` | SNeat/Model/NeatGenomeUtils.cs:45-53 | the vacant list becomes the union less the links a child gene realises |
| `Genomes.FreshLinkFreshId` | SNeat/Model/NeatGenome.cs:236 | the registry's number for a link not yet added is not a key yet, so the initial `Add` succeeds |
| `Genomes.NeatGenome.CreateInitialGenome` | SNeat/Model/NeatGenome.cs:208-249 | the genome becomes `InitialGenome` (bias, inputs, outputs; one active gene per input→output link with the drawn weights; bias→output links vacant), is coherent, and leaves the registry, the cache and the flag alone |
| `Genomes.NeatGenome.AddSeedGenes` | SNeat/Model/NeatGenome.cs:227-238 | the nested loops leave the initial id list and dictionary and do not change the registry |
| `Genomes.NeatGenome.AddInputsInto` | SNeat/Model/NeatGenome.cs:230-237 | the inner loop adds the genes of every input into one output |
| `Genomes.NeatGenome.AddSeedGene` | SNeat/Model/NeatGenome.cs:232-236 | one inner step looks up the link's number and adds its gene |
| `Genomes.NeatGenome.AddInitialVacancies` | SNeat/Model/NeatGenome.cs:242-248 | the vacant list becomes every bias→output link |
| `Genomes.NeatGenome.AddBiasVacancies` | SNeat/Model/NeatGenome.cs:244-247 | the inner loop appends the links from one bias to each output |
| `Genomes.NeatGenome.RecordLink` | SNeat/Model/NeatGenome.cs:319 | the registry becomes exactly `Record` of the old one and the link, and returns its number; it stays laid out and only grows, and is unchanged when it knew the link |
| `Genomes.NeatGenome.RecordSplit` | SNeat/Model/NeatGenome.cs:338 | the registry and the returned midpoint and numbers are exactly `Split` of the old registry, the chosen gene's link and the genome's nodes: the first recorded midpoint the genome lacks with the registry unchanged, or a fresh mint. It also gives the guarantees the genome needs (`SplitDone`) |
| `Genomes.NeatGenome.MutateAddConnection` | SNeat/Model/NeatGenome.cs:314-326 | the new registry is `Record` of the old one at the drawn vacant link, and the new state is `AddConnectionStep` at the drawn index with the recorded number; the genome stays valid and extends the old one |
| `Genomes.NeatGenome.AddVacantGene` | SNeat/Model/NeatGenome.cs:321-325 | the list, dictionary and vacant-list updates are `AddConnectionStep` |
| `Genomes.NeatGenome.MutateAddNode` | SNeat/Model/NeatGenome.cs:329-381 | the new registry is `Split` of the old one at the drawn candidate's link, and the new state is `AddNodeStep` at the midpoint and numbers it returns; one node and two ids more; the genome stays valid and extends the old one |
| `Genomes.NeatGenome.SplitGene` | SNeat/Model/NeatGenome.cs:341-380 | the updates of the split, in source order, are `AddNodeStep` |
| `Genomes.NeatGenome.AddVacantInto` | SNeat/Model/NeatGenome.cs:352-355 | appends a link from each of the nodes into the new neuron |
| `Genomes.NeatGenome.AddVacantOutOf` | SNeat/Model/NeatGenome.cs:365-368 | appends a link from the new neuron to each of the nodes |
| `Genomes.NeatGenome.MutateConnectionWeight` | SNeat/Model/NeatGenome.cs:293-311 | the new state is `WeightsDrawn`: each gene, in dictionary order, takes its draw's weight when it has one, else keeps its own; nothing but weights changes |
| `Genomes.NeatGenome.MutateStep` | SNeat/Model/NeatGenome.cs:258-289 | the new genome and registry are `MutationStep` of the old ones: the operator `ChooseOperator` picks for the chance draw, run with the step's draws; the genome stays valid and extends the old one |
| `Genomes.NeatGenome.MutateStructure` | SNeat/Model/NeatGenome.cs:251-291 | the new genome and registry are `Mutated`, one chosen step per draw in order, `MutationCount` of them; the genome is valid, extends the old one, and is dirty; the cached network is untouched |
| `Genomes.NeatGenome.MutateSteps` | SNeat/Model/NeatGenome.cs:255-290 | the `for` loop leaves the genome and registry `Mutated` over the draws, valid and extended |
| `Genomes.NeatGenome.Network` | SNeat/Model/NeatGenome.cs:128-140 | a dirty genome builds its network. A build that succeeds is the compilation of the current genome under the breadth-first numbering `BfsNumbering`, is cached, and clears the flag. A build that fails is explained and changes nothing; a build that succeeds leaves no failure explained, so a genome with an explained failure never builds. A compilable or valid genome always builds. A clean genome returns its cached network. A fresh cache stays fresh |
| `Genomes.NeatGenome.Rebuild` | SNeat/Model/NeatGenome.cs:132-136 | builds a new network and caches it when the build succeeds, under `BfsNumbering` and with no failure explained; a failure is explained (an output's link to a neuron the search never reached, or a compiled neuron without a node gene) and leaves the cache and the flag |
| `Genomes.ReadyIsCompilable` | SNeat/Model/NetworkBuilder.cs:88-123 | a genome whose genes join its nodes, whose fixed nodes are present and none of whose genes leaves an output is compilable: both `First` lookups succeed |
| `Compiler.ActiveMembers` | SNeat/Model/NetworkBuilder.cs:35-38 | the active list holds exactly the active genes |
| `Compiler.ByTargetMembers` | SNeat/Model/NetworkBuilder.cs:160-226 | the output and inner queries hold exactly the connections whose target is, or is not, an output |
| `Compiler.InnerAndOutputPartition` | SNeat/Model/NetworkBuilder.cs:160-226 | together the inner and output connections are the active connections, as a multiset |
| `Compiler.FromLayerMembers` | SNeat/Model/NetworkBuilder.cs:230-235 | the layer query holds exactly the inner connections out of a layer node |
| `Compiler.FromMembers` | SNeat/Model/NetworkBuilder.cs:83-86 | the source query holds exactly the connections out of the neuron |
| `Compiler.Remapped` | SNeat/Model/NetworkBuilder.cs:88-92 | each inner connection becomes an edge to the compiled index of its target, with its weight |
| `Compiler.Direct` | SNeat/Model/NetworkBuilder.cs:104-107 | each output connection keeps its target index and weight |
| `Compiler.FindNode` | SNeat/Model/NetworkBuilder.cs:123 | `First` finds a node exactly when the index is present, and the node it finds has it |
| `Compiler.ActivationOf` | SNeat/Model/NetworkBuilder.cs:125-139 | bias nodes compile to BIAS; others map NONE/SIGMOID/LEAKYRELU to IDENTITY/SIGMOID/LEAKYRELU, both ways |
| `Compiler.OutputLayer` | SNeat/Model/NetworkBuilder.cs:58-67 | the output layer holds exactly the output indices |
| `Compiler.NumberedNeuronsAreReachable` | SNeat/Model/NetworkBuilder.cs:72-79 | every compiled non-output neuron lies in every set that contains the bias and inputs and is closed under inner connections |
| `Compiler.LayerTargetListed` | SNeat/Model/NetworkBuilder.cs:230-237 | the target of an inner connection out of the layer is a group key |
| `Compiler.DistinctWithin` | SNeat/Model/NetworkBuilder.cs:76-79 | a duplicate-free list of targets is no longer than the set of targets, so the layer search ends |
| `Compiler.HiddenBound` | SNeat/Model/NetworkBuilder.cs:76-79 | every discovered hidden neuron is an inner target, so no more than the fixed count plus the targets are mapped |
| `Compiler.LayerNeurons` | SNeat/Model/NetworkBuilder.cs:242 | a run of map entries compiles exactly the corresponding neurons |
| `Compiler.MapInvariantAppend` | SNeat/Model/NetworkBuilder.cs:242-252 | mapping a new neuron reached from an earlier non-output neuron keeps the map invariant |
| `Compiler.FirstLayerClosed` | SNeat/Model/NetworkBuilder.cs:72-74 | with only the fixed nodes mapped, every non-output neuron is in the first layer |
| `Compiler.LayerStepClosed` | SNeat/Model/NetworkBuilder.cs:76-79 | one layer step keeps "every inner edge out of a processed neuron lands in the map" |
| `Compiler.EntriesForDistinct` | SNeat/Model/NetworkBuilder.cs:83-86 | the source query finds exactly one entry for a mapped neuron and none otherwise |
| `Compiler.FindEntry` | SNeat/Model/NetworkBuilder.cs:90 | `First` on the map keys finds an entry exactly when the neuron is mapped |
| `Compiler.EntryIndex` | SNeat/Model/NetworkBuilder.cs:90 | the entry of a mapped neuron has the compiled index of its first occurrence |
| `Compiler.BumpAt` | SNeat/Model/NetworkBuilder.cs:91 | appending to the list of an entry is appending to the list of its neuron |
| `Compiler.BumpAbsent` | SNeat/Model/NetworkBuilder.cs:83-86 | a connection from an unmapped neuron adds nothing |
| `Compiler.EntriesAppended` | SNeat/Model/NetworkBuilder.cs:88-92 | appending to the entries the source query finds is appending to that neuron's list |
| `Compiler.TargetsResolvedSnoc` | SNeat/Model/NetworkBuilder.cs:81-93 | one more resolved connection extends "every mapped source's target is mapped" |
| `Compiler.InnerListsSnoc` | SNeat/Model/NetworkBuilder.cs:81-93 | one more inner connection appends its remapped edge to its source's list |
| `Compiler.OutputListsSnoc` | SNeat/Model/NetworkBuilder.cs:97-108 | one more output connection appends its direct edge to its source's list |
| `Compiler.UnmappedExplained` | SNeat/Model/NetworkBuilder.cs:90 | after the breadth-first search, an inner connection from a compiled neuron to one the search did not reach leaves an output, so the failure is explained and the genome is not compilable |
| `Compiler.MissingExplained` | SNeat/Model/NetworkBuilder.cs:123 | a neuron of the breadth-first numbering without a node gene is explained and makes the genome not compilable |
| `Compiler.BuiltUnexplained` | SNeat/Model/NetworkBuilder.cs:81-123 | when every inner target from a compiled neuron is compiled (the lookup at line 90 succeeds for each) and every compiled neuron has a node gene (line 123), no failure is explained for the genome |
| `Compiler.FixedBlockMapped` | SNeat/Model/NetworkBuilder.cs:53-67 | the fixed nodes at their own indices satisfy the map invariant |
| `Compiler.AssembledIsCompilation` | SNeat/Model/NetworkBuilder.cs:110-112 | a numbering with its activations and its inner-then-output lists gives the network `CompiledWith` that numbering, which is a compilation of the genome |
| `Compiler.UnmappedMembers` | SNeat/Model/NetworkBuilder.cs:242-252 | the keys left unmapped after `n` steps are exactly those among the first `n` keys that were not mapped before |
| `Compiler.UnmappedSnoc` | SNeat/Model/NetworkBuilder.cs:242-252 | one more key is appended exactly when it is neither mapped before nor added earlier |
| `Compiler.MirroredLayer` | SNeat/Model/NetworkBuilder.cs:228-256 | the entries of a layer in the map are `LayerOf` the neuron column |
| `Compiler.NextLayerShrinks` | SNeat/Model/NetworkBuilder.cs:76-79 | a non-empty next layer compiles an inner target that was not compiled, so the search ends |
| `Compiler.BfsStep` | SNeat/Model/NetworkBuilder.cs:76-79 | the search from a non-empty layer is the search from the layer its step appends |
| `Compiler.BfsContinues` | SNeat/Model/NetworkBuilder.cs:76-79 | after a layer step appends the unmapped targets of the layer, the search from the new layer finishes with the same numbering |
| `Compiler.BfsWithoutInner` | SNeat/Model/NetworkBuilder.cs:72-79 | without inner connections the numbering is the fixed block |
| `Compiler.NetworkBuilder.constructor` | SNeat/Model/NetworkBuilder.cs:26-31 | an empty map, and the next compiled index after the fixed nodes |
| `Compiler.NetworkBuilder.MapTarget` | SNeat/Model/NetworkBuilder.cs:242-252 | an unmapped group key is mapped at the next compiled index; a mapped one changes nothing; the numbering invariants are kept |
| `Compiler.NetworkBuilder.MapTargets` | SNeat/Model/NetworkBuilder.cs:238-253 | the `foreach` over the group keys appends exactly the keys not mapped before, in order, and leaves every key mapped |
| `Compiler.NetworkBuilder.DiscoveringEntry` | SNeat/Model/NetworkBuilder.cs:230-242 | a group key is reached by an inner edge from a non-output neuron of the layer |
| `Compiler.NetworkBuilder.NumberedIsNumbering` | SNeat/Model/NetworkBuilder.cs:76-79 | a finished search leaves a numbering of the genome |
| `Compiler.NetworkBuilder.GetOutputConnections` | SNeat/Model/NetworkBuilder.cs:160-192 | the loops return the connections whose target is an output, in order |
| `Compiler.NetworkBuilder.GetInnerConnections` | SNeat/Model/NetworkBuilder.cs:194-226 | the loops return the connections whose target is not an output, in order |
| `Compiler.NetworkBuilder.GetNextLayerNodes` | SNeat/Model/NetworkBuilder.cs:228-256 | the neuron column gains exactly the distinct inner targets of the layer not mapped before, in order of first occurrence, and the next layer is those new entries appended to the map; the numbering invariants are kept; closure moves from the old layer to the new one |
| `Compiler.NetworkBuilder.MapReachable` | SNeat/Model/NetworkBuilder.cs:72-79 | the `while` loop leaves the numbering `Bfs` of the fixed block, layer by layer from the bias and the inputs, and every inner edge out of a mapped non-output neuron lands in the map |
| `Compiler.NetworkBuilder.AddInnerConnections` | SNeat/Model/NetworkBuilder.cs:81-93 | succeeds exactly when every mapped source's target is mapped, and then leaves the remapped inner lists; otherwise it reports an unmapped target of such a connection |
| `Compiler.NetworkBuilder.AddRemapped` | SNeat/Model/NetworkBuilder.cs:88-92 | appends the remapped edge to each entry, or reports the unmapped target |
| `Compiler.NetworkBuilder.AddOutputConnections` | SNeat/Model/NetworkBuilder.cs:96-108 | appends each output connection's direct edge to its source's list |
| `Compiler.NetworkBuilder.AddDirect` | SNeat/Model/NetworkBuilder.cs:104-107 | appends the direct edge to each entry |
| `Compiler.NetworkBuilder.GetNetworkNodes` | SNeat/Model/NetworkBuilder.cs:115-146 | succeeds exactly when every mapped neuron has a node gene, giving each entry its activation; otherwise it reports a neuron without one |
| `Compiler.NetworkBuilder.GetNetworkConnections` | SNeat/Model/NetworkBuilder.cs:148-158 | the array at each compiled index is that entry's list |
| `Compiler.NetworkBuilder.MapFixedNodes` | SNeat/Model/NetworkBuilder.cs:52-67 | maps bias, inputs and outputs at their own indices and returns the output layer |
| `Compiler.NetworkBuilder.ConnectNodes` | SNeat/Model/NetworkBuilder.cs:69-108 | the neuron column is `BfsNumbering` whether the step fails or not; a failure is an output's active link to a neuron outside that numbering; otherwise every inner connection out of a compiled neuron has a compiled target, and the inner-then-output lists |
| `Compiler.NetworkBuilder.BuildNetwork` | SNeat/Model/NetworkBuilder.cs:33-113 | a result that succeeds is the compilation of the genome under `BfsNumbering`. One that fails is explained: an output's active link to a neuron outside `BfsNumbering` (line 90), or a neuron of `BfsNumbering` without a node gene (line 123). A result that succeeds leaves no failure explained, so the build fails exactly where a failure is explained. A compilable genome always succeeds |
| `BuildOrderExample.FirstStep` | SNeat/Model/NetworkBuilder.cs:228-256 | for the links 1→3, 1→4, 3→5 with one input and one output, the layer of bias and input yields `[3, 4]` |
| `BuildOrderExample.SecondStep` | SNeat/Model/NetworkBuilder.cs:228-256 | the layer `[3, 4]` yields `[5]` |
| `BuildOrderExample.LastStep` | SNeat/Model/NetworkBuilder.cs:228-256 | the layer `[5]` yields nothing |
| `BuildOrderExample.BfsOrderExample` | SNeat/Model/NetworkBuilder.cs:72-79 | the search numbers that genome's neurons `[0, 1, 2, 3, 4, 5]` |
| `BuildOrderExample.ExampleInnerOf` | SNeat/Model/NetworkBuilder.cs:194-226 | the example genome's inner connections are its three links |
| `BuildOrderExample.ExampleNumbering` | SNeat/Model/NetworkBuilder.cs:69-79 | the numbering `BuildNetwork` uses for the example genome is `[0, 1, 2, 3, 4, 5]`, so neuron 4 comes before neuron 5 |
| `BuildOrderExample.ReachedInnerOf` | SNeat/Model/NetworkBuilder.cs:194-226 | for the links 1→3 and 2→3 with one input and one output, both links are inner |
| `BuildOrderExample.ReachedNumbering` | SNeat/Model/NetworkBuilder.cs:72-79 | that genome's numbering is `[0, 1, 2, 3]`: 3 is reached from the input |
| `BuildOrderExample.ReachedTargetBuilds` | SNeat/Model/NetworkBuilder.cs:81-123 | no failure is explained for that genome, so `BuildNetwork` cannot fail on it although a link leaves the output: the lookup at line 90 finds 3 |
| `BuildOrderExample.UnreachedNumbering` | SNeat/Model/NetworkBuilder.cs:72-79 | for the single link 2→3 out of the output, the search from bias and input reaches nothing: the numbering is `[0, 1, 2]` |
| `BuildOrderExample.UnreachedTargetFails` | SNeat/Model/NetworkBuilder.cs:90 | that genome's failure is explained: the link out of the output ends at 3, which the search never reached |
| `BuildOrderExample.UnreachedBuild` | SNeat/Model/NetworkBuilder.cs:81-92 | every build of that genome fails, as the lookup at line 90 throws for target 3 |

## Left out

- `NeatNetwork` is not part of this model. Activation, training and its floating-point arithmetic are
  beyond what is modelled. The builder's result is the four constructor arguments.
- Weights are `real` values that the structural code only copies. `GenerateWeight`, `RandomWeight`,
  `PeturbWeight` and the double-valued probabilities of `MutationParameters` are left out. Weight
  mutation takes the new weight of each gene as an optional draw.
- `System.Random` is left out. Each draw is a parameter: the chance of each step, the index of the vacant
  link or split candidate, and the weights. `Random.Next(n)` is modelled as `draw % n` (`0` when `n == 0`),
  which covers every value in range.
- `GenomeValues.Next`: does not model the exception `Random.Next` throws for a negative bound. The
  integer weights of `MutationParameters` and its `mutationCount` are modelled as naturals. A negative
  `MutationCount` makes the loop at NeatGenome.cs:255 run no step, as `mutationCount` 0 does here; the
  model cannot hold the negative value itself.
- `Innovations.InnovationTracker.AddInnovationConnection` and `SplitInnovationConnection`: the connection
  and neuron counters are unbounded integers. The source's `int` counters would wrap after
  2147483647 numbers; the model does not capture that.
- Locks, the `volatile` field and the parallel loops of the population are left out. Concurrency is not
  modelled.
- `InnovationTracker.GetTracker` is not modelled as a singleton. The shared registry is passed to each
  genome instead. Because the singleton is built from the same parameters as every genome,
  `CreateInitialGenome` requires a registry that already records the input→output links.
- `DumpToJson` and the console output (`PrintNetMap`) are left out: they are I/O only.
- Genes are values in the dictionary. The source keeps gene objects, but no gene object is shared
  between two genomes or two dictionaries: every copy and crossover makes new ones. So updates in place
  (disable, weight change) are map updates here.
- Dictionary enumeration order is modelled as the order of the id list. This is the insertion order,
  because the dictionary never loses a key.
- Genomes.NeatGenome.MutateAddNode: requires a valid genome. On an uninitialised genome the source
  indexes an empty candidate list and throws; that case is excluded rather than modelled.
- Genomes.NeatGenome.MutateAddConnection: requires a valid genome with a vacant link. The source only
  calls it when one exists, and validity is what makes its `Dictionary.Add` succeed.
- Genomes.NeatGenome.Crossover: requires the first parent's counts to be positive. The source's
  `NetworkParameters` constructor would throw otherwise, and every genome built from checked parameters
  has positive counts.
- Genomes.NeatGenome.Crossover: does not itself ensure that the child is valid. That follows from its
  `ensures` together with `GenomeCrossover.CrossoverKeepsCoherent`.
- Genomes.NeatGenome.CreateInitialGenome: requires an empty genome. Calling it twice throws on a
  duplicate key in the source, and is not modelled.
- `INeatGenome`, `GenomeUtils.cs`, the MNIST and CNN models and `Program.cs` are not part of this model.

## Findings

| source | as written | input that shows it | evidently intended | confidence | as-written member | corrected member |
|---|---|---|---|---|---|---|
| SNeat/Model/PopulationParameters.cs:23-24 | the guard adds `bestChildCount + archiveSize` as unchecked 32-bit `int`, so a sum above `int.MaxValue` wraps to a negative number and passes | `PopulationParameters(2, 0, int.MaxValue, 1)` is accepted. The best-child loop of `XorModel.Search` reads only `_population[1]`, and then the random-child count wraps to a negative number, which `Enumerable.Range` at XorModel.cs:146 rejects | the sum compared without overflow, e.g. `bestChildCount > populationSize - archiveSize` | not executed | `PopulationConfig.AcceptedOverflowingCounts` | `PopulationConfig.CheckedParametersAreSafe` |
| SNeat/Model/PopulationParameters.cs:23-24 | the guard only checks `bestChildCount + archiveSize <= populationSize`. It accepts `bestChildCount == populationSize`, yet the best-child loop in `XorModel.Search` reads `_population[i]` for `i` in `1..bestChildCount` | `PopulationParameters(1, 0, 0, 1)` is accepted, and the loop then reads `_population[1]` of a one-individual population | `bestChildCount < populationSize` (position 0 holds the best individual itself) | not executed | `PopulationConfig.AcceptedBestChildIndexOutOfRange` | `PopulationConfig.CheckedParametersAreSafe` |
