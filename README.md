# NEAT genome layer in Dafny

This project models the genome and graph layer of a Java implementation of
NEAT, the neuro-evolution algorithm that evolves weighted, directed,
acyclic networks ("genomes") of node genes and connection genes. It also
states and proves properties of that model. The model covers:

- **Genes.** A node gene has an id, taken from a shared counter, and a layer
  (input, hidden, output). It also has the three search fields that the
  strongly-connected-component check uses. A connection gene has an
  innovation number, two end nodes, a weight and an `active` flag.
- **The registry.** This is the core's two maps: node id to node, and
  innovation number to connection. Every genome consults it, so that the
  same structural mutation in two genomes is recognised as one gene.
- **Genomes.**
  - Crossover (`breed`) aligns two parents by innovation number.
  - The node mutation splits a connection.
  - The connection mutation adds a connection.
  - The weight mutation adjusts weights.
  - The backward path search guards acyclicity.
  - The compatibility distance is used for speciation.
  - The recursive network evaluation (`computeOutput`) computes outputs.
- **Tarjan's strongly-connected-component search.** It decides whether a
  genome's connections close a loop.
- **Species.** Member lists and a leader.
- **The core.** Its base topology, its population, and the pruning and
  counter of its generation loop.
- **Population policies.** The three kill policies and the two mutate
  policies.

The model takes the program's own form:

- The objects whose fields the Java code updates in place (`NodeGene`,
  `ConnectionGene`, `Genome`, `Tarjan`, `Species`, `Core`, the `PERCENTILE`
  kill policy) are Dafny classes, and their updates are methods with
  `modifies` frames.
- Pure computations (`compareTo`, `equals2`, the counts of the distance)
  are functions.
- Loops are `while`/`for` loops proved against specification functions:
  - `Distance` for the distance;
  - `Settled`/`Sound` for evaluation;
  - `Searching` and the component predicates for Tarjan;
  - `Kept`, `Filed`, `Cull`, `Sort` and `Total` for the population code.

Every random draw becomes a parameter: `Constants.rand`, and the iteration
order of Java hash maps wherever a decision depends on it. These are:

- `UnitReal` for `nextFloat`;
- a range-checked `nat` for `nextInt`;
- a per-gene choice function for `nextBoolean` in crossover;
- a set of generation counts for the stopping check;
- for hash-map iteration, a choice made with `:|`, so each property is proved
  for every iteration order.

Nodes are keyed by id wherever Java keys a hash map by `NodeGene`. No class
overrides `hashCode`, so those maps are keyed by object identity. Keying by
id gives the same map because the program makes exactly one `NodeGene` per
id: only Core.java:45, Core.java:49 and Genome.java:359 create them, and
every genome, gene and copy shares those objects. Weights and fitness are `real`.

Behaviour of the code that the model follows and proves, where it is not
what a reader would expect:

- **Tied crossover only.** Only a tied crossover (equal fitness) takes
  disjoint and excess genes. The fitter-parent branch (Genome.java:210-218)
  iterates over the matching genes again, not over the fitter parent's
  remaining genes. Its path check always finds the connection already
  present, so that branch adds nothing (`Genomes.Genome.RecheckMatchings`).
- **Base genomes lack an index.** The genomes that `Core.initialize` builds
  have no `nodeInputs` entries (`addConnections`/`addNodes` do not touch
  the index). On such a genome, `computeOutput` gives 0 for every output.
  Only two steps of a mutation read the index. A node mutation that fires
  on a genome with connections reads it at Genome.java:403. A connection
  mutation that gets as far as the path search (Genome.java:454 and 468,
  `Genomes.Genome.SearchesPath`) reads it at Genome.java:544. On a base
  genome each of these dereferences a missing entry and throws. The
  mutation methods require `Valid()` only on those two paths. On every
  other path they accept base genomes, where a round changes the weights
  and nothing else.
- **Split selection.** `mutateNodeGene` draws the split index over all
  connections (Genome.java:372) but indexes the list of active ones. The
  model requires the draw to be below the active count.
- **Split membership checks.** The split's `connections.contains` checks
  (Genome.java:390, 404) always succeed in letting the connection through:
  both connections are new edges.
- **Species leader.** `Species.kill` draws the new leader before removing
  `g`, so `g` can stay leader although it is no longer a member; this
  happens exactly when the draw hits `g` and `g` was a member once
  (`SpeciesGroups.LeaderMayBeRemoved`).
- **BOTTOM_HALF order.** `BOTTOM_HALF` sorts the core's own list, so its
  survivors are in ascending fitness order, not in their original relative
  order. `RANDOM_UNIFORM` survivors do keep their original order.
- **PERCENTILE total.** The running total `sum` of `PERCENTILE` is a field of
  the enum constant and carries over from one call to the next.
- **PRESERVE_TOP identity.** `PRESERVE_TOP` spares a genome by reference
  (`g != max`), not by fitness.
- **Lone self-edge.** Tarjan's `containsLoop` reports a loop only when some
  component has two or more nodes. A lone self-edge is not reported.

## Model

| member | source | states |
|---|---|---|
| Basics.IdCounter.GetAndIncrement | src/network/NodeGene.java:18 | the shared counter yields its current value and advances by one |
| NodeGenes.NodeGene.constructor | src/network/NodeGene.java:29-32 | the id is the counter's next value, the counter advances, the layer is the given one, and the search fields start unset |
| NodeGenes.NodeGene.SetIndex | src/network/NodeGene.java:49-51 | sets `index` and only `index` |
| NodeGenes.NodeGene.SetLowlink | src/network/NodeGene.java:57-59 | sets `lowlink` and only `lowlink` |
| NodeGenes.NodeGene.SetOnStack | src/network/NodeGene.java:65-67 | sets `onStack` and only `onStack` |
| NodeGenes.NodeGene.Reset | src/network/NodeGene.java:69-73 | clears index and lowlink and lowers the on-stack flag, touching nothing else |
| NodeGenes.NodeEqualsIsIdEquality | src/network/NodeGene.java:82-89 | node equality is reflexive, symmetric and transitive, and holds exactly for equal ids |
| ConnectionGenes.ConnectionGene.constructor | src/network/ConnectionGene.java:37-42 | takes the counter's next innovation number, keeps the given ends, starts active with the random weight of the draw |
| ConnectionGenes.ConnectionGene.Copying | src/network/ConnectionGene.java:53-59 | same ends, number and weight, always active |
| ConnectionGenes.ConnectionGene.Copy | src/network/ConnectionGene.java:120-122 | a fresh object with the same number, ends and weight, active whatever the original's flag |
| ConnectionGenes.ConnectionGene.CompareTo | src/network/ConnectionGene.java:144-150 | negative exactly when the number is smaller, zero exactly when `equals` holds |
| ConnectionGenes.CompareToIsTotalOrder | src/network/ConnectionGene.java:144-150 | `compareTo` is antisymmetric, transitive and total |
| ConnectionGenes.Equals2ById | src/network/ConnectionGene.java:139-141 | `equals2(a, b)` holds exactly when the input has `a`'s id and the output `b`'s |
| ConnectionGenes.ConnectionGene.SetWeight | src/network/ConnectionGene.java:108-110 | sets the weight and nothing else |
| ConnectionGenes.ConnectionGene.SetActive | src/network/ConnectionGene.java:112-114 | sets the flag; the weight is unchanged |
| ConnectionGenes.RandomWeight | src/network/ConnectionGene.java:88-90 | a random weight lies in [LOWER_WEIGHT_BOUND, UPPER_WEIGHT_BOUND) |
| ConnectionGenes.ConnectionGene.MutateWeightRandom | src/network/ConnectionGene.java:88-90 | the weight becomes the random weight of the draw |
| ConnectionGenes.ConnectionGene.MutateWeightUniform | src/network/ConnectionGene.java:76-83 | the step is taken exactly when the gate draw is below WEIGHT_PROB, and then moves the weight by at most UNIFORM_WEIGHT_CHANGE in the drawn direction; otherwise the weight is unchanged |
| ConnectionGenes.MutatedWeight | src/network/ConnectionGene.java:64-69 | after `mutate` the weight moved by less than UNIFORM_WEIGHT_CHANGE when the gate opened, and is a fresh random weight otherwise |
| ConnectionGenes.ConnectionGene.Mutate | src/network/ConnectionGene.java:64-69 | the uniform step first, the random reassignment only when it was not taken |
| GeneRegistry.Registry.PutNode | src/network/Core.java:46 | registers a node under its id and keeps the registry's invariant |
| GeneRegistry.Registry.PutConnection | src/network/Core.java:56 | registers a connection under its number between two distinct registered nodes not yet joined, keeping the invariant |
| GeneRegistry.Registry.FindConnection | src/network/Genome.java:376-381 | nothing is found exactly when no registered connection runs between the two nodes by id; what is found is registered and runs between them |
| GeneRegistry.Registry.FoundIsUnique | src/network/Genome.java:377-381 | in a valid registry the connection found is the only one joining its ends, so the scan's order does not matter |
| GeneViews.FirstIndexOf | src/network/Genome.java:279 | `indexOf`: the first position carrying the number, or -1 when none does |
| GeneViews.LastIndexOf | src/network/Genome.java:107-112 | the last position carrying the number: the entry a map filled in list order keeps |
| GeneViews.NodesOfLayers | src/network/Genome.java:128 | the layer filter keeps exactly the listed nodes of the given layers |
| GeneViews.ActiveOf | src/network/Genome.java:371 | the active filter keeps exactly the active connections |
| GeneViews.MaxInnovation | src/network/Genome.java:254-267 | the running maximum bounds every number and is 0 or one of them |
| GeneViews.InsertByInnovationSorted | src/network/Genome.java:291 | insertion keeps a list sorted by innovation number |
| GeneViews.SortByInnovation | src/network/Genome.java:291 | `Collections.sort` on connections: a permutation sorted by innovation number |
| GeneViews.HasInnovationIffMember | src/network/ConnectionGene.java:131-137 | `contains` on connections holds exactly for the numbers listed |
| GeneViews.HasIdIffMember | src/network/NodeGene.java:82-89 | `contains` on nodes holds exactly for the ids listed |
| GeneViews.AcyclicLoopless | src/network/Genome.java:177 | an acyclic connection list joins no node to itself |
| Graphs.ClosedSetUnreachable | src/network/Genome.java:540-555 | a seen set closed under predecessors that holds the target and never met the start proves the start does not reach the target |
| Graphs.AddEdgeAcyclic | src/network/Genome.java:454-461 | adding a -> b to an acyclic graph keeps it acyclic when b does not reach a |
| Graphs.SplitEdgeAcyclic | src/network/Genome.java:371-405 | splitting an edge through an untouched node keeps the graph acyclic |
| GenomeIndex.EnsureEntries | src/network/Genome.java:160-163 | every listed node gets an entry; existing entries are unchanged and new ones empty |
| GenomeIndex.FileMatches | src/network/Genome.java:152 | filing a new connection under its output keeps the index in step with the list it joins |
| Genomes.Genome.constructor | src/network/Genome.java:71-76 | an empty genome of the core |
| Genomes.Genome.Bred | src/network/Genome.java:58-64 | a genome built from the given parts |
| Genomes.Genome.ShapedIndex | src/network/Genome.java:544 | in a shaped genome the index describes exactly the connection list's edges |
| Genomes.Genome.ContainsPath | src/network/Genome.java:534-538 | the path search answers true exactly when the start reaches the end along the index's edges |
| Genomes.Genome.CheckForPath | src/network/Genome.java:540-555 | a success is a real path; a failure leaves every newly seen node expanded, all predecessors seen and none the start |
| Genomes.Genome.EnsureEntry | src/network/Genome.java:172-175 | gives a node an entry if it lacks one; the index's edges are unchanged |
| Genomes.Genome.AddGene | src/network/Genome.java:178-183 | appends the gene, adds exactly its edge, lists its missing end nodes and keeps ids distinct |
| Genomes.Genome.OfferGene | src/network/Genome.java:170-185 | the gene joins exactly when its output does not reach its input, and then keeps the graph acyclic; otherwise nothing changes |
| Genomes.Genome.OfferAll | src/network/Genome.java:170-186 | the genome grows by exactly the genes whose coin came up and which close no cycle, each with its end nodes |
| Genomes.Genome.RecheckMatchings | src/network/Genome.java:210-218 | the fitter-parent loop adds nothing: connections, nodes and index stay as they were |
| Genomes.CopyByInnovation | src/network/Genome.java:107-112 | each number maps to a fresh active copy of the last gene carrying it |
| Genomes.ParentCopies | src/network/Genome.java:104-123 | both parents copied by number, and the numbers both carry set apart with their copies |
| Genomes.InheritedCopy | src/network/Genome.java:136-141 | a fresh copy of the better parent's gene with the weight the coin chose |
| Genomes.WithNode | src/network/Genome.java:143-146 | adds the node's id only, at the end, keeping ids distinct |
| Genomes.MatchingGenes | src/network/Genome.java:132-153 | the child holds one fresh copy per shared number, each with the chosen parent's weight, its end nodes listed and an index in step |
| Genomes.MatchedDescends | src/network/Genome.java:135-141 | a matching gene descends from both parents with the chosen weight |
| Genomes.Genome.MatchedChild | src/network/Genome.java:104-166 | the first half of crossover: copies, matching genes, the input and output nodes first, a shaped child whose numbers are exactly the shared ones |
| Genomes.Genome.TiedRounds | src/network/Genome.java:168-204 | the tied rounds add only remaining genes of either parent whose coin came up, keep numbers distinct and keep acyclicity |
| Genomes.TiedDescends | src/network/Genome.java:168-204 | every gene after the tied rounds is a matching gene or a coin-selected gene of exactly one parent |
| Genomes.Genome.BreedTied | src/network/Genome.java:168-204 | the tied crossover: every child gene descends from the parents; shared numbers are all present; an acyclic result |
| Genomes.Genome.BreedFitter | src/network/Genome.java:205-233 | the fitter-parent crossover: exactly the shared numbers, each a fresh active copy of the fitter parent's gene with the chosen weight |
| Genomes.Genome.FinishFitter | src/network/Genome.java:210-232 | the recheck and the entry loop change neither connections nor nodes |
| Genomes.Genome.BreedOrdered | src/network/Genome.java:103-235 | the private breed: shaped fresh child, distinct numbers, every shared number present, every gene descended from a parent, acyclic when the parents are |
| Genomes.Genome.Breed | src/network/Genome.java:84-93 | the fitter genome is the better parent and ties randomize; every child gene descends accordingly and the child is acyclic when both parents are |
| Genomes.Genome.ComputeDistance | src/network/Genome.java:244-320 | the result is `Distance` of the two lists; only the "max" genome's list is sorted in place |
| Genomes.Genome.AddSplitNode | src/network/Genome.java:347-369 | a core node the genome lacks, or a new registered hidden node only when it lacks none; listed last, with an empty entry, nothing else changed |
| Genomes.Genome.CoreConnectionFor | src/network/Genome.java:376-386 | the core's connection between the two nodes when there is one; otherwise a new registered one with the given weight |
| Genomes.Genome.JoinSplit | src/network/Genome.java:387-405 | the two split connections, weight 1 and the split weight when new, are filed and appended, keeping validity and acyclicity |
| Genomes.Genome.SplitConnection | src/network/Genome.java:371-405 | the split as `SplitBy` describes, acyclic when the genome was |
| Genomes.SplitParts | src/network/Genome.java:371-405 | the split at the level of the parts keeps the genome in good standing; the two connections carry new numbers |
| Genomes.Genome.MutateNodeGene | src/network/Genome.java:338-406 | no change without connections or when the draw is at least NODE_PROB; otherwise one node and two connections more, the chosen active connection switched off, validity and acyclicity kept |
| Genomes.EndNodes | src/network/Genome.java:436-439 | exactly the listed hidden and output nodes other than the start |
| Genomes.FirstFreeEnd | src/network/Genome.java:441-451 | the first end node that no candidate joins the start to, or none |
| Genomes.UnusedEdgeNew | src/network/Genome.java:424-428 | an unused candidate joins two distinct listed nodes by an edge the genome lacks |
| Genomes.FreeEdgeNew | src/network/Genome.java:441-449 | a free end is joined to the start by no connection of the core, hence by none of the genome's |
| Genomes.Genome.ReuseConnection | src/network/Genome.java:462-472 | a copy of the unused core connection is added exactly when its output does not reach its input |
| Genomes.Genome.RegisterConnection | src/network/Genome.java:455-459 | the new connection takes the core's next innovation number, is active with the drawn weight and joins the core's map under that number |
| Genomes.Genome.AddNewConnection | src/network/Genome.java:455-460 | a new registered connection from start to end, of which the genome gets an active copy appended and filed under `end`; the listed weights are kept |
| Genomes.Genome.NewConnection | src/network/Genome.java:450-461 | nothing changes when the end reaches the start; otherwise a new registered connection, of which the genome gets a copy |
| Genomes.Genome.MutateConnectionGene | src/network/Genome.java:412-473 | requires validity only when the draw fires and the path search is reached; otherwise nothing changes, so base genomes are accepted; the reuse or creation branch, at most one connection appended, the listed weights kept, validity and acyclicity kept |
| Genomes.Genome.MutateWeights | src/network/Genome.java:328-330 | every listed connection's weight is its mutated weight, each mutated once |
| Genomes.Genome.SplitThenWeigh | src/network/Genome.java:327-330 | the node mutation, then every connection then listed gets its mutated weight; each connection listed on entry ends with the weight `mutate` gives it from its draw |
| Genomes.Genome.Mutate | src/network/Genome.java:326-332 | requires validity only on the paths that read the index; keeps a valid genome valid and an acyclic one acyclic; nodes and connections only appended, at most one node and three connections; each connection listed on entry gets its mutated weight; when neither structural mutation fires, only weights change |
| Genomes.Genome.BindInputs | src/network/Genome.java:482-487 | exactly the core's nodes with ids below the input length are bound, each to its input |
| Genomes.Genome.ComputeNodeOutput | src/network/Genome.java:503-532 | the node gets a value that satisfies its evaluation equation; earlier values stay; new values belong to its ancestors; acyclic small indexes never give up |
| Genomes.Genome.SettleLeaf | src/network/Genome.java:506-509 | a node without an entry gets the value 0 and nothing else changes; with sound values it is settled and the values stay sound |
| Genomes.Genome.SettleNode | src/network/Genome.java:510-531 | a node with an entry gets the activation of its inputs' weighted sum; earlier values stay; new values belong to its ancestors; acyclic small indexes never give up |
| Genomes.Genome.SumInputs | src/network/Genome.java:510-524 | the sum is the weighted sum of the entry, active or not, every input valued |
| Genomes.Genome.ValueInput | src/network/Genome.java:513-523 | an input without a value is evaluated one level deeper; evaluation gives up above MAX_RECURSION |
| Genomes.Genome.EvaluateOutput | src/network/Genome.java:491-494 | evaluates one output node and keeps the values sound |
| Genomes.Genome.ComputeOutput | src/network/Genome.java:481-496 | one value per output node in list order; under `Evaluable` each is its node's settled value; acyclic small indexes never give up |
| Evaluation.FinishLeaf | src/network/Genome.java:506-508 | a node without an entry settles at 0 |
| Evaluation.FinishNode | src/network/Genome.java:510-531 | storing the activation of the weighted sum settles the node and keeps the values sound |
| Evaluation.ChainBound | src/network/Genome.java:514 | in an acyclic index the recursion nests less deeply than there are entries |
| Genomes.Genome.AddConnections | src/network/Genome.java:573-575 | appends the connection objects themselves |
| Genomes.Genome.AddNodes | src/network/Genome.java:589-591 | appends the nodes |
| Genomes.Genome.CompareTo | src/network/Genome.java:599-605 | the result is -1, 0 or 1: positive exactly when this genome is fitter, negative exactly when it is less fit, 0 exactly for equal fitness |
| Genomes.CompareToIsTotalOrder | src/network/Genome.java:599-605 | `compareTo` is antisymmetric, transitive and total on fitness |
| Distances.ScanNewest | src/network/Genome.java:254-267 | the scan's maximum rises exactly when the list holds a larger number |
| Distances.FirstGene | src/network/Genome.java:279-281 | the gene `indexOf` finds is the first carrying the number |
| Distances.MatchingPairs | src/network/Genome.java:274-284 | both matching maps are keyed by exactly the shared numbers, with the max list's last and the other list's first gene |
| Distances.SortKeepsGenes | src/network/Genome.java:291 | the in-place sort keeps the genes |
| Distances.LowestGap | src/network/Genome.java:294-302 | the first gap from a position on, or none |
| Distances.ExcessCount | src/network/Genome.java:294-302 | the excess count is the number of genes after the lowest gap, or 0 |
| Distances.ExcessScan | src/network/Genome.java:294-302 | the scan computes `ExcessCount` |
| Distances.ExcessCountSameGenes | src/network/Genome.java:298 | the excess count depends on the other list only as a set |
| Distances.WeightGaps | src/network/Genome.java:312-315 | one non-negative weight difference per shared number |
| Distances.SumGaps | src/network/Genome.java:311-315 | the loop sums the weight differences over the shared numbers, in any order |
| Distances.MeanGap | src/network/Genome.java:309-317 | the mean weight gap, 0 when nothing matches |
| Distances.MatchStats | src/network/Genome.java:274-317 | the number of shared numbers and the mean weight gap |
| Distances.DistanceOf | src/network/Genome.java:305-319 | the source's formula assembles exactly `OrderedDistance` |
| Distances.DistanceParts | src/network/Genome.java:305-319 | excess plus disjoint is the number of unmatched genes, and the distance is never negative |
| Distances.MeanWeightGapNonNegative | src/network/Genome.java:309-317 | the mean weight gap is never negative |
| Distances.MeanWeightGapZero | src/network/Genome.java:309-317 | equal weights on every shared number give a mean gap of 0 |
| Distances.SelfDistance | src/network/Genome.java:244-320 | a genome with distinct numbers is at distance 0 from itself |
| Distances.DistanceSymmetric | src/network/Genome.java:244-320 | with distinct numbers the distance does not depend on which genome measures |
| Distances.MeanWeightGapSwap | src/network/Genome.java:309-317 | with distinct numbers the mean gap does not depend on which list is the "max" one |
| Tarjans.Outgoing | src/network/Tarjan.java:35 | exactly the connections leaving the node, active or not, in list order |
| Tarjans.Tarjan.ContainsLoop | src/network/Tarjan.java:14-26 | every node is indexed and in exactly one component; the answer holds exactly when a component has two or more nodes, and then the graph has a cycle |
| Tarjans.Tarjan.Start | src/network/Tarjan.java:15-19 | fresh counter, stack and component list, every node's search fields reset |
| Tarjans.Tarjan.SearchAll | src/network/Tarjan.java:20-24 | after the loop every node is indexed, the stack is empty and the search invariant holds |
| Tarjans.Tarjan.StrongConnect | src/network/Tarjan.java:28-55 | the search from an unvisited node keeps the invariant and ends with the node popped as a root or stacked above an older node |
| Tarjans.Tarjan.Visit | src/network/Tarjan.java:29-33 | index and lowlink from the counter, counter advanced, node pushed |
| Tarjans.Tarjan.Follow | src/network/Tarjan.java:36-42 | following one edge keeps the search invariant, with `v` still in place on the stack above what lay below it |
| Tarjans.Tarjan.Descend | src/network/Tarjan.java:37-39 | the search from an unvisited target, then the lowering, keep the search invariant around `v` |
| Tarjans.Tarjan.Adopt | src/network/Tarjan.java:39 | after the target's completed search, lowering `v`'s lowlink restores the invariant around `v` |
| Tarjans.Tarjan.Lower | src/network/Tarjan.java:39-41 | the lowlink becomes the minimum of the two |
| Tarjans.Tarjan.PopComponent | src/network/Tarjan.java:45-54 | the nodes down to the root leave the stack as one new component |
| Tarjans.Tarjan.PopTo | src/network/Tarjan.java:46-52 | pops down to and including the root, in popping order |
| Tarjans.Tarjan.Pop | src/network/Tarjan.java:49-50 | pops the top and clears its on-stack flag |
| TarjanSearch.Conclude | src/network/Tarjan.java:25 | the components partition the nodes; fewer components than nodes exactly when one has two or more nodes, and then there is a cycle |
| TarjanSearch.PoppedComponent | src/network/Tarjan.java:45-54 | the nodes above a root that reach it and are reached from it form a component |
| TarjanSearch.RootTest | src/network/Tarjan.java:45 | comparing a visited node's lowlink and index as values is comparing the numbers, and the lowlink never exceeds the index |
| Tarjans.BoxedRootTest | src/network/Tarjan.java:45 | the boxed `==` agrees with numeric equality up to index 127 and fails from 128 on |
| Tarjans.BoxedRootMissed | src/network/Tarjan.java:45 | a root with index 128 fails the boxed test |
| Tarjans.BoxedEdgelessSearch | src/network/Tarjan.java:14-55 | the search as written on n nodes without connections finds n components up to 128 nodes and 128 from then on, and reports a loop exactly when n is at least 129 |
| SpeciesGroups.Species.constructor | src/network/Species.java:12-16 | a new species has its leader as its sole member |
| SpeciesGroups.Species.AddGenome | src/network/Species.java:18-20 | appends the member; the leader is unchanged |
| SpeciesGroups.Species.Kill | src/network/Species.java:22-28 | removes the first occurrence and reports whether there was one; a killed leader is replaced by the drawn member of the list before removal |
| SpeciesGroups.LeaderMayBeRemoved | src/network/Species.java:22-28 | after `kill` of the leader, the newly drawn leader is no longer a member exactly when the draw hit the killed genome and it was a member once |
| SpeciesGroups.Truncate | src/network/Species.java:31 | the `(int)` cast truncates toward zero on both signs |
| SpeciesGroups.CountToRemoveBounds | src/network/Species.java:31 | for a fraction in [0, 1] the count is the floor of `size * (1 - fraction)` in exact reals, between 0 and size |
| SpeciesGroups.Species.KillRandom | src/network/Species.java:30-38 | removes the count of members at the drawn positions, returning them in removal order; removed and remaining are the original multiset; the leader is unchanged |
| SpeciesGroups.Species.SetRandomLeader | src/network/Species.java:40-42 | the member at the drawn position becomes leader |
| ListRemovals.RemoveAt | src/data/KillMethod.java:18 | `remove(int)`: one element fewer, the others in order |
| ListRemovals.FirstIndex | src/network/Species.java:27 | the first occurrence, or -1 when absent |
| ListRemovals.RemoveFirst | src/network/Species.java:27 | `remove(Object)`: one copy fewer when present, otherwise unchanged |
| ListRemovals.Cull | src/data/KillMethod.java:27-29 | removal at drawn positions in turn: remaining plus removed is the original multiset |
| ListRemovals.CullKeepsOrder | src/data/KillMethod.java:27-29 | what remains keeps its original relative order |
| Cores.Core.constructor | src/network/Core.java:18-21 | empty registry, population and species |
| Cores.Core.AddLayer | src/network/Core.java:44-51 | creates the nodes of one layer with consecutive ids and registers each under its id |
| Cores.Core.ConnectRow | src/network/Core.java:54-58 | one registered connection from the input node to each output node |
| Cores.Core.ConnectLayers | src/network/Core.java:53-59 | one registered connection per (input, output) pair, input-major, pairwise distinct ends |
| Cores.Core.Populate | src/network/Core.java:61-66 | new genomes, each holding the base connection objects themselves and the nodes, with an empty index |
| Cores.Core.Initialize | src/network/Core.java:42-68 | input nodes then output nodes registered by id; `numInputs * numOutputs` base connections, one per pair; `populationSize` distinct fresh genomes sharing them, no index entries; generation 0 |
| Cores.KeptMembers | src/network/Core.java:86-91 | exactly the species with members survive |
| Cores.KeptInOrder | src/network/Core.java:86-91 | survivors keep their order |
| Cores.KeptAllMembered | src/network/Core.java:86-91 | a list of non-empty species is kept whole |
| Cores.KeptIdempotent | src/network/Core.java:86-91 | pruning twice prunes nothing more |
| Cores.Core.PruneEmpty | src/network/Core.java:86-91 | the species list becomes the pruned list |
| Cores.Core.Generation | src/network/Core.java:86-97 | prunes the species and advances the counter by one |
| Cores.Core.Evolve | src/network/Core.java:68-109 | runs at least once, stops exactly at the first count reaching the limit or where the check succeeds, and leaves only non-empty species |
| KillMethods.FitnessOf | src/data/KillMethod.java:37 | each genome's fitness, read once |
| KillMethods.Insert | src/data/KillMethod.java:15 | insertion adds exactly the genome |
| KillMethods.InsertAscending | src/data/KillMethod.java:15 | insertion keeps a list ascending by fitness |
| KillMethods.Sort | src/data/KillMethod.java:15 | `Collections.sort` on genomes: a permutation ascending by fitness |
| KillMethods.DropFront | src/data/KillMethod.java:17-19 | `remove(0)` repeated: the list without its first `n` genomes |
| KillMethods.SplitAscending | src/data/KillMethod.java:15-19 | in a sorted list every genome before the cut is no fitter than any after it |
| KillMethods.BottomHalf | src/data/KillMethod.java:11-20 | removes `size / 2` genomes; removed plus survivors are the original multiset; survivors ascending; every removed genome no fitter than any survivor |
| KillMethods.RandomUniform | src/data/KillMethod.java:22-30 | removes exactly `size / 2` genomes at in-range drawn positions; survivors are a sub-multiset in original order |
| KillMethods.TotalFitness | src/data/KillMethod.java:37 | the list's total fitness |
| KillMethods.Spin | src/data/KillMethod.java:41-49 | the first position where the running total reaches the target, or -1 when none does |
| KillMethods.Percentile.constructor | src/data/KillMethod.java:33 | the running total starts at 0 |
| KillMethods.Percentile.Kill | src/data/KillMethod.java:32-52 | at most `size / 2` removed, one per spin; removed plus survivors the original multiset; the total grows by all fitness and shrinks by the removed genomes' |
| MutateMethods.PreserveOld | src/data/MutateMethod.java:12-20 | exactly the last `size / 2` genomes are mutated, in order; the first `size - size / 2` are not |
| MutateMethods.MaxIndex | src/data/MutateMethod.java:26 | `Collections.max`: a genome of greatest fitness, and no earlier genome as fit |
| MutateMethods.Without | src/data/MutateMethod.java:27 | the filter removes every occurrence of the spared genome and keeps every other |
| MutateMethods.PreserveTop | src/data/MutateMethod.java:22-29 | per species, the members other than its first fittest genome |
| MutateMethods.TopSpared | src/data/MutateMethod.java:25-28 | the first fittest member is spared; every other member is mutated; nothing else is |

## Left out

- Printing and I/O: `NotifiableList`'s message, the path-search and progress prints, `toString`, and the best-of-generation report in `Core.evolve` (Core.java:98-106), which only prints.
- `System.exit` in `computeNodeOutput` (Genome.java:514-519) is modelled as a failed evaluation (`ok == false`), not as the end of the process.
- Float arithmetic: weights, fitness, the distance and the PERCENTILE totals are `real`, so rounding is not modelled.
- SpeciesGroups.CountToRemoveBounds: the count is `size * (1 - fraction)` in exact real arithmetic. Species.java:31 computes it in `float`, and the rounding can carry the product across an integer, so the count can differ by one. With 1000 members and the float 0.1f, Java removes 900 members and the model 899.
- SpeciesGroups.Species.KillRandom: removes the exact-real count of `SpeciesGroups.CountToRemove`, which can be one less or one more than the `float` count at Species.java:31 near an integer boundary.
- The activation functions (`ActivationFunction.java`) are parameters `hidden` and `output` with no properties assumed.
- `Speciation.java`, `BreedMethod.java`, the fitness heuristic and its stopping check, and `Tester.java` are not part of this model.
- Cores.Core.Evolve: the loop body models only the pruning of emptied species and the counter. Fitness scoring, speciation, the kill, breed and mutate policies and the stopping check are outside the loop's model. The stopping check is the set `stopsAt` of generation counts at which it succeeds.
- Cores.Core.Initialize: requires an empty registry and population, as the program uses it on a new core. It does not state the base connections' weights. It fixes node iteration order to id order, which is the order of the program's hash map for small ids.
- MutateMethods.PreserveOld and MutateMethods.PreserveTop return the genomes whose `mutate()` is called rather than calling `Genomes.Genome.Mutate` on them. The draws of each call, and the aliasing of base connections shared by several genomes, are not modelled there.
- MutateMethods.PreserveTop: requires every species to be non-empty, where `Collections.max` would throw. `Cores.Core.Evolve` guarantees this after pruning.
- KillMethods.Sort: a stable insertion sort stands for `Collections.sort`. Its stability is not proved; the properties used are permutation and ascending order.
- KillMethods.BottomHalf: survivors come out in ascending fitness order, not in their original order. That is what sorting the shared list in place does.
- SpeciesGroups.Species.Kill, SpeciesGroups.Species.KillRandom and SpeciesGroups.Species.SetRandomLeader: a drawn position out of range, where Java throws, is excluded by `requires` rather than modelled as an exception.
- SpeciesGroups.Species.KillRandom: a negative fraction makes the count exceed the size. Species.java:34-35 then removes every member and throws when it draws from the empty list (`nextInt(0)`); the model excludes that case by `requires CountToRemove(|genomes|, fraction) <= |genomes|` rather than modelling the exception.
- Genomes.Genome.MutateNodeGene: requires the split draw to be below the number of active connections. The source draws it below the number of all connections, and a larger draw throws.
- Genomes.Genome.Mutate: requires a valid genome only where the source reads the index: a node mutation that fires on a genome with connections, and a connection mutation that reaches the path search. On a base genome, which has no index entries, those paths throw in the source.
- Genomes.Genome.Mutate: the start node of the connection mutation is picked from the input and hidden nodes listed on entry, so the model never starts a new connection at a node that the node mutation of the same round has just added. The source picks from the list as it stands after the node mutation.
- Genomes.Genome.BreedTied and Genomes.Genome.BreedOrdered: weights are stated only for the fitter-parent case. For a tied crossover the contract states where each gene comes from, but not its weight.
- Genomes.Genome.Breed: for equal fitness the contract states that every child gene descends from a parent, and that every number both parents carry is present. It does not state the child genes' weights or active flags. In the source they are the weight of the parent gene the per-number choice picks, and active. Those facts are proved right after the matching step (`Genomes.Genome.TiedStart`), but are not carried through the rounds that add the disjoint and excess genes.
- Tarjans.Tarjan.ContainsLoop: requires distinct node ids and every connection's ends among the genome's nodes. Only "a loop is reported, so there is a cycle" is proved, not the converse.
- Genomes.Genome.ComputeOutput: soundness is stated under `Evaluable`: an acyclic index over the core's nodes, with distinct ids and no bound output feeding a connection.
- Hash-map iteration order is any order (`:|`). Properties hold for every order, but the particular order of Java's `HashMap` is not modelled.

## Findings

| source | as written | input that shows it | evidently intended | confidence | as-written member | corrected member |
|---|---|---|---|---|---|---|
| src/network/Tarjan.java:45 | `v.getLowlink() == v.getIndex()` compares two boxed `Integer` objects by reference, and only values -128..127 are cached | a genome of 129 nodes without connections: the node with index 128 has lowlink 128 but fails the test, is never popped, and only 128 components are found, so a loop is reported | compare the two numbers (`intValue()` or `equals`) | high, not executed | Tarjans.BoxedEdgelessSearch | Tarjans.Tarjan.StrongConnect |
