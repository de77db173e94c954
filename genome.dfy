/** A genome: a network given by its connection list, its node list and an
 *  index from each node to the connections that end in it. */
module Genomes {
  import opened Basics
  import opened Graphs
  import opened NodeGenes
  import opened ConnectionGenes
  import opened GeneRegistry
  import opened GeneViews
  import opened GenomeIndex
  import opened Distances
  import opened Evaluation

  const NODE_PROB: real := 0.03
  const CONNECTION_PROB: real := 0.05



  class Genome {
    var nodes: seq<NodeGene>
    var connections: seq<ConnectionGene>
    var fitness: real
    const core: Registry
    var seenNodes: seq<nat>
    var nodeInputs: Index
    var nodeValues: map<nat, real>

    /** An empty genome of the given core. */
    constructor (core: Registry)
      ensures this.core == core && nodes == [] && connections == [] && nodeInputs == map[]
      ensures fitness == 0.0
    {
      this.core := core;
      nodes := [];
      connections := [];
      nodeInputs := map[];
      fitness := 0.0;
      seenNodes := [];
      nodeValues := map[];
    }

    /** The genome built by crossover from its parts. */
    constructor Bred(core: Registry, connections: seq<ConnectionGene>, nodes: seq<NodeGene>, nodeInputs: Index)
      ensures this.core == core && this.nodes == nodes && this.connections == connections
      ensures this.nodeInputs == nodeInputs && fitness == 0.0
    {
      this.core := core;
      this.nodes := nodes;
      this.connections := connections;
      this.nodeInputs := nodeInputs;
      fitness := 0.0;
      seenNodes := [];
      nodeValues := map[];
    }

    /** The shape crossover and the mutations keep: every node has an index
     *  entry, the index files exactly the connection list, each connection
     *  under its output node, and every connection joins listed nodes. */
    ghost predicate Shaped()
      reads this`nodes, this`connections, this`nodeInputs
    {
      ShapedParts(nodes, connections, nodeInputs)
    }

    /** A genome in good standing with its core (see `GenomeParts`). */
    ghost predicate Valid()
      reads this`nodes, this`connections, this`nodeInputs, core, core.nodeIds, core.innovations
    {
      core.Valid() && GenomeParts(nodes, connections, nodeInputs, core.nodes, core.connections)
    }

    /** In a shaped genome the path search may start anywhere, and the index
     *  describes the edges of the connection list. */
    lemma ShapedIndex()
      requires Shaped()
      ensures InputsIndexed(nodeInputs) && IndexEdges(nodeInputs) == ConnEdges(connections)
    {
      IndexMatchesEdges(nodeInputs, connections);
      forall k, c | k in nodeInputs && c in nodeInputs[k]
        ensures c.input.id in nodeInputs
      {
        assert c in connections;
        assert c.input.id in EndpointIds(connections);
      }
    }

    /** Offers a parent's gene to a child under construction: both end nodes
     *  get index entries, and unless the gene's output already reaches its
     *  input, the gene is added with whichever end nodes the child lacks. */
    method OfferGene(cg: ConnectionGene) returns (added: bool)
      requires Shaped()
      modifies this`connections, this`nodes, this`nodeInputs, this`seenNodes
      ensures Shaped()
      ensures added <==> !Reaches(ConnEdges(old(connections)), cg.output.id, cg.input.id)
      ensures connections == if added then old(connections) + [cg] else old(connections)
      ensures !added ==> nodes == old(nodes)
      ensures NodeIds(nodes) == NodeIds(old(nodes)) + (if added then {cg.input.id, cg.output.id} else {})
      ensures old(nodes) <= nodes
      ensures forall i | |old(nodes)| <= i < |nodes| :: nodes[i] == cg.input || nodes[i] == cg.output
      ensures DistinctIds(old(nodes)) ==> DistinctIds(nodes)
      ensures Acyclic(ConnEdges(old(connections))) && cg.input.id != cg.output.id ==>
        Acyclic(ConnEdges(connections))
    {
      EnsureEntry(cg.input.id);
      EnsureEntry(cg.output.id);
      ShapedIndex();
      var hasPath := ContainsPath(cg.output, cg.input);
      added := !hasPath;
      if added {
        ghost var E := ConnEdges(connections);
        AddGene(cg);
        if Acyclic(E) && cg.input.id != cg.output.id {
          AddEdgeAcyclic(E, cg.input.id, cg.output.id);
        }
      }
    }

    /** The tied-fitness loop over one parent's disjoint and excess genes,
     *  in map order: each gene whose coin, `heads(k)` for gene number `k`,
     *  comes up is offered to the child. */
    method OfferAll(genes: map<nat, ConnectionGene>, heads: nat -> bool, ghost base: set<nat>)
      requires Shaped() && DistinctInnovations(connections)
      requires forall k | k in genes :: genes[k].innovation == k
      requires genes.Keys !! Innovations(connections)
      requires NodeIds(nodes) == base + EndpointIds(connections)
      modifies this`connections, this`nodes, this`nodeInputs, this`seenNodes
      ensures Grown(genes, heads, old(connections), old(nodes), base, {})
    {
      var todo := genes.Keys;
      ghost var cs0, ns0 := connections, nodes;
      while todo != {}
        invariant Grown(genes, heads, cs0, ns0, base, todo)
        decreases todo
      {
        var k :| k in todo;
        OfferStep(genes, k, heads, cs0, ns0, base, todo);
        todo := todo - {k};
      }
    }

    /** What offering the genes of `genes` not numbered in `todo` to a genome
     *  that had connections `cs0` and nodes `ns0` leaves behind. */
    ghost predicate Grown(genes: map<nat, ConnectionGene>, heads: nat -> bool, cs0: seq<ConnectionGene>, ns0: seq<NodeGene>,
                          base: set<nat>, todo: set<nat>)
      reads this`nodes, this`connections, this`nodeInputs
    {
      GrownParts(nodes, connections, nodeInputs, genes, heads, cs0, ns0, base, todo)
    }

    /** One iteration of the loop of `OfferAll`: the gene numbered `k` is
     *  offered when the coin is heads. */
    method OfferStep(genes: map<nat, ConnectionGene>, k: nat, heads: nat -> bool, ghost cs0: seq<ConnectionGene>,
                     ghost ns0: seq<NodeGene>, ghost base: set<nat>, ghost todo: set<nat>)
      requires k in genes && k in todo
      requires forall j | j in genes :: genes[j].innovation == j
      requires Grown(genes, heads, cs0, ns0, base, todo)
      modifies this`connections, this`nodes, this`nodeInputs, this`seenNodes
      ensures Grown(genes, heads, cs0, ns0, base, todo - {k})
    {
      if heads(k) {
        ghost var cs1, ns1 := connections, nodes;
        var added := OfferGene(genes[k]);
        if added {
          GrownAdd(cs1, ns1, connections, nodes, genes, heads, k, cs0, ns0, base, todo);
        }
      }
    }

    /** Gives node `id` an empty index entry unless it has one. */
    method EnsureEntry(id: nat)
      requires Shaped()
      modifies this`nodeInputs
      ensures Shaped() && id in nodeInputs
      ensures old(nodeInputs).Keys <= nodeInputs.Keys
      ensures IndexEdges(nodeInputs) == IndexEdges(old(nodeInputs))
    {
      if id !in nodeInputs {
        EmptyEntryEdges(nodeInputs, id);
        nodeInputs := nodeInputs[id := []];
      }
    }

    /** Appends `cg` to the connections, files it under its output node, and
     *  lists whichever of its end nodes is missing. */
    method AddGene(cg: ConnectionGene)
      requires Shaped() && cg.input.id in nodeInputs && cg.output.id in nodeInputs
      modifies this`connections, this`nodes, this`nodeInputs
      ensures Shaped()
      ensures connections == old(connections) + [cg]
      ensures ConnEdges(connections) == ConnEdges(old(connections)) + {(cg.input.id, cg.output.id)}
      ensures NodeIds(nodes) == NodeIds(old(nodes)) + {cg.input.id, cg.output.id}
      ensures old(nodes) <= nodes
      ensures forall i | |old(nodes)| <= i < |nodes| :: nodes[i] == cg.input || nodes[i] == cg.output
      ensures DistinctIds(old(nodes)) ==> DistinctIds(nodes)
    {
      AppendEdge(connections, cg);
      AddKeepsShape(nodes, connections, nodeInputs, cg);
      var ns := WithEnds(nodes, cg);
      var ni := nodeInputs[cg.output.id := nodeInputs[cg.output.id] + [cg]];
      nodes, connections, nodeInputs := ns, connections + [cg], ni;
    }

    /** Whether `start` reaches `end` along the edges of the index. */
    method ContainsPath(start: NodeGene, end: NodeGene) returns (found: bool)
      requires end.id in nodeInputs && InputsIndexed(nodeInputs)
      modifies this`seenNodes
      ensures found <==> Reaches(IndexEdges(nodeInputs), start.id, end.id)
      ensures NoRepeats(seenNodes)
    {
      seenNodes := [];
      found := CheckForPath(start, end);
      if !found {
        var E, S := IndexEdges(nodeInputs), Elements(seenNodes);
        forall y, x | x in S && (y, x) in E
          ensures y in S && y != start.id
        {
          var k, c :| k in nodeInputs && c in nodeInputs[k] && (c.input.id, k) == (y, x);
          assert Expanded(nodeInputs, S, x, start.id);
        }
        ClosedSetUnreachable(E, S, start.id, end.id);
      }
    }

    /** The recursive backward search: marks `end` seen, succeeds when
     *  `start` is a predecessor of `end`, and otherwise searches from each
     *  predecessor in turn. A node already seen is not expanded again. */
    method CheckForPath(start: NodeGene, end: NodeGene) returns (found: bool)
      requires end.id in nodeInputs && InputsIndexed(nodeInputs)
      requires NoRepeats(seenNodes)
      modifies this`seenNodes
      ensures NoRepeats(seenNodes)
      ensures Elements(old(seenNodes)) <= Elements(seenNodes) && end.id in seenNodes
      ensures found ==> Reaches(IndexEdges(nodeInputs), start.id, end.id)
      ensures !found ==> forall x | x in Elements(seenNodes) - Elements(old(seenNodes)) ::
        Expanded(nodeInputs, Elements(seenNodes), x, start.id)
      decreases |nodeInputs.Keys - Elements(seenNodes)|
    {
      if end.id in seenNodes {
        return false;
      }
      ghost var seen0 := Elements(seenNodes);
      AppendNew(seenNodes, end.id);
      seenNodes := seenNodes + [end.id];
      var ins := nodeInputs[end.id];
      var parents := seq(|ins|, i requires 0 <= i < |ins| => ins[i].input);
      if HasId(parents, start.id) {
        var i :| 0 <= i < |parents| && parents[i].id == start.id;
        assert ins[i] in nodeInputs[end.id];
        EdgeReaches(IndexEdges(nodeInputs), start.id, end.id);
        return true;
      }
      var i := 0;
      while i < |parents|
        invariant 0 <= i <= |parents|
        invariant NoRepeats(seenNodes) && seen0 + {end.id} <= Elements(seenNodes)
        invariant forall j | 0 <= j < i :: parents[j].id in Elements(seenNodes)
        invariant forall x | x in Elements(seenNodes) - seen0 - {end.id} ::
          Expanded(nodeInputs, Elements(seenNodes), x, start.id)
      {
        assert ins[i] in nodeInputs[end.id];
        MeasureDrops(nodeInputs.Keys, seen0, Elements(seenNodes), end.id);
        ghost var before := Elements(seenNodes);
        var r := CheckForPath(start, parents[i]);
        if r {
          ReachesThenEdge(IndexEdges(nodeInputs), start.id, parents[i].id, end.id);
          return true;
        }
        forall x | x in Elements(seenNodes) - seen0 - {end.id}
          ensures Expanded(nodeInputs, Elements(seenNodes), x, start.id)
        {
          if x in before {
            ExpandedGrows(nodeInputs, before, Elements(seenNodes), x, start.id);
          }
        }
        i := i + 1;
      }
      forall c | c in nodeInputs[end.id]
        ensures c.input.id in Elements(seenNodes) && c.input.id != start.id
      {
        var j :| 0 <= j < |ins| && ins[j] == c;
        assert parents[j] == c.input;
      }
      assert Expanded(nodeInputs, Elements(seenNodes), end.id, start.id);
      return false;
    }

    /** The fitter-parent loop of crossover over the matching genes: a gene
     *  would be added again when its input did not reach its output, but the
     *  genome already holds a connection with the same ends for each of
     *  them, so the search always succeeds and nothing is added. */
    method RecheckMatchings(genes: map<nat, ConnectionGene>)
      requires Shaped()
      requires forall k | k in genes :: (genes[k].input.id, genes[k].output.id) in ConnEdges(connections)
      modifies this`seenNodes
      ensures connections == old(connections) && nodes == old(nodes) && nodeInputs == old(nodeInputs)
    {
      ShapedIndex();
      var todo := genes.Keys;
      while todo != {}
        decreases todo
      {
        var k :| k in todo;
        var cg := genes[k];
        assert cg.output.id in nodeInputs by {
          var c :| c in connections && (c.input.id, c.output.id) == (cg.input.id, cg.output.id);
          assert c.output.id in EndpointIds(connections);
        }
        EdgeReaches(IndexEdges(nodeInputs), cg.input.id, cg.output.id);
        var hasPath := ContainsPath(cg.input, cg.output);
        if !hasPath {
          assert false;
        }
        todo := todo - {k};
      }
    }

    /** The first half of crossover: both parents' genes copied into maps by
     *  innovation number, the genes the parents share (the matching genes)
     *  taken into the child with the weight `pickBetter` chooses, this
     *  genome's input and output nodes listed first, every listed node given
     *  an index entry, and the child genome built from these parts. */
    method MatchedChild(better: Genome, worse: Genome, pickBetter: nat -> bool)
      returns (child: Genome, bpc: map<nat, ConnectionGene>, wpc: map<nat, ConnectionGene>,
               bpm: map<nat, ConnectionGene>)
      ensures fresh(child) && child.core == core && child.Shaped()
      ensures CopiesOf(bpc, old(better.connections)) && CopiesOf(wpc, old(worse.connections))
      ensures forall k | k in bpc :: fresh(bpc[k])
      ensures forall k | k in wpc :: fresh(wpc[k])
      ensures bpm.Keys == bpc.Keys * wpc.Keys && forall k | k in bpm :: bpm[k] == bpc[k]
      ensures DistinctInnovations(child.connections)
      ensures Innovations(child.connections) == bpc.Keys * wpc.Keys
      ensures forall c | c in child.connections ::
        && fresh(c) && c.innovation in bpc && c.innovation in wpc
        && Inherits(c, bpc[c.innovation], wpc[c.innovation], pickBetter(c.innovation))
      ensures NodesOfLayers(old(nodes), {Input, Output}) <= child.nodes
      ensures forall i | |NodesOfLayers(old(nodes), {Input, Output})| <= i < |child.nodes| ::
        child.nodes[i] in EndpointNodes(child.connections)
      ensures NodeIds(child.nodes) == NodeIds(NodesOfLayers(old(nodes), {Input, Output})) + EndpointIds(child.connections)
      ensures DistinctIds(old(nodes)) ==> DistinctIds(child.nodes)
      ensures ConnEdges(child.connections) <= ConnEdges(old(better.connections))
    {
      var wpm;
      bpc, wpc, bpm, wpm := ParentCopies(better.connections, worse.connections);
      var io := NodesOfLayers(nodes, {Input, Output});
      var cs, ns, ni := MatchingGenes(bpm, wpm, io, pickBetter);
      var ni' := EnsureEntries(ni, ns);
      EntriesKeepMatches(ni, ni', cs);
      if DistinctIds(nodes) {
        NodesOfLayersDistinct(nodes, {Input, Output});
      }
      MatchedEdges(cs, bpm, better.connections);
      assert ShapedParts(ns, cs, ni');
      forall c | c in cs
        ensures fresh(c) && c.innovation in bpc && c.innovation in wpc
        ensures Inherits(c, bpc[c.innovation], wpc[c.innovation], pickBetter(c.innovation))
      {
        var i :| 0 <= i < |cs| && cs[i] == c;
      }
      child := new Genome.Bred(core, cs, ns, ni');
    }

    /** The tied-fitness rounds of crossover on a child holding the
     *  matching genes: the remaining copies of the first parent's genes
     *  (`bpc` without the numbers of `bpm`) are offered first, then those of
     *  the second parent's (`wpc`), each when its coin comes up. */
    method TiedRounds(bpc: map<nat, ConnectionGene>, wpc: map<nat, ConnectionGene>, bpm: map<nat, ConnectionGene>,
                      offerBetter: nat -> bool, offerWorse: nat -> bool,
                      ghost io: seq<NodeGene>, ghost bs: seq<ConnectionGene>, ghost ws: seq<ConnectionGene>)
      requires Shaped() && DistinctInnovations(connections)
      requires Sources(bpc, bs) && Sources(wpc, ws)
      requires bpm.Keys == bpc.Keys * wpc.Keys && Innovations(connections) == bpm.Keys
      requires forall c | c in connections :: Descends(c, bs, ws, true, offerBetter, offerWorse)
      requires io <= nodes && forall i | |io| <= i < |nodes| :: nodes[i] in EndpointNodes(connections)
      requires NodeIds(nodes) == NodeIds(io) + EndpointIds(connections)
      modifies this`connections, this`nodes, this`nodeInputs, this`seenNodes
      ensures Shaped() && DistinctInnovations(connections)
      ensures old(connections) <= connections && io <= nodes
      ensures forall c | c in connections ::
        && Descends(c, bs, ws, true, offerBetter, offerWorse)
        && (|| c in old(connections)
            || (c.innovation in bpc && c.innovation !in wpc && c == bpc[c.innovation])
            || (c.innovation in wpc && c.innovation !in bpc && c == wpc[c.innovation]))
      ensures forall i | |io| <= i < |nodes| :: nodes[i] in EndpointNodes(connections)
      ensures NodeIds(nodes) == NodeIds(io) + EndpointIds(connections)
      ensures DistinctIds(old(nodes)) ==> DistinctIds(nodes)
      ensures Acyclic(ConnEdges(old(connections))) && LooplessGenes(bpc) && LooplessGenes(wpc) ==>
        Acyclic(ConnEdges(connections))
    {
      var bRest := map k | k in bpc && k !in bpm :: bpc[k];
      var wRest := map k | k in wpc && k !in bpm :: wpc[k];
      ghost var base := NodeIds(io);
      ghost var cs0, ns0 := connections, nodes;
      OfferAll(bRest, offerBetter, base);
      ghost var cs1, ns1 := connections, nodes;
      assert Innovations(cs1) <= bpm.Keys + bRest.Keys;
      OfferAll(wRest, offerWorse, base);
      TiedOutcome(io, cs0, ns0, cs1, ns1, connections, nodes, bpc, wpc, bRest, offerBetter, wRest, offerWorse, base, bs, ws);
    }

    /** Crossover of `better`, the fitter parent (either one when their
     *  fitness ties), with `worse`; the input and output nodes come from
     *  this genome. Every matching gene is taken with the weight `pickBetter`
     *  chooses. When `randomize` holds, each disjoint or excess gene of
     *  either parent is offered when its coin (`offerBetter`, `offerWorse`)
     *  comes up and joins unless it would close a cycle; otherwise the
     *  matching genes are checked once more and nothing else joins. */
    method BreedOrdered(better: Genome, worse: Genome, randomize: bool,
                        pickBetter: nat -> bool, offerBetter: nat -> bool, offerWorse: nat -> bool)
      returns (child: Genome)
      ensures fresh(child) && child.core == core && child.Shaped()
      ensures DistinctInnovations(child.connections)
      ensures Innovations(old(better.connections)) * Innovations(old(worse.connections)) <= Innovations(child.connections)
      ensures forall c | c in child.connections ::
        && fresh(c) && Descends(c, old(better.connections), old(worse.connections), randomize, offerBetter, offerWorse)
        && (!randomize ==> c.active && c.weight == WeightSource(c.innovation, old(better.connections), old(worse.connections), pickBetter).weight)
      ensures NodesOfLayers(old(nodes), {Input, Output}) <= child.nodes
      ensures forall i | |NodesOfLayers(old(nodes), {Input, Output})| <= i < |child.nodes| ::
        child.nodes[i] in EndpointNodes(child.connections)
      ensures NodeIds(child.nodes) == NodeIds(NodesOfLayers(old(nodes), {Input, Output})) + EndpointIds(child.connections)
      ensures DistinctIds(old(nodes)) ==> DistinctIds(child.nodes)
      ensures Acyclic(ConnEdges(old(better.connections))) && Loopless(old(worse.connections)) ==>
        Acyclic(ConnEdges(child.connections))
    {
      if randomize {
        child := BreedTied(better, worse, pickBetter, offerBetter, offerWorse);
      } else {
        child := BreedFitter(better, worse, pickBetter);
      }
    }

    /** The tied case of `BreedOrdered`: the matching genes, then the offered
     *  disjoint and excess genes of `better`, then those of `worse`. */
    method BreedTied(better: Genome, worse: Genome,
                     pickBetter: nat -> bool, offerBetter: nat -> bool, offerWorse: nat -> bool)
      returns (child: Genome)
      ensures fresh(child) && child.core == core && child.Shaped()
      ensures DistinctInnovations(child.connections)
      ensures Innovations(old(better.connections)) * Innovations(old(worse.connections)) <= Innovations(child.connections)
      ensures forall c | c in child.connections ::
        && fresh(c) && Descends(c, old(better.connections), old(worse.connections), true, offerBetter, offerWorse)
      ensures NodesOfLayers(old(nodes), {Input, Output}) <= child.nodes
      ensures forall i | |NodesOfLayers(old(nodes), {Input, Output})| <= i < |child.nodes| ::
        child.nodes[i] in EndpointNodes(child.connections)
      ensures NodeIds(child.nodes) == NodeIds(NodesOfLayers(old(nodes), {Input, Output})) + EndpointIds(child.connections)
      ensures DistinctIds(old(nodes)) ==> DistinctIds(child.nodes)
      ensures Acyclic(ConnEdges(old(better.connections))) && Loopless(old(worse.connections)) ==>
        Acyclic(ConnEdges(child.connections))
    {
      ghost var bs, ws := better.connections, worse.connections;
      ghost var io := NodesOfLayers(nodes, {Input, Output});
      var bpc, wpc, bpm;
      child, bpc, wpc, bpm := TiedStart(better, worse, pickBetter, offerBetter, offerWorse);
      ghost var cs0 := child.connections;
      child.TiedRounds(bpc, wpc, bpm, offerBetter, offerWorse, io, bs, ws);
      forall c | c in child.connections
        ensures fresh(c)
      {
        if c !in cs0 {
          var k := c.innovation;
          if k in bpc && k !in wpc && c == bpc[k] {
          } else {
            assert c == wpc[k];
          }
        }
      }
    }

    /** The matching genes of a tied crossover, with the facts about them and
     *  about the parents' remaining genes that the offering rounds need. */
    method TiedStart(better: Genome, worse: Genome,
                     pickBetter: nat -> bool, offerBetter: nat -> bool, offerWorse: nat -> bool)
      returns (child: Genome, bpc: map<nat, ConnectionGene>, wpc: map<nat, ConnectionGene>,
               bpm: map<nat, ConnectionGene>)
      ensures fresh(child) && child.core == core && child.Shaped()
      ensures DistinctInnovations(child.connections)
      ensures Sources(bpc, old(better.connections)) && Sources(wpc, old(worse.connections))
      ensures bpm.Keys == bpc.Keys * wpc.Keys && Innovations(child.connections) == bpm.Keys
      ensures forall c | c in child.connections ::
        && fresh(c) && Descends(c, old(better.connections), old(worse.connections), true, offerBetter, offerWorse)
        && c.active && c.weight == WeightSource(c.innovation, old(better.connections), old(worse.connections), pickBetter).weight
      ensures forall k | k in bpc && k !in wpc ::
        && fresh(bpc[k]) && bpc[k].active
        && bpc[k].weight == WeightSource(k, old(better.connections), old(worse.connections), pickBetter).weight
      ensures forall k | k in wpc && k !in bpc ::
        && fresh(wpc[k]) && wpc[k].active
        && wpc[k].weight == WeightSource(k, old(better.connections), old(worse.connections), pickBetter).weight
      ensures NodesOfLayers(old(nodes), {Input, Output}) <= child.nodes
      ensures forall i | |NodesOfLayers(old(nodes), {Input, Output})| <= i < |child.nodes| ::
        child.nodes[i] in EndpointNodes(child.connections)
      ensures NodeIds(child.nodes) == NodeIds(NodesOfLayers(old(nodes), {Input, Output})) + EndpointIds(child.connections)
      ensures DistinctIds(old(nodes)) ==> DistinctIds(child.nodes)
      ensures Acyclic(ConnEdges(old(better.connections))) && Loopless(old(worse.connections)) ==>
        && Acyclic(ConnEdges(child.connections)) && LooplessGenes(bpc) && LooplessGenes(wpc)
    {
      ghost var bs, ws := better.connections, worse.connections;
      child, bpc, wpc, bpm := MatchedChild(better, worse, pickBetter);
      if Acyclic(ConnEdges(bs)) && Loopless(ws) {
        AcyclicLoopless(bs);
        CopiesLoopless(bpc, bs);
        CopiesLoopless(wpc, ws);
        SubgraphAcyclic(ConnEdges(child.connections), ConnEdges(bs));
      }
      forall c | c in child.connections
        ensures Descends(c, bs, ws, true, offerBetter, offerWorse)
        ensures c.active && c.weight == WeightSource(c.innovation, bs, ws, pickBetter).weight
      {
        MatchedDescends(c, bpc, wpc, bs, ws, true, pickBetter, offerBetter, offerWorse);
      }
      CopiesAreSources(bpc, bs);
      CopiesAreSources(wpc, ws);
    }

    /** The case of `BreedOrdered` with a strictly fitter parent: the child
     *  holds the matching genes only, each checked once more for a path. */
    method BreedFitter(better: Genome, worse: Genome, pickBetter: nat -> bool)
      returns (child: Genome)
      ensures fresh(child) && child.core == core && child.Shaped()
      ensures DistinctInnovations(child.connections)
      ensures Innovations(child.connections) == Innovations(old(better.connections)) * Innovations(old(worse.connections))
      ensures forall c | c in child.connections ::
        && fresh(c) && c.innovation in Innovations(old(better.connections)) * Innovations(old(worse.connections))
        && SameGene(c, LastGene(old(better.connections), c.innovation))
        && c.active && c.weight == WeightSource(c.innovation, old(better.connections), old(worse.connections), pickBetter).weight
      ensures NodesOfLayers(old(nodes), {Input, Output}) <= child.nodes
      ensures forall i | |NodesOfLayers(old(nodes), {Input, Output})| <= i < |child.nodes| ::
        child.nodes[i] in EndpointNodes(child.connections)
      ensures NodeIds(child.nodes) == NodeIds(NodesOfLayers(old(nodes), {Input, Output})) + EndpointIds(child.connections)
      ensures DistinctIds(old(nodes)) ==> DistinctIds(child.nodes)
      ensures Acyclic(ConnEdges(old(better.connections))) ==> Acyclic(ConnEdges(child.connections))
    {
      ghost var bs, ws := better.connections, worse.connections;
      var bpc, wpc, bpm;
      child, bpc, wpc, bpm := MatchedChild(better, worse, pickBetter);
      if Acyclic(ConnEdges(bs)) {
        SubgraphAcyclic(ConnEdges(child.connections), ConnEdges(bs));
      }
      forall c | c in child.connections
        ensures c.innovation in Innovations(bs) * Innovations(ws) && SameGene(c, LastGene(bs, c.innovation))
        ensures c.active && c.weight == WeightSource(c.innovation, bs, ws, pickBetter).weight
      {
        MatchedDescends(c, bpc, wpc, bs, ws, false, pickBetter, pickBetter, pickBetter);
      }
      forall k | k in bpm ensures (bpm[k].input.id, bpm[k].output.id) in ConnEdges(child.connections) {
        var c :| c in child.connections && c.innovation == k;
      }
      child.FinishFitter(bpm, bs, ws, pickBetter);
    }

    /** The end of the fitter-parent case of crossover: the matching genes
     *  are checked once more and every listed node gets an index entry;
     *  the genes keep what crossover gave them. */
    method FinishFitter(genes: map<nat, ConnectionGene>, ghost bs: seq<ConnectionGene>, ghost ws: seq<ConnectionGene>,
                        ghost pickBetter: nat -> bool)
      requires Shaped()
      requires forall k | k in genes :: (genes[k].input.id, genes[k].output.id) in ConnEdges(connections)
      requires forall c | c in connections ::
        && c.innovation in Innovations(bs) * Innovations(ws) && SameGene(c, LastGene(bs, c.innovation))
        && c.active && c.weight == WeightSource(c.innovation, bs, ws, pickBetter).weight
      modifies this`seenNodes, this`nodeInputs
      ensures Shaped() && connections == old(connections) && nodes == old(nodes)
      ensures forall c | c in connections ::
        && c.innovation in Innovations(bs) * Innovations(ws) && SameGene(c, LastGene(bs, c.innovation))
        && c.active && c.weight == WeightSource(c.innovation, bs, ws, pickBetter).weight
    {
      RecheckMatchings(genes);
      var ni := EnsureEntries(nodeInputs, nodes);
      EntriesKeepMatches(nodeInputs, ni, connections);
      nodeInputs := ni;
    }

    /** Crossover with `p`: the fitter genome is the better parent; on a tie
     *  this genome is, and the disjoint and excess genes are offered too. */
    method Breed(p: Genome, pickBetter: nat -> bool, offerBetter: nat -> bool, offerWorse: nat -> bool)
      returns (child: Genome)
      ensures fresh(child) && child.core == core && child.Shaped()
      ensures DistinctInnovations(child.connections)
      ensures Innovations(old(connections)) * Innovations(old(p.connections)) <= Innovations(child.connections)
      ensures old(p.fitness) > old(fitness) ==> forall c | c in child.connections ::
        && fresh(c) && Descends(c, old(p.connections), old(connections), false, offerBetter, offerWorse)
        && c.active && c.weight == WeightSource(c.innovation, old(p.connections), old(connections), pickBetter).weight
      ensures old(p.fitness) < old(fitness) ==> forall c | c in child.connections ::
        && fresh(c) && Descends(c, old(connections), old(p.connections), false, offerBetter, offerWorse)
        && c.active && c.weight == WeightSource(c.innovation, old(connections), old(p.connections), pickBetter).weight
      ensures old(p.fitness) == old(fitness) ==> forall c | c in child.connections ::
        fresh(c) && Descends(c, old(connections), old(p.connections), true, offerBetter, offerWorse)
      ensures NodeIds(child.nodes) == NodeIds(NodesOfLayers(old(nodes), {Input, Output})) + EndpointIds(child.connections)
      ensures DistinctIds(old(nodes)) ==> DistinctIds(child.nodes)
      ensures Acyclic(ConnEdges(old(connections))) && Acyclic(ConnEdges(old(p.connections))) ==>
        Acyclic(ConnEdges(child.connections))
    {
      if Acyclic(ConnEdges(connections)) && Acyclic(ConnEdges(p.connections)) {
        AcyclicLoopless(connections);
        AcyclicLoopless(p.connections);
      }
      if p.fitness > fitness {
        child := BreedOrdered(p, this, false, pickBetter, offerBetter, offerWorse);
      } else if p.fitness < fitness {
        child := BreedOrdered(this, p, false, pickBetter, offerBetter, offerWorse);
      } else {
        child := BreedOrdered(this, p, true, pickBetter, offerBetter, offerWorse);
      }
    }

    /** The compatibility distance to `genome`, as `Distance` defines it for
     *  the weights the genes carry on entry. The connection list of the
     *  "max" genome is left sorted by innovation number; the other list is
     *  not touched. */
    method ComputeDistance(genome: Genome) returns (d: real)
      modifies this`connections, genome`connections
      ensures d == old(Distance(connections, genome.connections, Weights(connections, genome.connections)))
      ensures if SecondIsMax(old(connections), old(genome.connections))
        then genome.connections == SortByInnovation(old(genome.connections)) && connections == old(connections)
        else (connections == SortByInnovation(old(connections))
              && (genome != this ==> genome.connections == old(genome.connections)))
    {
      var cs1, cs2 := connections, genome.connections;
      ghost var w := Weights(cs1, cs2);
      // the two scans for the newest gene
      var maxGenome: Genome? := null;
      var minGenome: Genome? := null;
      var maxInnovation, rose := ScanNewest(cs1, 0);
      if rose {
        maxGenome, minGenome := this, genome;
      }
      maxInnovation, rose := ScanNewest(cs2, maxInnovation);
      if rose {
        maxGenome, minGenome := genome, this;
      }
      if maxGenome == null {
        maxGenome, minGenome := this, genome;
      }
      var mx, mn := maxGenome.connections, minGenome.connections;
      assert mx == if SecondIsMax(cs1, cs2) then cs2 else cs1;
      assert mn == if SecondIsMax(cs1, cs2) then cs1 else cs2;
      // the weight average reads only the matched genes' weights, which the
      // sort below does not change, so it is taken here
      var matched, weightAverage := MatchStats(mx, mn, w);
      maxGenome.connections := SortByInnovation(mx);
      var sorted, others := maxGenome.connections, minGenome.connections;
      if maxGenome == minGenome {
        assert others == sorted && mx == mn;
      } else {
        assert others == mn;
      }
      var excessCount := ExcessScan(sorted, others);
      var disjointCount := (|others| - matched) + (|sorted| - matched - excessCount);
      d := (excessCount as real) * EXCESS_WEIGHT + (disjointCount as real) * DISJOINT_WEIGHT + weightAverage * MATCHING_WEIGHT;
      DistanceOf(mx, mn, w, sorted, others, matched, excessCount, weightAverage, d);
    }

    /** The node a split adds: the first core node the genome lacks, in the
     *  order the core's map yields them, or else a new hidden node that is
     *  registered with the core. The node gets an empty index entry. */
    method AddSplitNode() returns (n: NodeGene)
      requires Valid()
      modifies this`nodes, this`nodeInputs, core`nodes, core.nodeIds
      ensures Valid()
      ensures nodes == old(nodes) + [n] && old(nodes) <= nodes && n.id !in NodeIds(old(nodes))
      ensures nodeInputs == old(nodeInputs)[n.id := []]
      ensures n.id in old(core.nodes) ==> core.nodes == old(core.nodes) && n == old(core.nodes)[n.id]
      ensures n.id !in old(core.nodes) ==>
        && fresh(n) && n.layer == Hidden && core.nodes == old(core.nodes)[n.id := n]
        && forall k | k in old(core.nodes) :: k in NodeIds(old(nodes))
      ensures connections == old(connections) && core.connections == old(core.connections)
    {
      if exists k | k in core.nodes :: !HasId(nodes, k) {
        var k :| k in core.nodes && !HasId(nodes, k);
        HasIdIffMember(nodes, k);
        n := core.nodes[k];
        AddNodeParts(nodes, connections, nodeInputs, core.nodes, core.connections, n, core.nodes);
      } else {
        forall k | k in core.nodes ensures k in NodeIds(nodes) {
          HasIdIffMember(nodes, k);
        }
        ghost var cn := core.nodes;
        n := new NodeGene(Hidden, core.nodeIds);
        core.PutNode(n);
        AddNodeParts(nodes, connections, nodeInputs, cn, core.connections, n, core.nodes);
      }
      nodes := nodes + [n];
      nodeInputs := nodeInputs[n.id := []];
    }

    /** The core's connection from `from` to `to` (nodes compared by id): the
     *  last one the scan over the core's map meets, or, when the core has
     *  none, a new connection that is registered and given weight `weight`.
     *  The weight a new connection draws in its constructor is overwritten
     *  at once, so the draw is not modelled. */
    method CoreConnectionFor(from: NodeGene, to: NodeGene, weight: real) returns (c: ConnectionGene)
      requires core.Valid() && Registered(core.nodes, from) && Registered(core.nodes, to) && from.id != to.id
      modifies core`connections, core.innovations
      ensures core.Valid()
      ensures c.input == from && c.output == to
      ensures core.connections == old(core.connections)[c.innovation := c]
      ensures c.innovation in old(core.connections) <==>
        exists k | k in old(core.connections) :: old(core.connections)[k].Equals2(from, to)
      ensures c.innovation in old(core.connections) ==> old(core.connections)[c.innovation] == c
      ensures c.innovation !in old(core.connections) ==>
        fresh(c) && c.weight == weight && c.active && c.innovation == old(core.innovations.next)
    {
      var found := core.FindConnection(from, to);
      if found.Some? {
        c := found.value;
        var k :| k in core.connections && core.connections[k] == c;
        assert c.innovation == k;
      } else {
        c := new ConnectionGene(from, to, core.innovations, 0.0);
        core.PutConnection(c);
        c.SetWeight(weight);
      }
    }

    /** The node mutation: with probability NODE_PROB (`draw` is the
     *  `nextFloat` draw) a non-empty genome gets one new node in the middle
     *  of an active connection `cg`, the `pick`-th active one, which is
     *  switched off; the node is joined by a connection from `cg`'s input
     *  (weight 1 when new) and one to `cg`'s output (`cg`'s weight when
     *  new), each reused from the core when it has one with those ends.
     *  Of the connections, only `cg`'s flag may change. The source draws
     *  `pick` below the number of all connections and fails when it is not
     *  below the number of active ones. */
    method MutateNodeGene(draw: UnitReal, pick: nat)
      requires connections != [] && draw < NODE_PROB ==> Valid() && pick < |ActiveOf(connections)|
      modifies this`nodes, this`connections, this`nodeInputs, core`nodes, core`connections, core.nodeIds, core.innovations
      modifies (if connections != [] && draw < NODE_PROB && pick < |ActiveOf(connections)|
                then {ActiveOf(connections)[pick]} else {})`active
      ensures old(connections) == [] || draw >= NODE_PROB ==>
        && nodes == old(nodes) && connections == old(connections) && nodeInputs == old(nodeInputs)
        && core.nodes == old(core.nodes) && core.connections == old(core.connections)
      ensures old(connections) != [] && draw < NODE_PROB ==>
        && Valid() && |nodes| == |old(nodes)| + 1 && |connections| == |old(connections)| + 2
        && (Acyclic(ConnEdges(old(connections))) ==> Acyclic(ConnEdges(connections)))
      ensures old(connections) != [] && draw < NODE_PROB ==>
        var cg := old(ActiveOf(connections)[pick]);
        exists n, a, b :: SplitBy(old(nodes), old(connections), old(nodeInputs), old(core.nodes), old(core.connections), cg, old(cg.weight), n, a, b)
      ensures forall c | c in connections :: c in old(connections) || c in old(core.connections).Values || fresh(c)
      ensures old(nodes) <= nodes && old(connections) <= connections && (old(Valid()) ==> Valid())
    {
      if connections == [] {
        return;
      }
      if draw >= NODE_PROB {
        return;
      }
      var cg := ActiveOf(connections)[pick];
      var n, a, b := SplitConnection(cg);
    }

    /** The genome after the split of connection `cg` through node `n`, from
     *  nodes `ns`, connections `cs` and index `ni` with a core whose maps
     *  were `cn` and `cc`: valid; `n` is listed last, and is the core's node
     *  with its id when it had one and otherwise a new hidden node, made only
     *  when every node of the core was listed; `cg` is switched off; `a`
     *  from `cg`'s input to `n` and `b` from `n` to `cg`'s output are
     *  appended, `a` filed on a fresh entry for `n` and `b` under `cg`'s
     *  output, and are the core's connections with their numbers, a new
     *  `a` with weight 1 and a new `b` with `cg`'s weight `w`. */
    ghost predicate SplitBy(ns: seq<NodeGene>, cs: seq<ConnectionGene>, ni: Index, cn: map<nat, NodeGene>,
                            cc: map<nat, ConnectionGene>, cg: ConnectionGene, w: real, n: NodeGene, a: ConnectionGene, b: ConnectionGene)
      reads this`nodes, this`connections, this`nodeInputs, core, core.nodeIds, core.innovations, cg, a, b
    {
      && Valid()
      && nodes == ns + [n] && n.id !in NodeIds(ns)
      && (n.id in cn ==> core.nodes == cn && cn[n.id] == n)
      && (n.id !in cn ==> core.nodes == cn[n.id := n] && n.layer == Hidden && forall k | k in cn :: k in NodeIds(ns))
      && !cg.active
      && a.input == cg.input && a.output == n && b.input == n && b.output == cg.output
      && connections == cs + [a] + [b]
      && cg.output.id in ni && nodeInputs == ni[n.id := [a]][cg.output.id := ni[cg.output.id] + [b]]
      && core.connections == cc[a.innovation := a][b.innovation := b]
      && (a.innovation !in cc ==> a.weight == 1.0)
      && (b.innovation !in cc ==> b.weight == w)
    }

    /** The split itself: the listed connection `cg` is switched off and
     *  replaced by a path through a new node `n`. */
    method SplitConnection(cg: ConnectionGene) returns (n: NodeGene, a: ConnectionGene, b: ConnectionGene)
      requires Valid() && cg in connections
      modifies this`nodes, this`connections, this`nodeInputs, core`nodes, core`connections, core.nodeIds, core.innovations
      modifies cg`active
      ensures SplitBy(old(nodes), old(connections), old(nodeInputs), old(core.nodes), old(core.connections), cg, old(cg.weight), n, a, b)
      ensures Acyclic(ConnEdges(old(connections))) ==> Acyclic(ConnEdges(connections))
      ensures n.id !in old(core.nodes) ==> fresh(n)
      ensures a.innovation !in old(core.connections) ==> fresh(a)
      ensures b.innovation !in old(core.connections) ==> fresh(b)
      ensures forall c | c in connections :: c in old(connections) || c in old(core.connections).Values || fresh(c)
      ensures old(nodes) <= nodes && old(connections) <= connections
    {
      ghost var ni0 := nodeInputs;
      n := PrepareSplit(cg);
      a, b := JoinSplit(cg, n, ni0);
    }

    /** The first steps of a split: a node `n` for the middle is listed, with
     *  an empty entry, and `cg` is switched off. */
    method PrepareSplit(cg: ConnectionGene) returns (n: NodeGene)
      requires Valid() && cg in connections
      modifies this`nodes, this`nodeInputs, core`nodes, core.nodeIds, cg`active
      ensures Valid() && !cg.active
      ensures nodes == old(nodes) + [n] && old(nodes) <= nodes && n.id !in NodeIds(old(nodes))
      ensures nodeInputs == old(nodeInputs)[n.id := []]
      ensures n.id in old(core.nodes) ==> core.nodes == old(core.nodes) && n == old(core.nodes)[n.id]
      ensures n.id !in old(core.nodes) ==>
        && fresh(n) && n.layer == Hidden && core.nodes == old(core.nodes)[n.id := n]
        && forall k | k in old(core.nodes) :: k in NodeIds(old(nodes))
      ensures Untouched(ConnEdges(connections), n.id) && cg.input.id != n.id && cg.output.id != n.id
      ensures Registered(core.nodes, cg.input) && Registered(core.nodes, cg.output)
      ensures connections == old(connections) && core.connections == old(core.connections) && cg.weight == old(cg.weight)
    {
      KnownEndsRegistered(core.nodes, core.connections, core.nodeIds.next, core.innovations.next, cg);
      n := AddSplitNode();
      cg.SetActive(false);
      SplitNodeUntouched(old(nodes), connections, n, cg);
    }

    /** The last steps of a split: the core's connection `a` from `cg`'s
     *  input to the new node `n` (weight 1 when new) is filed on a fresh
     *  entry for `n` and appended, then the core's connection `b` from `n`
     *  to `cg`'s output (`cg`'s weight when new) is filed under that output
     *  and appended. `ni0` is the index before `n` got its empty entry. */
    method JoinSplit(cg: ConnectionGene, n: NodeGene, ghost ni0: Index) returns (a: ConnectionGene, b: ConnectionGene)
      requires Valid() && cg in connections && n in nodes && nodeInputs == ni0[n.id := []]
      requires Untouched(ConnEdges(connections), n.id) && cg.input.id != n.id && cg.output.id != n.id
      requires Registered(core.nodes, cg.input) && Registered(core.nodes, cg.output)
      modifies this`connections, this`nodeInputs, core`connections, core.innovations
      ensures Valid()
      ensures connections == old(connections) + [a] + [b] && old(connections) <= connections
      ensures nodeInputs == ni0[n.id := [a]][cg.output.id := ni0[cg.output.id] + [b]]
      ensures Acyclic(ConnEdges(old(connections))) ==> Acyclic(ConnEdges(connections))
      ensures a.input == cg.input && a.output == n && b.input == n && b.output == cg.output
      ensures core.connections == old(core.connections)[a.innovation := a][b.innovation := b]
      ensures a.innovation !in old(core.connections) ==> fresh(a) && a.weight == 1.0
      ensures b.innovation !in old(core.connections) ==> fresh(b) && b.weight == old(cg.weight)
      ensures nodes == old(nodes) && core.nodes == old(core.nodes) && cg.active == old(cg.active)
      ensures (a in old(core.connections).Values || fresh(a)) && (b in old(core.connections).Values || fresh(b))
    {
      ghost var cc, cs := core.connections, connections;
      assert Registered(core.nodes, n);
      ghost var cc1;
      a, b, cc1 := SplitLinks(cg, n);
      FileSplit(cg, n, a, b, ni0, cc, cc1);
      AppendTwoPrefix(cs, a, b);
    }

    /** The core's connections of a split: `a` from `cg`'s input to `n`
     *  (weight 1 when new), then `b` from `n` to `cg`'s output (`cg`'s
     *  weight when new); `cc1` is the core's map between the two lookups. */
    method SplitLinks(cg: ConnectionGene, n: NodeGene) returns (a: ConnectionGene, b: ConnectionGene, ghost cc1: map<nat, ConnectionGene>)
      requires core.Valid() && Registered(core.nodes, n)
      requires Registered(core.nodes, cg.input) && Registered(core.nodes, cg.output)
      requires cg.input.id != n.id && cg.output.id != n.id
      modifies core`connections, core.innovations
      ensures core.Valid()
      ensures a.input == cg.input && a.output == n && b.input == n && b.output == cg.output
      ensures cc1 == old(core.connections)[a.innovation := a]
      ensures a.innovation in old(core.connections) ==> old(core.connections)[a.innovation] == a
      ensures core.connections == cc1[b.innovation := b] && (b.innovation in cc1 ==> cc1[b.innovation] == b)
      ensures a.innovation !in old(core.connections) ==> fresh(a) && a.weight == 1.0
      ensures b.innovation !in old(core.connections) ==> fresh(b) && b.weight == old(cg.weight)
      ensures nodes == old(nodes) && connections == old(connections) && nodeInputs == old(nodeInputs)
      ensures core.nodes == old(core.nodes) && cg.active == old(cg.active)
      ensures (a in old(core.connections).Values || fresh(a)) && (b in old(core.connections).Values || fresh(b))
    {
      a := CoreConnectionFor(cg.input, n, 1.0);
      cc1 := core.connections;
      b := CoreConnectionFor(n, cg.output, cg.weight);
    }

    /** Files the two connections of a split into the genome: `a` on a fresh
     *  entry for the new node `n`, `b` under `cg`'s output, both appended.
     *  Neither is in the genome yet (their edges are new), so the source's
     *  membership checks before appending always let them through. */
    method FileSplit(cg: ConnectionGene, n: NodeGene, a: ConnectionGene, b: ConnectionGene,
                     ghost ni0: Index, ghost cc: map<nat, ConnectionGene>, ghost cc1: map<nat, ConnectionGene>)
      requires core.Valid() && GenomeParts(nodes, connections, ni0[n.id := []], core.nodes, cc)
      requires nodeInputs == ni0[n.id := []] && n in nodes && cg in connections
      requires Untouched(ConnEdges(connections), n.id) && cg.input.id != n.id && cg.output.id != n.id
      requires a.input == cg.input && a.output == n && b.input == n && b.output == cg.output
      requires cc1 == cc[a.innovation := a] && (a.innovation in cc ==> cc[a.innovation] == a)
      requires core.connections == cc1[b.innovation := b] && (b.innovation in cc1 ==> cc1[b.innovation] == b)
      modifies this`connections, this`nodeInputs
      ensures Valid()
      ensures connections == old(connections) + [a] + [b]
      ensures nodeInputs == ni0[n.id := [a]][cg.output.id := ni0[cg.output.id] + [b]]
      ensures Acyclic(ConnEdges(old(connections))) ==> Acyclic(ConnEdges(connections))
      ensures nodes == old(nodes) && core.nodes == old(core.nodes) && cg.active == old(cg.active)
      ensures a.weight == old(a.weight) && b.weight == old(b.weight)
    {
      SplitParts(nodes, connections, ni0, core.nodes, cc, cc1, core.connections, n, cg, a, b);
      SplitEntries(ni0, n.id, cg.output.id, a, b);
      var ni: Index := nodeInputs[n.id := [a]];
      ni := ni[cg.output.id := ni[cg.output.id] + [b]];
      SetGenes(connections + [a] + [b], ni, {cg, a, b});
    }

    /** Installs a connection list and its index that keep the genome in
     *  good standing with its core; the nodes, the core's nodes and the
     *  connection objects of `keep` stay as they are. */
    method SetGenes(cs: seq<ConnectionGene>, ni: Index, ghost keep: set<ConnectionGene>)
      requires core.Valid() && GenomeParts(nodes, cs, ni, core.nodes, core.connections)
      modifies this`connections, this`nodeInputs
      ensures Valid() && connections == cs && nodeInputs == ni
      ensures nodes == old(nodes) && core.nodes == old(core.nodes) && unchanged(keep)
    {
      connections, nodeInputs := cs, ni;
    }

    /** Whether the connection mutation, once its draw fires, gets as far as
     *  the path search (lines 454 and 468), the only step that reads the
     *  index: the core has a candidate the genome lacks, or some end node
     *  is free for the `pick`-th input or hidden node. Otherwise it returns
     *  at line 451 having changed nothing. */
    predicate SearchesPath(pick: nat)
      reads this`nodes, this`connections, core`connections
    {
      || UnusedKeys(nodes, connections, core.connections) != {}
      || (pick < |NodesOfLayers(nodes, {Hidden, Input})| &&
          var start := NodesOfLayers(nodes, {Hidden, Input})[pick];
          FreeEnds(EndNodes(nodes, start), core.connections, CoreCandidates(nodes, core.connections), start) != [])
    }

    /** The connection mutation: with probability CONNECTION_PROB (`draw` is
     *  the `nextFloat` draw) the genome may gain one connection. When the
     *  core has connections between listed nodes whose numbers the genome
     *  lacks, a copy of one of them (the first in map order, so any of them)
     *  is offered. Otherwise a connection is made from the `pick`-th input
     *  or hidden node to the first hidden or output node, other than that
     *  start, that the core joins it to by none of those connections; it is
     *  registered in the core with the weight drawn from `u`, and the genome
     *  gets a copy. Either way the copy is added only when its output does
     *  not already reach its input. */
    method MutateConnectionGene(draw: UnitReal, pick: nat, u: UnitReal)
      requires draw < CONNECTION_PROB && SearchesPath(pick) ==> Valid()
      requires draw < CONNECTION_PROB && UnusedKeys(nodes, connections, core.connections) == {} ==>
        pick < |NodesOfLayers(nodes, {Hidden, Input})|
      modifies this`connections, this`nodeInputs, this`seenNodes, core`connections, core.innovations
      ensures !(draw < CONNECTION_PROB && old(SearchesPath(pick))) ==>
        connections == old(connections) && nodeInputs == old(nodeInputs) && core.connections == old(core.connections)
      ensures draw < CONNECTION_PROB && old(SearchesPath(pick)) ==> Valid()
      ensures Acyclic(ConnEdges(old(connections))) ==> Acyclic(ConnEdges(connections))
      ensures old(connections) <= connections && |connections| <= |old(connections)| + 1
      ensures old(Valid()) ==> Valid()
      ensures forall i | 0 <= i < |old(connections)| :: connections[i].weight == old(connections[i].weight)
      ensures draw < CONNECTION_PROB && UnusedKeys(old(nodes), old(connections), old(core.connections)) != {} ==>
        exists k | k in UnusedKeys(old(nodes), old(connections), old(core.connections)) ::
          ReusedBy(old(connections), old(nodeInputs), old(core.connections), old(core.connections)[k])
      ensures draw < CONNECTION_PROB && UnusedKeys(old(nodes), old(connections), old(core.connections)) == {} ==>
        var start := NodesOfLayers(old(nodes), {Hidden, Input})[pick];
        var free := FreeEnds(EndNodes(old(nodes), start), old(core.connections), CoreCandidates(old(nodes), old(core.connections)), start);
        if free == [] || Reaches(ConnEdges(old(connections)), free[0].id, start.id) then
          connections == old(connections) && nodeInputs == old(nodeInputs) && core.connections == old(core.connections)
        else
          exists g :: CreatedBy(old(connections), old(nodeInputs), old(core.connections), old(core.innovations.next), start, free[0], u, g)
    {
      if draw >= CONNECTION_PROB {
        return;
      }
      var unused := UnusedKeys(nodes, connections, core.connections);
      if unused != {} {
        var k :| k in unused;
        ReuseConnection(core.connections[k]);
      } else {
        var start := NodesOfLayers(nodes, {Hidden, Input})[pick];
        var end := FirstFreeEnd(EndNodes(nodes, start), core.connections, CoreCandidates(nodes, core.connections), start);
        if end.Some? {
          NewConnection(start, end.value, u);
        }
      }
    }

    /** One round of mutation: the node mutation (draw `nodeDraw`, split
     *  pick `split`), then a weight mutation of every connection listed by
     *  then, the i-th with draw `ds(i)`, then the connection mutation (draw
     *  `connDraw`, start pick `start`, new weight from `u`). */
    method Mutate(nodeDraw: UnitReal, split: nat, ds: nat -> WeightDraw, connDraw: UnitReal, start: nat, u: UnitReal)
      requires DistinctInnovations(connections)
      requires connections != [] && nodeDraw < NODE_PROB ==> Valid() && split < |ActiveOf(connections)|
      requires connDraw < CONNECTION_PROB && SearchesPath(start) ==> Valid()
      requires connDraw < CONNECTION_PROB ==> start < |NodesOfLayers(nodes, {Hidden, Input})|
      modifies this`nodes, this`connections, this`nodeInputs, this`seenNodes
      modifies core`nodes, core`connections, core.nodeIds, core.innovations
      modifies (set c | c in connections), core.connections.Values
      ensures old(Valid()) ==> Valid()
      ensures Acyclic(ConnEdges(old(connections))) ==> Acyclic(ConnEdges(connections))
      ensures old(nodes) <= nodes && |nodes| <= |old(nodes)| + 1
      ensures old(connections) <= connections && |connections| <= |old(connections)| + 3
      ensures forall i | 0 <= i < |old(connections)| ::
        connections[i].weight == MutatedWeight(old(connections[i].weight), ds(i))
      ensures (old(connections) == [] || nodeDraw >= NODE_PROB) && !(connDraw < CONNECTION_PROB && old(SearchesPath(start))) ==>
        nodes == old(nodes) && connections == old(connections) && nodeInputs == old(nodeInputs)
    {
      ghost var ns := nodes;
      SplitThenWeigh(nodeDraw, split, ds);
      NodesOfLayersPrefix(ns, nodes, {Hidden, Input});
      MutateConnectionGene(connDraw, start, u);
    }

    /** The first two steps of `mutate`: the node mutation, then the weight
     *  mutation of every connection listed by then. */
    method SplitThenWeigh(nodeDraw: UnitReal, split: nat, ds: nat -> WeightDraw)
      requires DistinctInnovations(connections)
      requires connections != [] && nodeDraw < NODE_PROB ==> Valid() && split < |ActiveOf(connections)|
      modifies this`nodes, this`connections, this`nodeInputs
      modifies core`nodes, core`connections, core.nodeIds, core.innovations
      modifies (set c | c in connections), core.connections.Values
      ensures old(Valid()) || (old(connections) != [] && nodeDraw < NODE_PROB) ==> Valid()
      ensures Acyclic(ConnEdges(old(connections))) ==> Acyclic(ConnEdges(connections))
      ensures old(nodes) <= nodes && |nodes| <= |old(nodes)| + 1
      ensures old(connections) <= connections && |connections| <= |old(connections)| + 2
      ensures forall i | 0 <= i < |old(connections)| ::
        connections[i].weight == MutatedWeight(old(connections[i].weight), ds(i))
      ensures old(connections) == [] || nodeDraw >= NODE_PROB ==>
        && nodes == old(nodes) && connections == old(connections) && nodeInputs == old(nodeInputs)
        && core.connections == old(core.connections)
    {
      ghost var cs := connections;
      ghost var ws := seq(|cs|, i requires 0 <= i < |cs| reads cs => cs[i].weight);
      assert forall i | 0 <= i < |cs| :: allocated(cs[i]);
      MutateNodeGene(nodeDraw, split);
      assert forall i | 0 <= i < |cs| :: cs[i].weight == ws[i];
      MutateWeights(ds);
    }

    /** The weight mutation of every listed connection, the i-th with draw
     *  `ds(i)`; the listed connections are distinct objects, so each is
     *  mutated once. */
    method MutateWeights(ds: nat -> WeightDraw)
      requires DistinctInnovations(connections)
      modifies (set c | c in connections)`weight
      ensures forall i | 0 <= i < |connections| :: connections[i].weight == MutatedWeight(old(connections[i].weight), ds(i))
    {
      for i := 0 to |connections|
        invariant forall j | 0 <= j < i :: connections[j].weight == MutatedWeight(old(connections[j].weight), ds(j))
        invariant forall j | i <= j < |connections| :: connections[j].weight == old(connections[j].weight)
      {
        connections[i].Mutate(ds(i));
      }
    }

    /** The genome after a fresh active copy of the core's connection `g`,
     *  with `g`'s weight, was appended to connections `cs` and filed under
     *  its output in index `ni`. */
    ghost predicate Filed(cs: seq<ConnectionGene>, ni: Index, g: ConnectionGene)
      reads this`connections, this`nodeInputs, g, connections
    {
      && |connections| == |cs| + 1 && connections == cs + [connections[|cs|]]
      && g.output.id in ni && nodeInputs == ni[g.output.id := ni[g.output.id] + [connections[|cs|]]]
      && SameGene(connections[|cs|], g) && connections[|cs|].weight == g.weight && connections[|cs|].active
    }

    /** Offering a copy of the core's connection `g` to a genome with
     *  connections `cs` and index `ni` whose core maps `cc`: when `g`'s
     *  output already reaches its input nothing changes, otherwise the copy
     *  is filed; the core stays as it was. */
    ghost predicate ReusedBy(cs: seq<ConnectionGene>, ni: Index, cc: map<nat, ConnectionGene>, g: ConnectionGene)
      reads this`connections, this`nodeInputs, core, g, connections
    {
      && core.connections == cc
      && (Reaches(ConnEdges(cs), g.output.id, g.input.id) ==> connections == cs && nodeInputs == ni)
      && (!Reaches(ConnEdges(cs), g.output.id, g.input.id) ==> Filed(cs, ni, g))
    }

    /** A new connection `g` from `start` to `end`, numbered `next` by the
     *  shared counter, active and with the weight drawn from `u`, was
     *  registered in a core whose map was `cc`, and a copy of it filed. */
    ghost predicate CreatedBy(cs: seq<ConnectionGene>, ni: Index, cc: map<nat, ConnectionGene>, next: nat,
                              start: NodeGene, end: NodeGene, u: UnitReal, g: ConnectionGene)
      reads this`connections, this`nodeInputs, core, g, connections
    {
      && g.innovation == next && next !in cc && core.connections == cc[next := g]
      && g.input == start && g.output == end && g.active && g.weight == RandomWeight(u)
      && Filed(cs, ni, g)
    }

    /** The branch that reuses the core's connection `g`, one whose ends the
     *  genome lists and whose number it lacks. */
    method ReuseConnection(g: ConnectionGene)
      requires Valid() && g.innovation in UnusedKeys(nodes, connections, core.connections)
      requires core.connections[g.innovation] == g
      modifies this`connections, this`nodeInputs, this`seenNodes
      ensures Valid() && ReusedBy(old(connections), old(nodeInputs), old(core.connections), g)
      ensures old(connections) <= connections
      ensures forall i | 0 <= i < |old(connections)| :: connections[i].weight == old(connections[i].weight)
      ensures Acyclic(ConnEdges(old(connections))) ==> Acyclic(ConnEdges(connections))
      ensures |connections| > |old(connections)| ==> fresh(connections[|old(connections)|])
    {
      ghost var ns, cs, ni, cc := nodes, connections, nodeInputs, core.connections;
      UnusedEdgeNew(ns, cs, ni, core.nodes, cc, core.nodeIds.next, core.innovations.next, g.innovation);
      var c := g.Copy();
      ShapedIndex();
      var hasPath := ContainsPath(c.output, c.input);
      if !hasPath {
        SameEntry(cc, g.innovation);
        AppendAcyclic(cs, c);
        FileGene(c, g, cc);
      }
    }

    /** The branch that makes a new connection from `start` to `end`, two
     *  distinct listed nodes no connection of the core between listed nodes
     *  joins in that direction. */
    method NewConnection(start: NodeGene, end: NodeGene, u: UnitReal)
      requires Valid() && start in nodes && end in nodes && start.id != end.id
      requires !JoinedInCore(core.connections, CoreCandidates(nodes, core.connections), start, end)
      modifies this`connections, this`nodeInputs, this`seenNodes, core`connections, core.innovations
      ensures Valid() && (Acyclic(ConnEdges(old(connections))) ==> Acyclic(ConnEdges(connections)))
      ensures Reaches(ConnEdges(old(connections)), end.id, start.id) ==>
        connections == old(connections) && nodeInputs == old(nodeInputs) && core.connections == old(core.connections)
      ensures !Reaches(ConnEdges(old(connections)), end.id, start.id) ==>
        exists g :: CreatedBy(old(connections), old(nodeInputs), old(core.connections), old(core.innovations.next), start, end, u, g)
      ensures old(connections) <= connections
      ensures forall i | 0 <= i < |old(connections)| :: connections[i].weight == old(connections[i].weight)
    {
      FreeEdgeNew(nodes, connections, nodeInputs, core.nodes, core.connections, start, end);
      ShapedIndex();
      var hasPath := ContainsPath(end, start);
      if hasPath {
        return;
      }
      var g := AddNewConnection(start, end, u);
    }

    /** The rest of that branch once the path check has passed: a new
     *  connection from `start` to `end`, with the weight `u` draws, is
     *  registered with the core, and a copy of it is appended and filed. */
    method AddNewConnection(start: NodeGene, end: NodeGene, u: UnitReal) returns (g: ConnectionGene)
      requires Valid() && start.id in NodeIds(nodes) && end.id in NodeIds(nodes) && start.id != end.id
      requires Registered(core.nodes, start) && Registered(core.nodes, end)
      requires forall k | k in core.connections :: core.connections[k].input.id != start.id || core.connections[k].output.id != end.id
      requires (start.id, end.id) !in ConnEdges(connections) && !Reaches(ConnEdges(connections), end.id, start.id)
      modifies this`connections, this`nodeInputs, core`connections, core.innovations
      ensures Valid() && (Acyclic(ConnEdges(old(connections))) ==> Acyclic(ConnEdges(connections)))
      ensures CreatedBy(old(connections), old(nodeInputs), old(core.connections), old(core.innovations.next), start, end, u, g)
      ensures old(connections) <= connections
      ensures forall i | 0 <= i < |old(connections)| :: connections[i].weight == old(connections[i].weight)
    {
      ghost var cs, ni, cc, next := connections, nodeInputs, core.connections, core.innovations.next;
      g := RegisterConnection(start, end, u);
      var c := g.Copy();
      AppendAcyclic(cs, c);
      FileGene(c, g, cc);
      assert Filed(cs, ni, g);
    }

    /** A new connection from `start` to `end`, with the weight `u` draws,
     *  takes the core's next innovation number and is put in its map. */
    method RegisterConnection(start: NodeGene, end: NodeGene, u: UnitReal) returns (g: ConnectionGene)
      requires core.Valid() && Registered(core.nodes, start) && Registered(core.nodes, end) && start.id != end.id
      requires forall k | k in core.connections :: core.connections[k].input.id != start.id || core.connections[k].output.id != end.id
      modifies core`connections, core.innovations
      ensures core.Valid() && fresh(g)
      ensures g.innovation == old(core.innovations.next) && g.innovation !in old(core.connections)
      ensures g.input == start && g.output == end && g.active && g.weight == RandomWeight(u)
      ensures core.connections == old(core.connections)[g.innovation := g]
    {
      g := new ConnectionGene(start, end, core.innovations, u);
      core.PutConnection(g);
    }

    /** Appends `c`, a copy of the core's connection `g` or `g` itself, and
     *  files it under its output; the core's connection map is `cc` grown
     *  by `g`, and no listed connection joins `c`'s ends. */
    method FileGene(c: ConnectionGene, g: ConnectionGene, ghost cc: map<nat, ConnectionGene>)
      requires core.Valid() && GenomeParts(nodes, connections, nodeInputs, core.nodes, cc)
      requires c.input.id in NodeIds(nodes) && c.output.id in NodeIds(nodes)
      requires (c.input.id, c.output.id) !in ConnEdges(connections)
      requires core.connections == cc[c.innovation := g] && SameGene(g, c) && (c.innovation in cc ==> cc[c.innovation] == g)
      modifies this`connections, this`nodeInputs
      ensures Valid() && connections == old(connections) + [c]
      ensures nodeInputs == old(nodeInputs)[c.output.id := old(nodeInputs)[c.output.id] + [c]]
      ensures unchanged(c, g)
      ensures forall i | 0 <= i < |old(connections)| :: connections[i].weight == old(connections[i].weight)
    {
      var ni: Index := nodeInputs[c.output.id := nodeInputs[c.output.id] + [c]];
      JoinParts(nodes, connections, nodeInputs, core.nodes, cc, core.connections, c, g, connections + [c], ni);
      SetGenes(connections + [c], ni, {c, g});
    }

    /** The network's output for `input`: `input[i]` is bound to the core's
     *  node with id `i`, then each output node, in list order, is evaluated
     *  with `hidden` and `output` as the activations and its value reported.
     *  `ok` is false when evaluation gave up, where the program exits.
     *  Under `Evaluable`, every evaluated node satisfies its evaluation
     *  equation; an acyclic index of at most MAX_RECURSION + 1 entries never
     *  makes evaluation give up. */
    method ComputeOutput(input: seq<real>, hidden: real -> real, output: real -> real) returns (ok: bool, values: seq<real>)
      modifies this`nodeValues
      ensures ok ==> |values| == |NodesOfLayers(nodes, {Output})|
      ensures ok ==> forall i | 0 <= i < |input| && i in core.nodes && !HasId(NodesOfLayers(nodes, {Output}), i) ::
        i in nodeValues && nodeValues[i] == input[i]
      ensures ok && Evaluable(|input|) ==>
        var outs := NodesOfLayers(nodes, {Output});
        && Sound(nodeInputs, nodeValues, BoundKeys(|input|) - NodeIds(outs), core.nodes, hidden, output)
        && forall i | 0 <= i < |outs| :: Settled(nodeInputs, nodeValues, outs[i], hidden, output) && values[i] == nodeValues[outs[i].id]
      ensures Acyclic(IndexEdges(nodeInputs)) && |nodeInputs| <= MAX_RECURSION + 1 ==> ok
    {
      BindInputs(input);
      ghost var bound := BoundKeys(|input|);
      ghost var sound := Evaluable(|input|);
      ghost var V0 := nodeValues;
      ghost var exempt := bound;
      var outs := NodesOfLayers(nodes, {Output});
      if sound {
        NodesOfLayersDistinct(nodes, {Output});
      }
      values := [];
      for i := 0 to |outs|
        invariant |values| == i
        invariant forall k | k in V0 && !HasId(outs, k) :: k in nodeValues && nodeValues[k] == V0[k]
        invariant sound ==> exempt <= bound && Sound(nodeInputs, nodeValues, exempt, core.nodes, hidden, output)
        invariant sound ==> forall j | 0 <= j < i ::
          outs[j].id in nodeValues && outs[j].id !in exempt && values[j] == nodeValues[outs[j].id]
      {
        ok := EvaluateOutput(outs, i, |input|, hidden, output, exempt, sound);
        if !ok {
          return;
        }
        values := values + [nodeValues[outs[i].id]];
        exempt := exempt - {outs[i].id};
      }
      ok := true;
      if sound {
        SoundExempt(nodeInputs, nodeValues, exempt, bound - NodeIds(outs), core.nodes, hidden, output);
        forall j | 0 <= j < |outs| ensures Settled(nodeInputs, nodeValues, outs[j], hidden, output) {
          assert Registered(core.nodes, outs[j]);
        }
      }
    }

    /** Binds `input[i]` to the core's node with id `i`, on fresh values. */
    method BindInputs(input: seq<real>)
      modifies this`nodeValues
      ensures forall k | k in nodeValues :: k < |input| && k in core.nodes && nodeValues[k] == input[k]
      ensures forall k | 0 <= k < |input| && k in core.nodes :: k in nodeValues
    {
      nodeValues := map[];
      for i := 0 to |input|
        invariant forall k | k in nodeValues :: k < i && k in core.nodes && nodeValues[k] == input[k]
        invariant forall k | 0 <= k < i && k in core.nodes :: k in nodeValues
      {
        if i in core.nodes {
          nodeValues := nodeValues[i := input[i]];
        }
      }
    }

    /** Evaluates the `i`-th output node from depth 0; the keys of `exempt`
     *  are bound from an input of length `inputCount` and not yet evaluated. */
    method EvaluateOutput(outs: seq<NodeGene>, i: nat, inputCount: nat, hidden: real -> real, output: real -> real,
                          ghost exempt: set<nat>, ghost sound: bool) returns (ok: bool)
      requires i < |outs| && outs == NodesOfLayers(nodes, {Output})
      requires sound ==> Evaluable(inputCount) && exempt <= BoundKeys(inputCount)
      requires sound ==> Sound(nodeInputs, nodeValues, exempt, core.nodes, hidden, output)
      modifies this`nodeValues
      ensures ok ==> outs[i].id in nodeValues
      ensures ok ==> forall k | k in old(nodeValues) && k != outs[i].id :: k in nodeValues && nodeValues[k] == old(nodeValues)[k]
      ensures ok && sound ==> Sound(nodeInputs, nodeValues, exempt - {outs[i].id}, core.nodes, hidden, output)
      ensures Acyclic(IndexEdges(nodeInputs)) && |nodeInputs| <= MAX_RECURSION + 1 ==> ok
    {
      var ng := outs[i];
      if sound {
        assert ng in nodes && ng.layer == Output;
        assert Registered(core.nodes, ng);
      }
      ok := ComputeNodeOutput(ng, 0, hidden, output, exempt, sound, [], Acyclic(IndexEdges(nodeInputs)) && |nodeInputs| <= MAX_RECURSION + 1);
    }

    /** The setting in which evaluation is sound: an acyclic index whose
     *  connections, like the listed nodes, start at the core's own nodes,
     *  listed nodes with distinct ids, and no output node whose value is
     *  bound from an input of length `inputCount` read by a connection. */
    ghost predicate Evaluable(inputCount: nat)
      reads this`nodes, this`nodeInputs, core
    {
      && Acyclic(IndexEdges(nodeInputs)) && IndexRegistered(nodeInputs, core.nodes)
      && (forall m | m in nodes :: Registered(core.nodes, m)) && DistinctIds(nodes)
      && (forall m | m in nodes && m.layer == Output && m.id < inputCount :: FeedsNothing(nodeInputs, m.id))
    }

    /** The keys the input binds. */
    ghost function BoundKeys(inputCount: nat): set<nat>
      reads core
    {
      set k | 0 <= k < inputCount && k in core.nodes
    }

    /** The recursive evaluation of node `ng` at recursion depth `depth`,
     *  each node's value stored once in `nodeValues` and reused; `ok` is
     *  false when an input still lacks a value at a depth above
     *  MAX_RECURSION. Ghost `bound` are keys exempt from the evaluation
     *  equation (bound from the input); the evaluation is sound when `sound`
     *  (see `SoundCall`), and cannot give up when `bounded`, with `chain`
     *  the nodes it is nested in. */
    method ComputeNodeOutput(ng: NodeGene, depth: nat, hidden: real -> real, output: real -> real,
                             ghost bound: set<nat>, ghost sound: bool, ghost chain: seq<nat>, ghost bounded: bool)
      returns (ok: bool)
      requires depth <= MAX_RECURSION + 1
      requires sound ==> SoundCall(ng, bound, hidden, output)
      requires bounded ==> Acyclic(IndexEdges(nodeInputs)) && |nodeInputs| <= MAX_RECURSION + 1
      requires bounded ==> |chain| == depth && ChainOk(nodeInputs, ng.id, chain)
      modifies this`nodeValues
      decreases MAX_RECURSION + 1 - depth, 3
      ensures ok ==> ng.id in nodeValues
      ensures ok ==> forall k | k in old(nodeValues) && k != ng.id :: k in nodeValues && nodeValues[k] == old(nodeValues)[k]
      ensures ok ==> forall k | k in nodeValues && k !in old(nodeValues) :: k == ng.id || Reaches(IndexEdges(nodeInputs), k, ng.id)
      ensures ok && sound ==>
        Sound(nodeInputs, nodeValues, bound - {ng.id}, core.nodes, hidden, output) && Settled(nodeInputs, nodeValues, ng, hidden, output)
      ensures bounded ==> ok
    {
      if ng.id !in nodeInputs {
        SettleLeaf(ng, hidden, output, bound, sound);
        return true;
      }
      ok := SettleNode(ng, depth, hidden, output, bound, sound, chain, bounded);
    }

    /** A node with an entry: the weighted sum of its inputs, through the
     *  activation of its layer (lines 510-531). */
    method SettleNode(ng: NodeGene, depth: nat, hidden: real -> real, output: real -> real,
                      ghost bound: set<nat>, ghost sound: bool, ghost chain: seq<nat>, ghost bounded: bool)
      returns (ok: bool)
      requires depth <= MAX_RECURSION + 1 && ng.id in nodeInputs
      requires sound ==> SoundCall(ng, bound, hidden, output)
      requires bounded ==> Acyclic(IndexEdges(nodeInputs)) && |nodeInputs| <= MAX_RECURSION + 1
      requires bounded ==> |chain| == depth && ChainOk(nodeInputs, ng.id, chain)
      modifies this`nodeValues
      decreases MAX_RECURSION + 1 - depth, 2
      ensures ok ==> ng.id in nodeValues
      ensures ok ==> forall k | k in old(nodeValues) && k != ng.id :: k in nodeValues && nodeValues[k] == old(nodeValues)[k]
      ensures ok ==> forall k | k in nodeValues && k !in old(nodeValues) :: k == ng.id || Reaches(IndexEdges(nodeInputs), k, ng.id)
      ensures ok && sound ==>
        Sound(nodeInputs, nodeValues, bound - {ng.id}, core.nodes, hidden, output) && Settled(nodeInputs, nodeValues, ng, hidden, output)
      ensures bounded ==> ok
    {
      ghost var V0 := nodeValues;
      var sum;
      ok, sum := SumInputs(ng, depth, hidden, output, bound, sound, chain, bounded);
      if !ok {
        return;
      }
      if sound {
        FinishNode(nodeInputs, V0, nodeValues, bound, core.nodes, ng, hidden, output);
      }
      nodeValues := nodeValues[ng.id := Activate(hidden, output, ng.layer, sum)];
    }

    /** A node without an entry evaluates to 0 (line 507). */
    method SettleLeaf(ng: NodeGene, hidden: real -> real, output: real -> real, ghost bound: set<nat>, ghost sound: bool)
      requires ng.id !in nodeInputs
      requires sound ==> SoundCall(ng, bound, hidden, output)
      modifies this`nodeValues
      ensures nodeValues == old(nodeValues)[ng.id := 0.0]
      ensures sound ==>
        Sound(nodeInputs, nodeValues, bound - {ng.id}, core.nodes, hidden, output) && Settled(nodeInputs, nodeValues, ng, hidden, output)
    {
      if sound {
        FinishLeaf(nodeInputs, nodeValues, bound, core.nodes, ng, hidden, output);
      }
      nodeValues := nodeValues[ng.id := 0.0];
    }

    /** The loop over the entry of `ng`: each input is given a value if it
     *  has none, and its value times the connection's weight is added up. */
    method SumInputs(ng: NodeGene, depth: nat, hidden: real -> real, output: real -> real,
                     ghost bound: set<nat>, ghost sound: bool, ghost chain: seq<nat>, ghost bounded: bool)
      returns (ok: bool, sum: real)
      requires depth <= MAX_RECURSION + 1 && ng.id in nodeInputs
      requires sound ==> SoundState(bound, hidden, output)
      requires bounded ==> Acyclic(IndexEdges(nodeInputs)) && |nodeInputs| <= MAX_RECURSION + 1
      requires bounded ==> |chain| == depth && ChainOk(nodeInputs, ng.id, chain)
      modifies this`nodeValues
      decreases MAX_RECURSION + 1 - depth, 1
      ensures ok ==> Valued(nodeInputs[ng.id], nodeValues) && sum == WeightedSum(nodeInputs[ng.id], nodeValues)
      ensures ok ==> forall k | k in old(nodeValues) :: k in nodeValues && nodeValues[k] == old(nodeValues)[k]
      ensures ok ==> forall k | k in nodeValues && k !in old(nodeValues) :: Reaches(IndexEdges(nodeInputs), k, ng.id)
      ensures ok && sound ==> Sound(nodeInputs, nodeValues, bound, core.nodes, hidden, output)
      ensures bounded ==> ok
    {
      var ins := nodeInputs[ng.id];
      sum := 0.0;
      for i := 0 to |ins|
        invariant Valued(ins[..i], nodeValues) && sum == WeightedSum(ins[..i], nodeValues)
        invariant forall k | k in old(nodeValues) :: k in nodeValues && nodeValues[k] == old(nodeValues)[k]
        invariant forall k | k in nodeValues && k !in old(nodeValues) :: Reaches(IndexEdges(nodeInputs), k, ng.id)
        invariant sound ==> SoundState(bound, hidden, output)
      {
        var cg := ins[i];
        ghost var Vi := nodeValues;
        ok := ValueInput(cg, ng, depth, hidden, output, bound, sound, chain, bounded);
        if !ok {
          return;
        }
        var next := sum + nodeValues[cg.input.id] * cg.weight;
        SumStep(ins, i, Vi, nodeValues, sum, next);
        sum := next;
      }
      assert ins[..|ins|] == ins;
      ok := true;
    }

    /** One step of the loop: the input of connection `cg` of `ng`'s entry
     *  is evaluated, one level deeper, unless it has a value; at a depth
     *  above MAX_RECURSION evaluation gives up instead. */
    method ValueInput(cg: ConnectionGene, ng: NodeGene, depth: nat, hidden: real -> real, output: real -> real,
                      ghost bound: set<nat>, ghost sound: bool, ghost chain: seq<nat>, ghost bounded: bool)
      returns (ok: bool)
      requires depth <= MAX_RECURSION + 1 && ng.id in nodeInputs && cg in nodeInputs[ng.id]
      requires sound ==> SoundState(bound, hidden, output)
      requires bounded ==> Acyclic(IndexEdges(nodeInputs)) && |nodeInputs| <= MAX_RECURSION + 1
      requires bounded ==> |chain| == depth && ChainOk(nodeInputs, ng.id, chain)
      modifies this`nodeValues
      decreases MAX_RECURSION + 1 - depth, 0
      ensures ok ==> cg.input.id in nodeValues
      ensures ok ==> forall k | k in old(nodeValues) :: k in nodeValues && nodeValues[k] == old(nodeValues)[k]
      ensures ok ==> forall k | k in nodeValues && k !in old(nodeValues) :: Reaches(IndexEdges(nodeInputs), k, ng.id)
      ensures ok && sound ==> SoundState(bound, hidden, output)
      ensures bounded ==> ok
    {
      if cg.input.id in nodeValues {
        return true;
      }
      ghost var E := IndexEdges(nodeInputs);
      assert (cg.input.id, ng.id) in E;
      if bounded {
        ChainBound(nodeInputs, ng.id, chain);
        ChainStep(nodeInputs, ng.id, chain, cg.input.id);
      }
      if depth > MAX_RECURSION {
        return false;
      }
      ghost var V0 := nodeValues;
      ok := ComputeNodeOutput(cg.input, depth + 1, hidden, output, bound, sound, chain + [ng.id], bounded);
      if ok {
        NewKeysReach(E, V0, nodeValues, cg.input.id, ng.id);
        if sound {
          SoundExempt(nodeInputs, nodeValues, bound - {cg.input.id}, bound, core.nodes, hidden, output);
        }
      }
    }

    /** The setting of a sound evaluation: an acyclic index whose connections
     *  start at the core's nodes, and values sound apart from `bound`. */
    ghost predicate SoundState(bound: set<nat>, hidden: real -> real, output: real -> real)
      reads this`nodeInputs, this`nodeValues, core, FiledGenes(nodeInputs)
    {
      && Acyclic(IndexEdges(nodeInputs)) && IndexRegistered(nodeInputs, core.nodes)
      && Sound(nodeInputs, nodeValues, bound, core.nodes, hidden, output)
    }

    /** The setting of a sound evaluation of `ng`, a node of the core whose
     *  value, if bound, no connection reads. */
    ghost predicate SoundCall(ng: NodeGene, bound: set<nat>, hidden: real -> real, output: real -> real)
      reads this`nodeInputs, this`nodeValues, core, FiledGenes(nodeInputs)
    {
      && SoundState(bound, hidden, output) && Registered(core.nodes, ng)
      && (ng.id in nodeValues && ng.id in bound ==> FeedsNothing(nodeInputs, ng.id))
    }

    /** Appends the given connection objects themselves, not copies; the
     *  index is left as it is. */
    method AddConnections(cs: seq<ConnectionGene>)
      modifies this`connections
      ensures connections == old(connections) + cs
    {
      connections := connections + cs;
    }

    /** Appends the given nodes; the index is left as it is. */
    method AddNodes(ns: seq<NodeGene>)
      modifies this`nodes
      ensures nodes == old(nodes) + ns
    {
      nodes := nodes + ns;
    }

    /** The natural order of genomes: by fitness. */
    function CompareTo(g: Genome): (r: int)
      reads this`fitness, g`fitness
      ensures -1 <= r <= 1
      ensures r > 0 <==> fitness > g.fitness
      ensures r < 0 <==> fitness < g.fitness
      ensures r == 0 <==> fitness == g.fitness
    {
      if fitness > g.fitness then 1
      else if fitness < g.fitness then -1
      else 0
    }
  }

  /** `CompareTo` is a total order on fitness, the order `Collections.max`
   *  uses to pick the fittest genome. */
  lemma CompareToIsTotalOrder(a: Genome, b: Genome, c: Genome)
    ensures a.CompareTo(b) == -b.CompareTo(a)
    ensures a.CompareTo(b) <= 0 && b.CompareTo(c) <= 0 ==> a.CompareTo(c) <= 0
    ensures a.CompareTo(b) <= 0 || b.CompareTo(a) <= 0
  {
  }

  /** The copies of a parent's genes in a map keyed by innovation number; a
   *  later gene with a number already present replaces the earlier one. */
  method CopyByInnovation(cs: seq<ConnectionGene>) returns (m: map<nat, ConnectionGene>)
    ensures CopiesOf(m, cs) && forall k | k in m :: fresh(m[k])
  {
    m := map[];
    var i := 0;
    while i < |cs|
      invariant 0 <= i <= |cs|
      invariant m.Keys == Innovations(cs[..i])
      invariant forall k | k in m :: fresh(m[k]) && m[k].active && m[k].innovation == k
      invariant forall k | k in m :: SameGene(m[k], LastGene(cs[..i], k)) && m[k].weight == LastGene(cs[..i], k).weight
    {
      var c := cs[i].Copy();
      ghost var p := cs[..i];
      assert cs[..i + 1] == p + [cs[i]];
      AppendInnovation(p, cs[i]);
      forall k | k in Innovations(p + [cs[i]]) && k != cs[i].innovation
        ensures k in Innovations(p) && LastGene(p + [cs[i]], k) == LastGene(p, k)
      {
        LastGeneAppend(p, cs[i], k);
      }
      LastGeneAppend(p, cs[i], cs[i].innovation);
      m := m[cs[i].innovation := c];
      i := i + 1;
    }
    assert cs[..i] == cs;
  }

  /** Both parents' genes copied into maps by innovation number, and the
   *  copies of the numbers both parents carry (the matching genes) set apart
   *  in two more maps. */
  method ParentCopies(bs: seq<ConnectionGene>, ws: seq<ConnectionGene>)
    returns (bpc: map<nat, ConnectionGene>, wpc: map<nat, ConnectionGene>,
             bpm: map<nat, ConnectionGene>, wpm: map<nat, ConnectionGene>)
    ensures CopiesOf(bpc, bs) && CopiesOf(wpc, ws)
    ensures forall k | k in bpc :: fresh(bpc[k])
    ensures forall k | k in wpc :: fresh(wpc[k])
    ensures bpm.Keys == bpc.Keys * wpc.Keys && wpm.Keys == bpm.Keys
    ensures forall k | k in bpm :: bpm[k] == bpc[k] && wpm[k] == wpc[k]
  {
    bpc := CopyByInnovation(bs);
    wpc := CopyByInnovation(ws);
    var keys := bpc.Keys * wpc.Keys;
    bpm := map k | k in keys :: bpc[k];
    wpm := map k | k in keys :: wpc[k];
    assert bpm.Keys == keys && wpm.Keys == keys;
  }

  /** The matching phase of crossover: for each innovation number both
   *  parents carry, in map order, a fresh copy of the better parent's gene
   *  with the weight of the better parent's gene when `pickBetter(k)` holds
   *  and of the worse parent's otherwise; the copy is filed under its output
   *  node, and its end nodes are listed after the `io` nodes when missing. */
  method MatchingGenes(bpm: map<nat, ConnectionGene>, wpm: map<nat, ConnectionGene>, io: seq<NodeGene>,
                       pickBetter: nat -> bool)
    returns (cs: seq<ConnectionGene>, ns: seq<NodeGene>, ni: Index)
    requires bpm.Keys == wpm.Keys
    requires forall k | k in bpm :: bpm[k].innovation == k
    ensures Innovations(cs) == bpm.Keys && DistinctInnovations(cs)
    ensures forall i | 0 <= i < |cs| ::
      && fresh(cs[i]) && cs[i].innovation in bpm
      && Inherits(cs[i], bpm[cs[i].innovation], wpm[cs[i].innovation], pickBetter(cs[i].innovation))
    ensures io <= ns && forall i | |io| <= i < |ns| :: ns[i] in EndpointNodes(cs)
    ensures NodeIds(ns) == NodeIds(io) + EndpointIds(cs)
    ensures DistinctIds(io) ==> DistinctIds(ns)
    ensures IndexMatches(ni, cs)
  {
    cs, ns, ni := [], io, map[];
    var todo := bpm.Keys;
    while todo != {}
      invariant todo <= bpm.Keys
      invariant MatchedParts(cs, ns, ni, io, bpm.Keys, todo)
      invariant forall i | 0 <= i < |cs| ::
        && fresh(cs[i]) && cs[i].innovation in bpm
        && Inherits(cs[i], bpm[cs[i].innovation], wpm[cs[i].innovation], pickBetter(cs[i].innovation))
      decreases todo
    {
      var k :| k in todo;
      var childCg := InheritedCopy(bpm[k], wpm[k], pickBetter(k));
      var cs' := cs + [childCg];
      forall i | 0 <= i < |cs'|
        ensures fresh(cs'[i]) && cs'[i].innovation in bpm
        ensures Inherits(cs'[i], bpm[cs'[i].innovation], wpm[cs'[i].innovation], pickBetter(cs'[i].innovation))
      {
        if i < |cs| {
          assert cs'[i] == cs[i];
        }
      }
      MatchStep(cs, ns, ni, io, bpm.Keys, todo, childCg);
      cs, ns, ni := cs', WithEnds(ns, childCg), Filed(ni, childCg);
      todo := todo - {k};
    }
  }

  /** Where crossover takes a child gene `c` from, given the parents'
   *  connection lists `bs` (the fitter) and `ws`: a copy of the fitter
   *  parent's gene with its number when that parent carries the number, and
   *  of the other parent's gene otherwise; a number only one parent carries
   *  is taken only by a tied crossover, and only when its coin came up. */
  predicate Descends(c: ConnectionGene, bs: seq<ConnectionGene>, ws: seq<ConnectionGene>, randomize: bool,
                     offerBetter: nat -> bool, offerWorse: nat -> bool)
  {
    var k := c.innovation;
    && (k in Innovations(bs) || k in Innovations(ws))
    && SameGene(c, if k in Innovations(bs) then LastGene(bs, k) else LastGene(ws, k))
    && (k !in Innovations(ws) ==> randomize && offerBetter(k))
    && (k !in Innovations(bs) ==> randomize && offerWorse(k))
  }

  /** The parent gene whose weight a child gene numbered `k` carries: for a
   *  number both parents carry, the fitter parent's gene when `pickBetter(k)`
   *  holds and the other's otherwise; for any other number, the gene of the
   *  one parent that carries it. */
  function WeightSource(k: nat, bs: seq<ConnectionGene>, ws: seq<ConnectionGene>, pickBetter: nat -> bool): ConnectionGene
    requires k in Innovations(bs) || k in Innovations(ws)
  {
    if k in Innovations(bs) && (k !in Innovations(ws) || pickBetter(k)) then LastGene(bs, k) else LastGene(ws, k)
  }

  /** A matching gene made from copies of both parents' genes descends from
   *  them and carries the weight of the gene `pickBetter` chose. */
  lemma MatchedDescends(c: ConnectionGene, bpc: map<nat, ConnectionGene>, wpc: map<nat, ConnectionGene>,
                        bs: seq<ConnectionGene>, ws: seq<ConnectionGene>, randomize: bool, pickBetter: nat -> bool,
                        offerBetter: nat -> bool, offerWorse: nat -> bool)
    requires CopiesOf(bpc, bs) && CopiesOf(wpc, ws)
    requires c.innovation in bpc && c.innovation in wpc
    requires Inherits(c, bpc[c.innovation], wpc[c.innovation], pickBetter(c.innovation))
    ensures Descends(c, bs, ws, randomize, offerBetter, offerWorse)
    ensures c.active && c.weight == WeightSource(c.innovation, bs, ws, pickBetter).weight
  {
  }

  /** Copies of the genes of a list without self-loops have no self-loops. */
  lemma CopiesLoopless(m: map<nat, ConnectionGene>, cs: seq<ConnectionGene>)
    requires CopiesOf(m, cs) && Loopless(cs)
    ensures LooplessGenes(m)
  {
    forall k | k in m ensures m[k].input.id != m[k].output.id {
      var d := LastGene(cs, k);
      var i :| 0 <= i < |cs| && cs[i] == d;
    }
  }

  /** The two offering rounds of a tied crossover, the fitter parent's
   *  remaining genes `bRest` first and then the other's `wRest`, together. */
  lemma TwoRounds(io: seq<NodeGene>, cs0: seq<ConnectionGene>, ns0: seq<NodeGene>,
                  cs1: seq<ConnectionGene>, ns1: seq<NodeGene>, cs2: seq<ConnectionGene>, ns2: seq<NodeGene>,
                  bRest: map<nat, ConnectionGene>, offerBetter: nat -> bool,
                  wRest: map<nat, ConnectionGene>, offerWorse: nat -> bool, base: set<nat>)
    requires io <= ns0 && forall i | |io| <= i < |ns0| :: ns0[i] in EndpointNodes(cs0)
    requires GrownFrom(cs1, ns1, bRest, offerBetter, cs0, ns0, base, {})
    requires GrownFrom(cs2, ns2, wRest, offerWorse, cs1, ns1, base, {})
    ensures cs0 <= cs2 && io <= ns2
    ensures forall i | |cs0| <= i < |cs2| ::
      || (cs2[i].innovation in bRest && cs2[i] == bRest[cs2[i].innovation] && offerBetter(cs2[i].innovation))
      || (cs2[i].innovation in wRest && cs2[i] == wRest[cs2[i].innovation] && offerWorse(cs2[i].innovation))
    ensures forall i | |io| <= i < |ns2| :: ns2[i] in EndpointNodes(cs2)
    ensures DistinctIds(ns0) ==> DistinctIds(ns2)
    ensures Acyclic(ConnEdges(cs0)) && LooplessGenes(bRest) && LooplessGenes(wRest) ==> Acyclic(ConnEdges(cs2))
  {
    forall i | |cs0| <= i < |cs1| ensures cs2[i] == cs1[i] {
    }
    forall i | |io| <= i < |ns2| ensures ns2[i] in EndpointNodes(cs2) {
      if i < |ns0| {
        assert ns2[i] == ns0[i];
      } else if i < |ns1| {
        assert ns2[i] == ns1[i];
      }
    }
  }

  /** `m` holds, under each innovation number of `cs`, a gene with that
   *  number and the ends of the last gene of `cs` with that number. */
  predicate Sources(m: map<nat, ConnectionGene>, cs: seq<ConnectionGene>) {
    && m.Keys == Innovations(cs)
    && forall k | k in m :: m[k].innovation == k && SameGene(m[k], LastGene(cs, k))
  }

  /** Copies of a parent's genes have the parent's genes as sources. */
  lemma CopiesAreSources(m: map<nat, ConnectionGene>, cs: seq<ConnectionGene>)
    requires CopiesOf(m, cs)
    ensures Sources(m, cs)
  {
  }

  /** What the two offering rounds of a tied crossover leave, from the
   *  matching genes `cs0` with nodes `ns0` to `cs2` with nodes `ns2`. */
  lemma TiedOutcome(io: seq<NodeGene>, cs0: seq<ConnectionGene>, ns0: seq<NodeGene>,
                    cs1: seq<ConnectionGene>, ns1: seq<NodeGene>, cs2: seq<ConnectionGene>, ns2: seq<NodeGene>,
                    bpc: map<nat, ConnectionGene>, wpc: map<nat, ConnectionGene>,
                    bRest: map<nat, ConnectionGene>, offerBetter: nat -> bool,
                    wRest: map<nat, ConnectionGene>, offerWorse: nat -> bool, base: set<nat>,
                    bs: seq<ConnectionGene>, ws: seq<ConnectionGene>)
    requires Sources(bpc, bs) && Sources(wpc, ws)
    requires forall k | k in bRest :: k in bpc && k !in wpc && bRest[k] == bpc[k]
    requires forall k | k in wRest :: k in wpc && k !in bpc && wRest[k] == wpc[k]
    requires forall c | c in cs0 :: Descends(c, bs, ws, true, offerBetter, offerWorse)
    requires io <= ns0 && forall i | |io| <= i < |ns0| :: ns0[i] in EndpointNodes(cs0)
    requires GrownFrom(cs1, ns1, bRest, offerBetter, cs0, ns0, base, {})
    requires GrownFrom(cs2, ns2, wRest, offerWorse, cs1, ns1, base, {})
    ensures DistinctInnovations(cs2) && cs0 <= cs2 && io <= ns2
    ensures forall c | c in cs2 ::
      && Descends(c, bs, ws, true, offerBetter, offerWorse)
      && (|| c in cs0
          || (c.innovation in bpc && c.innovation !in wpc && c == bpc[c.innovation])
          || (c.innovation in wpc && c.innovation !in bpc && c == wpc[c.innovation]))
    ensures forall i | |io| <= i < |ns2| :: ns2[i] in EndpointNodes(cs2)
    ensures NodeIds(ns2) == base + EndpointIds(cs2)
    ensures DistinctIds(ns0) ==> DistinctIds(ns2)
    ensures Acyclic(ConnEdges(cs0)) && LooplessGenes(bpc) && LooplessGenes(wpc) ==> Acyclic(ConnEdges(cs2))
  {
    TwoRounds(io, cs0, ns0, cs1, ns1, cs2, ns2, bRest, offerBetter, wRest, offerWorse, base);
    TiedDescends(cs0, cs2, bpc, wpc, bRest, wRest, bs, ws, offerBetter, offerWorse);
  }

  /** The genes a tied crossover ends with: the matching genes it started
   *  with, and genes of either parent's remainder whose coin came up. */
  lemma TiedDescends(cs0: seq<ConnectionGene>, cs2: seq<ConnectionGene>,
                     bpc: map<nat, ConnectionGene>, wpc: map<nat, ConnectionGene>,
                     bRest: map<nat, ConnectionGene>, wRest: map<nat, ConnectionGene>,
                     bs: seq<ConnectionGene>, ws: seq<ConnectionGene>, offerBetter: nat -> bool, offerWorse: nat -> bool)
    requires Sources(bpc, bs) && Sources(wpc, ws)
    requires forall k | k in bRest :: k in bpc && k !in wpc && bRest[k] == bpc[k]
    requires forall k | k in wRest :: k in wpc && k !in bpc && wRest[k] == wpc[k]
    requires forall c | c in cs0 :: Descends(c, bs, ws, true, offerBetter, offerWorse)
    requires cs0 <= cs2
    requires forall i | |cs0| <= i < |cs2| ::
      || (cs2[i].innovation in bRest && cs2[i] == bRest[cs2[i].innovation] && offerBetter(cs2[i].innovation))
      || (cs2[i].innovation in wRest && cs2[i] == wRest[cs2[i].innovation] && offerWorse(cs2[i].innovation))
    ensures forall c | c in cs2 ::
      && Descends(c, bs, ws, true, offerBetter, offerWorse)
      && (|| c in cs0
          || (c.innovation in bpc && c.innovation !in wpc && c == bpc[c.innovation])
          || (c.innovation in wpc && c.innovation !in bpc && c == wpc[c.innovation]))
  {
    forall c | c in cs2
      ensures Descends(c, bs, ws, true, offerBetter, offerWorse)
      ensures || c in cs0
              || (c.innovation in bpc && c.innovation !in wpc && c == bpc[c.innovation])
              || (c.innovation in wpc && c.innovation !in bpc && c == wpc[c.innovation])
    {
      var i :| 0 <= i < |cs2| && cs2[i] == c;
      if i < |cs0| {
        assert c == cs0[i];
      }
    }
  }

  /** `m` holds, under each innovation number of `cs`, a fresh active copy
   *  of the last gene of `cs` with that number. */
  ghost predicate CopiesOf(m: map<nat, ConnectionGene>, cs: seq<ConnectionGene>)
    reads m.Values, cs
  {
    && m.Keys == Innovations(cs)
    && forall k | k in m :: m[k].innovation == k && Copied(m[k], LastGene(cs, k))
  }

  /** Genes with the ends of copies in `m` of genes of `bs` have edges of `bs`. */
  lemma MatchedEdges(cs: seq<ConnectionGene>, m: map<nat, ConnectionGene>, bs: seq<ConnectionGene>)
    requires forall i | 0 <= i < |cs| :: cs[i].innovation in m && SameGene(cs[i], m[cs[i].innovation])
    requires forall k | k in m :: k in Innovations(bs) && SameGene(m[k], LastGene(bs, k))
    ensures ConnEdges(cs) <= ConnEdges(bs)
  {
    forall e | e in ConnEdges(cs) ensures e in ConnEdges(bs) {
      var i :| 0 <= i < |cs| && e == (cs[i].input.id, cs[i].output.id);
      var d := LastGene(bs, cs[i].innovation);
      assert e == (d.input.id, d.output.id);
    }
  }

  /** `c` is an active copy of `b`: same number, end nodes and weight. */
  ghost predicate Copied(c: ConnectionGene, b: ConnectionGene)
    reads c, b
  {
    c.active && SameGene(c, b) && c.weight == b.weight
  }

  /** `c` is an active copy of the gene `b` (same number and end nodes)
   *  carrying the weight of `b` when `better` holds and of `w` otherwise. */
  ghost predicate Inherits(c: ConnectionGene, b: ConnectionGene, w: ConnectionGene, better: bool)
    reads c, b, w
  {
    c.active && SameGene(c, b) && c.weight == (if better then b.weight else w.weight)
  }

  /** A fresh copy of the matching gene `b` with the weight of `b` or of its
   *  counterpart `w` in the other parent, as the coin `better` says. */
  method InheritedCopy(b: ConnectionGene, w: ConnectionGene, better: bool) returns (c: ConnectionGene)
    ensures fresh(c) && Inherits(c, b, w, better)
  {
    c := b.Copy();
    if better {
      c.SetWeight(b.weight);
    } else {
      c.SetWeight(w.weight);
    }
  }

  /** One matching gene taken into the child keeps `MatchedParts`. */
  lemma MatchStep(cs: seq<ConnectionGene>, ns: seq<NodeGene>, ni: Index, io: seq<NodeGene>,
                  keys: set<nat>, todo: set<nat>, c: ConnectionGene)
    requires MatchedParts(cs, ns, ni, io, keys, todo)
    requires todo <= keys && c.innovation in todo
    ensures MatchedParts(cs + [c], WithEnds(ns, c), Filed(ni, c), io, keys, todo - {c.innovation})
  {
    AppendInnovation(cs, c);
    AppendNewInnovation(cs, c);
    AppendEndpoints(cs, c);
    FiledMatches(ni, cs, c);
    var ns' := WithEnds(ns, c);
    forall i | |io| <= i < |ns'| ensures ns'[i] in EndpointNodes(cs + [c]) {
      if i < |ns| {
        assert ns'[i] == ns[i];
      }
    }
  }

  lemma MeasureDrops(K: set<nat>, A: set<nat>, B: set<nat>, x: nat)
    requires A <= B && x in B && x !in A && x in K
    ensures |K - B| < |K - A|
  {
    assert K - B < K - A;
    StrictSubsetCard(K - B, K - A);
  }

  /** Adding gene `k` with its end nodes keeps the growth invariant. */
  lemma GrownAdd(cs: seq<ConnectionGene>, ns: seq<NodeGene>, cs': seq<ConnectionGene>, ns': seq<NodeGene>,
                 genes: map<nat, ConnectionGene>, heads: nat -> bool, k: nat,
                 cs0: seq<ConnectionGene>, ns0: seq<NodeGene>, base: set<nat>, todo: set<nat>)
    requires GrownFrom(cs, ns, genes, heads, cs0, ns0, base, todo)
    requires k in genes && k in todo && heads(k)
    requires forall j | j in genes :: genes[j].innovation == j
    requires cs' == cs + [genes[k]]
    requires ns <= ns' && NodeIds(ns') == NodeIds(ns) + {genes[k].input.id, genes[k].output.id}
    requires forall i | |ns| <= i < |ns'| :: ns'[i] == genes[k].input || ns'[i] == genes[k].output
    requires DistinctIds(ns) ==> DistinctIds(ns')
    requires Acyclic(ConnEdges(cs)) && genes[k].input.id != genes[k].output.id ==> Acyclic(ConnEdges(cs'))
    ensures GrownFrom(cs', ns', genes, heads, cs0, ns0, base, todo - {k})
  {
    var g := genes[k];
    AppendInnovation(cs, g);
    AppendEndpoints(cs, g);
    assert k !in Innovations(cs);
    AppendNewInnovation(cs, g);
    forall i | |cs0| <= i < |cs'|
      ensures cs'[i].innovation in genes && cs'[i] == genes[cs'[i].innovation] && heads(cs'[i].innovation)
    {
      if i < |cs| {
        assert cs'[i] == cs[i];
      }
    }
    forall i | |ns0| <= i < |ns'|
      ensures ns'[i] in EndpointNodes(cs')
    {
      if i < |ns| {
        assert ns'[i] == ns[i];
      }
    }
  }

  /** The node list after `if (!nodes.contains(n)) nodes.add(n)`: `contains`
   *  compares ids. */
  function WithNode(ns: seq<NodeGene>, n: NodeGene): (r: seq<NodeGene>)
    ensures ns <= r && NodeIds(r) == NodeIds(ns) + {n.id}
    ensures forall i | |ns| <= i < |r| :: r[i] == n
    ensures DistinctIds(ns) ==> DistinctIds(r)
  {
    HasIdIffMember(ns, n.id);
    if HasId(ns, n.id) then ns
    else
      AppendNewIdOrAny(ns, n);
      ns + [n]
  }

  /** Adding a connection whose end nodes have entries, listing the end
   *  nodes, keeps the genome shaped. */
  lemma AddKeepsShape(ns: seq<NodeGene>, cs: seq<ConnectionGene>, ni: Index, c: ConnectionGene)
    requires ShapedParts(ns, cs, ni) && c.input.id in ni && c.output.id in ni
    ensures ShapedParts(WithEnds(ns, c), cs + [c], ni[c.output.id := ni[c.output.id] + [c]])
  {
    FileMatches(ni, cs, c);
    AppendEndpoints(cs, c);
  }

  /** The node list after both ends of `c` have been offered to it. */
  function WithEnds(ns: seq<NodeGene>, c: ConnectionGene): (r: seq<NodeGene>)
    ensures ns <= r && NodeIds(r) == NodeIds(ns) + {c.input.id, c.output.id}
    ensures forall i | |ns| <= i < |r| :: r[i] == c.input || r[i] == c.output
    ensures DistinctIds(ns) ==> DistinctIds(r)
  {
    var r1 := WithNode(ns, c.input);
    var r := WithNode(r1, c.output);
    assert forall i | |ns| <= i < |r1| :: r[i] == r1[i];
    r
  }

  /** Appending a node whose id is new keeps the ids distinct when they
   *  were, and adds exactly that id. */
  lemma AppendNewIdOrAny(ns: seq<NodeGene>, n: NodeGene)
    requires n.id !in NodeIds(ns)
    ensures DistinctIds(ns) ==> DistinctIds(ns + [n])
    ensures NodeIds(ns + [n]) == NodeIds(ns) + {n.id}
  {
    assert forall x :: x in ns + [n] <==> x in ns || x == n;
    if DistinctIds(ns) {
      AppendNewId(ns, n);
    }
  }


  /** Giving a node that no connection ends at an empty index entry keeps
   *  the index in step with the connections. */
  lemma UnlistedEntryEmpty(ns: seq<NodeGene>, cs: seq<ConnectionGene>, ni: Index, k: nat)
    requires ShapedParts(ns, cs, ni) && k !in NodeIds(ns)
    ensures IndexMatches(ni[k := []], cs)
  {
    forall c | c in cs
      ensures c.output.id != k
    {
      assert c.output.id in EndpointIds(cs);
    }
  }

  /** The parts of a genome in good standing with a core whose maps are `cn`
   *  and `cc`: shaped, no node id or innovation number listed twice, every
   *  node the core's own and every connection one the core knows. */
  ghost predicate GenomeParts(ns: seq<NodeGene>, cs: seq<ConnectionGene>, ni: Index,
                              cn: map<nat, NodeGene>, cc: map<nat, ConnectionGene>)
  {
    && ShapedParts(ns, cs, ni) && DistinctIds(ns) && DistinctInnovations(cs)
    && (forall m | m in ns :: Registered(cn, m))
    && (forall c | c in cs :: Known(cc, c))
  }

  /** Listing a registered node the genome lacks, with an empty entry,
   *  keeps the genome in good standing, also when the core's node map grew. */
  lemma AddNodeParts(ns: seq<NodeGene>, cs: seq<ConnectionGene>, ni: Index, cn: map<nat, NodeGene>,
                     cc: map<nat, ConnectionGene>, n: NodeGene, cn2: map<nat, NodeGene>)
    requires GenomeParts(ns, cs, ni, cn, cc) && n.id !in NodeIds(ns) && Registered(cn2, n)
    requires forall k | k in cn :: k in cn2 && cn2[k] == cn[k]
    ensures GenomeParts(ns + [n], cs, ni[n.id := []], cn2, cc)
  {
    UnlistedEntryEmpty(ns, cs, ni, n.id);
    AppendNewId(ns, n);
    assert forall m | m in ns + [n] :: m in ns || m == n;
  }


  /** The split of connection `cg` through node `n` at the level of the
   *  genome's parts: `n` is listed with an empty entry and is an end of no
   *  listed connection; `a` from `cg`'s input to `n` and then `b` from `n`
   *  to `cg`'s output are looked up in, or added to, the core's map. The
   *  two carry numbers no listed connection has; filed and appended, they
   *  keep the genome in good standing and add two edges through `n`, so a
   *  genome without cycles stays without. */
  lemma SplitParts(ns: seq<NodeGene>, cs: seq<ConnectionGene>, ni0: Index, cn: map<nat, NodeGene>,
                   cc: map<nat, ConnectionGene>, cc1: map<nat, ConnectionGene>, cc2: map<nat, ConnectionGene>,
                   n: NodeGene, cg: ConnectionGene, a: ConnectionGene, b: ConnectionGene)
    requires GenomeParts(ns, cs, ni0[n.id := []], cn, cc) && n in ns
    requires cg in cs && Untouched(ConnEdges(cs), n.id)
    requires a.input == cg.input && a.output == n && b.input == n && b.output == cg.output
    requires cc1 == cc[a.innovation := a] && (a.innovation in cc ==> cc[a.innovation] == a)
    requires cc2 == cc1[b.innovation := b] && (b.innovation in cc1 ==> cc1[b.innovation] == b)
    ensures !HasInnovation(cs, a.innovation) && !HasInnovation(cs + [a], b.innovation)
    ensures GenomeParts(ns, cs + [a] + [b], ni0[n.id := [a]][cg.output.id := ni0[cg.output.id] + [b]], cn, cc2)
    ensures Acyclic(ConnEdges(cs)) ==> Acyclic(ConnEdges(cs + [a] + [b]))
  {
    var ni: Index := ni0[n.id := []];
    assert (cg.input.id, cg.output.id) in ConnEdges(cs);
    assert cg.input.id in EndpointIds(cs) && cg.output.id in EndpointIds(cs);
    assert n.id in NodeIds(ns);
    NewEdgeNewNumber(cs, cc, cc1, a, a);
    var ni1: Index := ni[n.id := ni[n.id] + [a]];
    JoinParts(ns, cs, ni, cn, cc, cc1, a, a, cs + [a], ni1);
    AppendEdge(cs, a);
    NewEdgeNewNumber(cs + [a], cc1, cc2, b, b);
    var ni2: Index := ni1[cg.output.id := ni1[cg.output.id] + [b]];
    JoinParts(ns, cs + [a], ni1, cn, cc1, cc2, b, b, cs + [a] + [b], ni2);
    AppendEdge(cs + [a], b);
    RenewEntry(ni0, n.id, a);
    if Acyclic(ConnEdges(cs)) {
      SplitEdgeAcyclic(ConnEdges(cs), cg.input.id, cg.output.id, n.id);
    }
  }

  /** Putting an empty entry for `k` and then adding `c` to it leaves the
   *  entry holding `c` alone. */
  lemma RenewEntry(ni: Index, k: nat, c: ConnectionGene)
    ensures ni[k := []][k := ni[k := []][k] + [c]] == ni[k := [c]]
  {
    assert [] + [c] == [c];
  }

  /** Giving the emptied entry `k` the list `[a]` and then filing `b` under
   *  another key `o` is filing `b` under `o` after setting `k` to `[a]`. */
  lemma SplitEntries(ni: Index, k: nat, o: nat, a: ConnectionGene, b: ConnectionGene)
    requires k != o && o in ni
    ensures var ni1 := ni[k := []][k := [a]]; ni1[o := ni1[o] + [b]] == ni[k := [a]][o := ni[o] + [b]]
  {
  }

  /** A node missing from a shaped genome's node list is an end of none of its connections. */
  lemma SplitNodeUntouched(ns: seq<NodeGene>, cs: seq<ConnectionGene>, n: NodeGene, cg: ConnectionGene)
    requires EndpointIds(cs) <= NodeIds(ns) && n.id !in NodeIds(ns) && cg in cs
    ensures Untouched(ConnEdges(cs), n.id)
    ensures cg.input.id in NodeIds(ns) && cg.output.id in NodeIds(ns)
    ensures cg.input.id != n.id && cg.output.id != n.id
  {
    forall c | c in cs ensures c.input.id != n.id && c.output.id != n.id {
      assert c.input.id in EndpointIds(cs) && c.output.id in EndpointIds(cs);
    }
  }

  /** A connection whose edge no listed connection has, registered (as the
   *  same gene `g`) in a core that knows every listed connection, carries a
   *  number no listed connection has. */
  lemma NewEdgeNewNumber(cs: seq<ConnectionGene>, cc: map<nat, ConnectionGene>,
                         cc2: map<nat, ConnectionGene>, c: ConnectionGene, g: ConnectionGene)
    requires forall d | d in cs :: Known(cc, d)
    requires (c.input.id, c.output.id) !in ConnEdges(cs)
    requires cc2 == cc[c.innovation := g] && SameGene(g, c) && (c.innovation in cc ==> cc[c.innovation] == g)
    ensures !HasInnovation(cs, c.innovation)
    ensures forall d | d in cs :: Known(cc2, d) && d.innovation != c.innovation
  {
    forall d | d in cs ensures Known(cc2, d) && d.innovation != c.innovation {
      assert (d.input.id, d.output.id) in ConnEdges(cs);
    }
    HasInnovationIffMember(cs, c.innovation);
  }

  /** Appending and filing a connection between two listed nodes that no
   *  listed connection joins keeps a genome in good standing with a core
   *  whose connection map grew by that gene only (as `g`, the connection
   *  itself or the core's object it was copied from). */
  lemma JoinParts(ns: seq<NodeGene>, cs: seq<ConnectionGene>, ni: Index, cn: map<nat, NodeGene>,
                  cc: map<nat, ConnectionGene>, cc2: map<nat, ConnectionGene>, c: ConnectionGene,
                  g: ConnectionGene, cs2: seq<ConnectionGene>, ni2: Index)
    requires GenomeParts(ns, cs, ni, cn, cc)
    requires c.input.id in NodeIds(ns) && c.output.id in NodeIds(ns)
    requires (c.input.id, c.output.id) !in ConnEdges(cs)
    requires cc2 == cc[c.innovation := g] && SameGene(g, c) && (c.innovation in cc ==> cc[c.innovation] == g)
    requires cs2 == cs + [c] && ni2 == ni[c.output.id := ni[c.output.id] + [c]]
    ensures GenomeParts(ns, cs2, ni2, cn, cc2)
  {
    JoinShape(ns, cs, ni, c);
    JoinKnown(cs, cc, cc2, c, g);
  }

  /** Filing and appending a connection between listed nodes keeps a genome shaped. */
  lemma JoinShape(ns: seq<NodeGene>, cs: seq<ConnectionGene>, ni: Index, c: ConnectionGene)
    requires ShapedParts(ns, cs, ni)
    requires c.input.id in NodeIds(ns) && c.output.id in NodeIds(ns)
    ensures ShapedParts(ns, cs + [c], ni[c.output.id := ni[c.output.id] + [c]])
  {
    FileMatches(ni, cs, c);
    AppendEndpoints(cs, c);
  }

  /** Appending a known connection with a new edge keeps every listed
   *  connection known, with distinct numbers, to a core whose connection
   *  map grew by that gene only (as `g`). */
  lemma JoinKnown(cs: seq<ConnectionGene>, cc: map<nat, ConnectionGene>,
                  cc2: map<nat, ConnectionGene>, c: ConnectionGene, g: ConnectionGene)
    requires DistinctInnovations(cs) && forall d | d in cs :: Known(cc, d)
    requires (c.input.id, c.output.id) !in ConnEdges(cs)
    requires cc2 == cc[c.innovation := g] && SameGene(g, c) && (c.innovation in cc ==> cc[c.innovation] == g)
    ensures DistinctInnovations(cs + [c])
    ensures forall d | d in cs + [c] :: Known(cc2, d)
  {
    NewEdgeNewNumber(cs, cc, cc2, c, g);
    HasInnovationIffMember(cs, c.innovation);
    AppendNewInnovation(cs, c);
    assert forall d | d in cs + [c] :: d in cs || d == c;
  }

  /** Appending a connection whose output does not reach its input keeps
   *  the connection graph acyclic. */
  lemma AppendAcyclic(cs: seq<ConnectionGene>, c: ConnectionGene)
    requires c.input.id != c.output.id && !Reaches(ConnEdges(cs), c.output.id, c.input.id)
    ensures Acyclic(ConnEdges(cs)) ==> Acyclic(ConnEdges(cs + [c]))
  {
    AppendEdge(cs, c);
    if Acyclic(ConnEdges(cs)) {
      AddEdgeAcyclic(ConnEdges(cs), c.input.id, c.output.id);
    }
  }

  /** A map entry set to its own value leaves the map as it was. */
  lemma SameEntry(cc: map<nat, ConnectionGene>, k: nat)
    requires k in cc
    ensures cc[k := cc[k]] == cc
  {
  }

  /** The numbers of the core's connections whose two end nodes the genome
   *  lists, nodes compared by id: what the connection mutation looks at. */
  function CoreCandidates(ns: seq<NodeGene>, cc: map<nat, ConnectionGene>): (r: set<nat>)
    ensures r <= cc.Keys
  {
    set k | k in cc && HasId(ns, cc[k].input.id) && HasId(ns, cc[k].output.id)
  }

  /** The candidates whose number no listed connection carries. */
  function UnusedKeys(ns: seq<NodeGene>, cs: seq<ConnectionGene>, cc: map<nat, ConnectionGene>): set<nat> {
    set k | k in CoreCandidates(ns, cc) && !HasInnovation(cs, k)
  }

  /** The nodes a new connection from `start` may end at, in list order:
   *  the hidden and output nodes other than `start`. */
  function EndNodes(ns: seq<NodeGene>, start: NodeGene): (r: seq<NodeGene>)
    ensures forall i | 0 <= i < |r| :: r[i] in ns && r[i].layer in {Hidden, Output} && r[i].id != start.id
    ensures forall i | 0 <= i < |ns| && ns[i].layer in {Hidden, Output} && ns[i].id != start.id :: ns[i] in r
  {
    if ns == [] then []
    else
      var last := ns[|ns| - 1];
      EndNodes(ns[..|ns| - 1], start) + (if last.layer in {Hidden, Output} && !last.Equals(start) then [last] else [])
  }

  /** Whether one of the core's connections numbered in `ks` runs from `a`
   *  to `b`, nodes compared by id. */
  predicate JoinedInCore(cc: map<nat, ConnectionGene>, ks: set<nat>, a: NodeGene, b: NodeGene)
    requires ks <= cc.Keys
  {
    exists k | k in ks :: cc[k].Equals2(a, b)
  }

  /** The nodes of `ends`, in order, that no such connection joins `start` to. */
  function FreeEnds(ends: seq<NodeGene>, cc: map<nat, ConnectionGene>, ks: set<nat>, start: NodeGene): (r: seq<NodeGene>)
    requires ks <= cc.Keys
    ensures forall i | 0 <= i < |r| :: r[i] in ends && !JoinedInCore(cc, ks, start, r[i])
    ensures forall i | 0 <= i < |ends| && !JoinedInCore(cc, ks, start, ends[i]) :: ends[i] in r
  {
    if ends == [] then []
    else (if JoinedInCore(cc, ks, start, ends[0]) then [] else [ends[0]]) + FreeEnds(ends[1..], cc, ks, start)
  }

  /** The search over the end nodes: the first one that no connection
   *  numbered in `ks` joins `start` to, if any. */
  method FirstFreeEnd(ends: seq<NodeGene>, cc: map<nat, ConnectionGene>, ks: set<nat>, start: NodeGene)
    returns (end: Option<NodeGene>)
    requires ks <= cc.Keys
    ensures end == if FreeEnds(ends, cc, ks, start) == [] then None else Some(FreeEnds(ends, cc, ks, start)[0])
  {
    var i := 0;
    while i < |ends|
      invariant 0 <= i <= |ends|
      invariant FreeEnds(ends, cc, ks, start) == FreeEnds(ends[i..], cc, ks, start)
    {
      if !JoinedInCore(cc, ks, start, ends[i]) {
        return Some(ends[i]);
      }
      assert ends[i..][1..] == ends[i + 1..];
      i := i + 1;
    }
    return None;
  }

  /** A candidate whose number the genome lacks joins two distinct listed
   *  nodes by an edge no listed connection has: the registry has one
   *  connection per pair of ends, and every listed one is known to it. */
  lemma UnusedEdgeNew(ns: seq<NodeGene>, cs: seq<ConnectionGene>, ni: Index, cn: map<nat, NodeGene>,
                      cc: map<nat, ConnectionGene>, nextId: nat, nextInnovation: nat, k: nat)
    requires GenomeParts(ns, cs, ni, cn, cc) && RegistryParts(cn, cc, nextId, nextInnovation)
    requires k in UnusedKeys(ns, cs, cc)
    ensures cc[k].input.id in NodeIds(ns) && cc[k].output.id in NodeIds(ns)
    ensures cc[k].input.id != cc[k].output.id && cc[k].innovation == k
    ensures (cc[k].input.id, cc[k].output.id) !in ConnEdges(cs)
  {
    HasIdIffMember(ns, cc[k].input.id);
    HasIdIffMember(ns, cc[k].output.id);
    HasInnovationIffMember(cs, k);
    forall d | d in cs
      ensures (d.input.id, d.output.id) != (cc[k].input.id, cc[k].output.id)
    {
      assert d.innovation in Innovations(cs);
      assert !SameEnds(cc[d.innovation], cc[k]);
    }
  }

  /** Two listed nodes that no candidate joins are joined by no connection
   *  of the core at all, and so by no listed connection. */
  lemma FreeEdgeNew(ns: seq<NodeGene>, cs: seq<ConnectionGene>, ni: Index, cn: map<nat, NodeGene>,
                    cc: map<nat, ConnectionGene>, start: NodeGene, end: NodeGene)
    requires GenomeParts(ns, cs, ni, cn, cc)
    requires start in ns && end in ns
    requires !JoinedInCore(cc, CoreCandidates(ns, cc), start, end)
    ensures start.id in NodeIds(ns) && end.id in NodeIds(ns)
    ensures forall k | k in cc :: cc[k].input.id != start.id || cc[k].output.id != end.id
    ensures (start.id, end.id) !in ConnEdges(cs)
  {
    assert start.id in NodeIds(ns) && end.id in NodeIds(ns);
    HasIdIffMember(ns, start.id);
    HasIdIffMember(ns, end.id);
    forall k | k in cc
      ensures cc[k].input.id != start.id || cc[k].output.id != end.id
    {
      assert cc[k].Equals2(start, end) ==> k !in CoreCandidates(ns, cc);
    }
    forall d | d in cs
      ensures (d.input.id, d.output.id) != (start.id, end.id)
    {
      assert d.innovation in cc;
    }
  }

  /** Keys added while evaluating an input `x` of node `n` reach `n`. */
  lemma NewKeysReach(E: set<Edge>, v1: map<nat, real>, v2: map<nat, real>, x: nat, n: nat)
    requires (x, n) in E
    requires forall k | k in v2 && k !in v1 :: k == x || Reaches(E, k, x)
    ensures forall k | k in v2 && k !in v1 :: Reaches(E, k, n)
  {
    EdgeReaches(E, x, n);
    forall k | k in v2 && k !in v1
      ensures Reaches(E, k, n)
    {
      if k != x {
        ReachesTrans(E, k, x, n);
      }
    }
  }
}
