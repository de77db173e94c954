/** The core of a run: the gene registry, the population and its species,
 *  the base topology every genome starts from, and the generation loop. */
module Cores {
  import opened Basics
  import opened NodeGenes
  import opened ConnectionGenes
  import opened GeneRegistry
  import opened Genomes
  import opened SpeciesGroups
  import opened ListRemovals

  /** The species that still have members, in their order. */
  function Kept(ss: seq<Species>): (r: seq<Species>)
    reads set s | s in ss
    ensures |r| <= |ss|
    decreases |ss|
  {
    if ss == [] then []
    else
      var init := ss[..|ss| - 1];
      var last := ss[|ss| - 1];
      assert ss == init + [last];
      if last.genomes == [] then Kept(init) else Kept(init) + [last]
  }

  /** Pruning keeps exactly the species that have members. */
  lemma {:induction false} KeptMembers(ss: seq<Species>)
    ensures forall s | s in Kept(ss) :: s in ss && s.genomes != []
    ensures forall s | s in ss && s.genomes != [] :: s in Kept(ss)
    decreases |ss|
  {
    if ss != [] {
      var init := ss[..|ss| - 1];
      assert ss == init + [ss[|ss| - 1]];
      KeptMembers(init);
    }
  }

  /** Pruning keeps the surviving species in their order. */
  lemma {:induction false} KeptInOrder(ss: seq<Species>)
    ensures Subsequence(Kept(ss), ss)
    decreases |ss|
  {
    if ss == [] {
      assert Embeds([], ss, []);
    } else {
      var init := ss[..|ss| - 1];
      var last := ss[|ss| - 1];
      assert ss == init + [last];
      KeptInOrder(init);
      var pos :| Embeds(Kept(init), init, pos);
      EmbedsSnoc(Kept(init), init, pos, last);
    }
  }

  /** A list of species that all have members is kept whole. */
  lemma {:induction false} KeptAllMembered(ss: seq<Species>)
    requires forall s | s in ss :: s.genomes != []
    ensures Kept(ss) == ss
    decreases |ss|
  {
    if ss != [] {
      var init := ss[..|ss| - 1];
      assert ss == init + [ss[|ss| - 1]];
      KeptAllMembered(init);
    }
  }

  /** Pruning twice prunes nothing more. */
  lemma KeptIdempotent(ss: seq<Species>)
    ensures Kept(Kept(ss)) == Kept(ss)
  {
    KeptMembers(ss);
    KeptAllMembered(Kept(ss));
  }

  /** After generation `k` the loop goes on: the counter is below the
   *  limit and the stopping check fails. */
  predicate Continues(k: nat, maxGeneration: int, stopsAt: set<nat>) {
    k < maxGeneration && k !in stopsAt
  }

  /** The position of the connection from the `i`-th input to the `j`-th
   *  output in the base connection list, `width` outputs per input. */
  function Slot(i: nat, j: nat, width: nat): nat {
    i * width + j
  }

  /** The rows before row `i` occupy the positions before its first. */
  lemma SlotBefore(i': nat, i: nat, j: nat, width: nat)
    requires i' < i && j < width
    ensures Slot(i', j, width) < Slot(i, 0, width)
  {
    assert (i' + 1) * width <= i * width;
  }

  /** Each row is `width` long. */
  lemma NextRow(i: nat, width: nat)
    ensures Slot(i + 1, 0, width) == Slot(i, 0, width) + width
  {
  }

  /** The registry map `m` after putting each node of `ns` under its id, in
   *  list order. */
  function NodesFiled(m: map<nat, NodeGene>, ns: seq<NodeGene>): map<nat, NodeGene>
    decreases |ns|
  {
    if ns == [] then m
    else
      var last := ns[|ns| - 1];
      NodesFiled(m, ns[..|ns| - 1])[last.id := last]
  }

  /** Filing nodes with fresh, consecutive ids adds exactly those ids, each
   *  under its node, and keeps every earlier entry. */
  lemma {:induction false} NodesFiledFacts(m: map<nat, NodeGene>, ns: seq<NodeGene>, first: nat)
    requires IdsFrom(ns, first) && forall k | k in m :: k < first
    ensures forall k :: k in NodesFiled(m, ns) <==> k in m || first <= k < first + |ns|
    ensures forall k | k in m :: NodesFiled(m, ns)[k] == m[k]
    ensures forall i | 0 <= i < |ns| :: Registered(NodesFiled(m, ns), ns[i])
    decreases |ns|
  {
    if ns != [] {
      var init := ns[..|ns| - 1];
      NodesFiledFacts(m, init, first);
    }
  }

  /** Filing nodes list by list is filing their concatenation. */
  lemma {:induction false} NodesFiledAppend(m: map<nat, NodeGene>, a: seq<NodeGene>, b: seq<NodeGene>)
    ensures NodesFiled(NodesFiled(m, a), b) == NodesFiled(m, a + b)
    decreases |b|
  {
    if b != [] {
      var init := b[..|b| - 1];
      assert (a + b)[..|a + b| - 1] == a + init;
      assert (a + b)[|a + b| - 1] == b[|b| - 1];
      NodesFiledAppend(m, a, init);
    } else {
      assert a + b == a;
    }
  }

  /** The input layer filed before the output layer registers every node
   *  of both. */
  lemma LayersFiled(ins: seq<NodeGene>, outs: seq<NodeGene>, first: nat)
    requires IdsFrom(ins, first) && IdsFrom(outs, first + |ins|)
    ensures NodesFiled(NodesFiled(map[], ins), outs) == NodesFiled(map[], ins + outs)
    ensures forall i | 0 <= i < |ins| :: Registered(NodesFiled(map[], ins + outs), ins[i])
    ensures forall j | 0 <= j < |outs| :: Registered(NodesFiled(map[], ins + outs), outs[j])
  {
    NodesFiledAppend(map[], ins, outs);
    var all := ins + outs;
    assert forall i | 0 <= i < |ins| :: all[i] == ins[i];
    assert forall j | 0 <= j < |outs| :: all[|ins| + j] == outs[j];
    NodesFiledFacts(map[], all, first);
  }

  /** The registry map `m` after putting each connection of `cs` under its
   *  innovation number, in list order. */
  function Filed(m: map<nat, ConnectionGene>, cs: seq<ConnectionGene>): map<nat, ConnectionGene>
    decreases |cs|
  {
    if cs == [] then m
    else
      var last := cs[|cs| - 1];
      Filed(m, cs[..|cs| - 1])[last.innovation := last]
  }

  /** Innovation numbers `first`, `first + 1`, ... in list order. */
  predicate InnovationsFrom(cs: seq<ConnectionGene>, first: nat) {
    forall i | 0 <= i < |cs| :: cs[i].innovation == first + i
  }

  /** Filing connections with fresh, consecutive innovation numbers adds
   *  exactly those numbers, each under its connection, and keeps every
   *  earlier entry. */
  lemma {:induction false} FiledFacts(m: map<nat, ConnectionGene>, cs: seq<ConnectionGene>, first: nat)
    requires InnovationsFrom(cs, first) && forall k | k in m :: k < first
    ensures forall k :: k in Filed(m, cs) <==> k in m || first <= k < first + |cs|
    ensures forall k | k in m :: Filed(m, cs)[k] == m[k]
    ensures forall i | 0 <= i < |cs| :: Filed(m, cs)[cs[i].innovation] == cs[i]
    decreases |cs|
  {
    if cs != [] {
      var init := cs[..|cs| - 1];
      FiledFacts(m, init, first);
    }
  }

  /** In a registry that joins each pair of nodes at most once, connections
   *  filed under distinct numbers join distinct pairs. */
  lemma FiledEndsDistinct(m: map<nat, ConnectionGene>, cs: seq<ConnectionGene>, first: nat, filed: map<nat, ConnectionGene>)
    requires InnovationsFrom(cs, first) && (forall k | k in m :: k < first) && filed == Filed(m, cs)
    requires forall k1, k2 | k1 in filed && k2 in filed && SameEnds(filed[k1], filed[k2]) :: k1 == k2
    ensures forall i1, i2 | 0 <= i1 < i2 < |cs| :: !SameEnds(cs[i1], cs[i2])
  {
    FiledFacts(m, cs, first);
  }

  /** Filing connections list by list is filing their concatenation. */
  lemma {:induction false} FiledAppend(m: map<nat, ConnectionGene>, a: seq<ConnectionGene>, b: seq<ConnectionGene>)
    ensures Filed(Filed(m, a), b) == Filed(m, a + b)
    decreases |b|
  {
    if b != [] {
      var init := b[..|b| - 1];
      assert (a + b)[..|a + b| - 1] == a + init;
      assert (a + b)[|a + b| - 1] == b[|b| - 1];
      FiledAppend(m, a, init);
    } else {
      assert a + b == a;
    }
  }

  /** Every connection of `m` leaves a node with id below `x`, or leaves `x`
   *  for a node with id below `y`: the pairs connected so far come before
   *  `(x, y)` in input-major order. */
  predicate Before(m: map<nat, ConnectionGene>, x: nat, y: nat) {
    forall k | k in m :: m[k].input.id < x || (m[k].input.id == x && m[k].output.id < y)
  }

  /** Filing the connection for pair `(x, y)` moves the frontier one
   *  output on; no connection filed before joins that pair. */
  lemma BeforeStep(m: map<nat, ConnectionGene>, c: ConnectionGene, x: nat, y: nat)
    requires Before(m, x, y) && c.input.id == x && c.output.id == y
    ensures forall k | k in m :: !SameEnds(m[k], c)
    ensures Before(m[c.innovation := c], x, y + 1)
  {
  }

  /** Once the row of input `x` is done, every connection comes before any
   *  pair of the next input. */
  lemma BeforeNextRow(m: map<nat, ConnectionGene>, x: nat, y: nat, y': nat)
    requires Before(m, x, y)
    ensures Before(m, x + 1, y')
  {
  }

  /** `base` holds the connections of the first `i` inputs of `ins` to
   *  every output of `outs`, input by input. */
  predicate Rows(base: seq<ConnectionGene>, ins: seq<NodeGene>, outs: seq<NodeGene>, i: nat) {
    && i <= |ins| && |base| == Slot(i, 0, |outs|)
    && forall i', j | 0 <= i' < i && 0 <= j < |outs| ::
      Slot(i', j, |outs|) < |base| && base[Slot(i', j, |outs|)].input == ins[i'] && base[Slot(i', j, |outs|)].output == outs[j]
  }

  /** Appending the row of input `i` extends the rows by one. */
  lemma RowsStep(base: seq<ConnectionGene>, row: seq<ConnectionGene>, ins: seq<NodeGene>, outs: seq<NodeGene>, i: nat)
    requires Rows(base, ins, outs, i) && i < |ins| && |row| == |outs|
    requires forall j | 0 <= j < |outs| :: row[j].input == ins[i] && row[j].output == outs[j]
    ensures Rows(base + row, ins, outs, i + 1)
  {
    var width, base' := |outs|, base + row;
    forall i', j | 0 <= i' <= i && 0 <= j < width
      ensures Slot(i', j, width) < |base'| && base'[Slot(i', j, width)].input == ins[i'] && base'[Slot(i', j, width)].output == outs[j]
    {
      if i' < i {
        SlotBefore(i', i, j, width);
      } else {
        assert Slot(i', j, width) == |base| + j;
      }
    }
    NextRow(i, width);
  }

  /** Ids `first`, `first + 1`, ... in list order. */
  predicate IdsFrom(ns: seq<NodeGene>, first: nat) {
    forall i | 0 <= i < |ns| :: ns[i].id == first + i
  }

  class Core {
    const registry: Registry
    var genomes: seq<Genome>
    var species: seq<Species>
    var populationSize: nat
    var currentGeneration: nat

    /** A core with an empty registry over the two shared counters, no
     *  genomes and no species. */
    constructor (nodeIds: IdCounter, innovations: IdCounter)
      requires nodeIds != innovations
      ensures fresh(registry) && registry.Valid()
      ensures registry.nodeIds == nodeIds && registry.innovations == innovations
      ensures registry.nodes == map[] && registry.connections == map[]
      ensures genomes == [] && species == [] && currentGeneration == 0
    {
      registry := new Registry(nodeIds, innovations);
      genomes := [];
      species := [];
      populationSize := 0;
      currentGeneration := 0;
    }

    /** Sets up the base topology (lines 42-68): `numInputs` input nodes,
     *  then `numOutputs` output nodes, all registered by id; one registered
     *  connection from every input to every output, input by input, the
     *  `k`-th drawing its weight with `us(k)`; and `populationSize` new
     *  genomes, each holding those very connection objects and all the
     *  nodes, with an empty index. */
    method Initialize(numInputs: nat, numOutputs: nat, populationSize: nat, us: nat -> UnitReal)
      returns (ghost ins: seq<NodeGene>, ghost outs: seq<NodeGene>, ghost base: seq<ConnectionGene>)
      requires registry.Valid() && registry.nodes == map[] && registry.connections == map[] && genomes == []
      modifies this, registry, registry.nodeIds, registry.innovations
      ensures registry.Valid()
      ensures |ins| == numInputs && |outs| == numOutputs
      ensures IdsFrom(ins, old(registry.nodeIds.next)) && IdsFrom(outs, old(registry.nodeIds.next) + numInputs)
      ensures forall i | 0 <= i < numInputs :: ins[i].layer == Input
      ensures forall j | 0 <= j < numOutputs :: outs[j].layer == Output
      ensures registry.nodes == NodesFiled(map[], ins + outs)
      ensures |base| == numInputs * numOutputs && InnovationsFrom(base, old(registry.innovations.next))
      ensures forall i, j | 0 <= i < numInputs && 0 <= j < numOutputs ::
        Slot(i, j, numOutputs) < |base| && base[Slot(i, j, numOutputs)].input == ins[i] && base[Slot(i, j, numOutputs)].output == outs[j]
      ensures registry.connections == Filed(map[], base)
      ensures forall k1, k2 | 0 <= k1 < k2 < |base| :: !SameEnds(base[k1], base[k2])
      ensures |genomes| == populationSize
      ensures forall k | 0 <= k < populationSize ::
        && fresh(genomes[k]) && genomes[k].core == registry
        && genomes[k].connections == base && genomes[k].nodes == ins + outs && genomes[k].nodeInputs == map[]
      ensures forall k1, k2 | 0 <= k1 < k2 < populationSize :: genomes[k1] != genomes[k2]
      ensures this.populationSize == populationSize && currentGeneration == 0
    {
      this.populationSize := populationSize;
      ghost var n0, c0 := registry.nodeIds.next, registry.innovations.next;
      var inputs := AddLayer(Input, numInputs);
      var outputs := AddLayer(Output, numOutputs);
      LayersFiled(inputs, outputs, n0);
      var baseConnections := ConnectLayers(inputs, outputs, us, n0, n0 + numInputs);
      FiledEndsDistinct(map[], baseConnections, c0, registry.connections);
      Populate(populationSize, baseConnections, inputs + outputs);
      currentGeneration := 0;
      ins, outs, base := inputs, outputs, baseConnections;
    }

    /** Creates `count` nodes of one layer, ids in creation order, and
     *  registers each under its id (lines 44-51). */
    method AddLayer(layer: Layer, count: nat) returns (ns: seq<NodeGene>)
      requires registry.Valid()
      modifies registry`nodes, registry.nodeIds
      ensures registry.Valid()
      ensures registry.nodeIds.next == old(registry.nodeIds.next) + count
      ensures |ns| == count && IdsFrom(ns, old(registry.nodeIds.next))
      ensures forall i | 0 <= i < count :: ns[i].layer == layer
      ensures registry.nodes == NodesFiled(old(registry.nodes), ns)
    {
      ghost var n0, m0 := registry.nodeIds.next, registry.nodes;
      ns := [];
      var i := 0;
      while i < count
        invariant 0 <= i <= count && |ns| == i && registry.Valid()
        invariant registry.nodeIds.next == n0 + i && IdsFrom(ns, n0)
        invariant forall j | 0 <= j < i :: ns[j].layer == layer
        invariant registry.nodes == NodesFiled(m0, ns)
      {
        var n := new NodeGene(layer, registry.nodeIds);
        registry.PutNode(n);
        ns := ns + [n];
        assert ns[..i] == ns[..|ns| - 1];
        i := i + 1;
      }
    }

    /** Connects every input node to every output node, input by input,
     *  registering each new connection under its innovation number
     *  (lines 53-59). */
    method ConnectLayers(ins: seq<NodeGene>, outs: seq<NodeGene>, us: nat -> UnitReal, ghost i0: nat, ghost o0: nat)
      returns (base: seq<ConnectionGene>)
      requires registry.Valid()
      requires IdsFrom(ins, i0) && IdsFrom(outs, o0) && i0 + |ins| <= o0
      requires forall i | 0 <= i < |ins| :: Registered(registry.nodes, ins[i])
      requires forall j | 0 <= j < |outs| :: Registered(registry.nodes, outs[j])
      requires Before(registry.connections, i0, 0)
      modifies registry`connections, registry.innovations
      ensures registry.Valid()
      ensures Rows(base, ins, outs, |ins|) && InnovationsFrom(base, old(registry.innovations.next))
      ensures registry.connections == Filed(old(registry.connections), base)
    {
      ghost var c0, m0 := registry.innovations.next, registry.connections;
      base := [];
      var i := 0;
      while i < |ins|
        invariant Rows(base, ins, outs, i) && registry.Valid()
        invariant registry.innovations.next == c0 + |base| && InnovationsFrom(base, c0)
        invariant registry.connections == Filed(m0, base)
        invariant Before(registry.connections, i0 + i, 0)
      {
        var row := ConnectRow(ins[i], outs, us, |base|, o0);
        BeforeNextRow(registry.connections, i0 + i, o0 + |outs|, 0);
        FiledAppend(m0, base, row);
        RowsStep(base, row, ins, outs, i);
        base := base + row;
        i := i + 1;
      }
    }

    /** The connections from one input node to every output node. */
    method ConnectRow(n: NodeGene, outs: seq<NodeGene>, us: nat -> UnitReal, at: nat, ghost o0: nat)
      returns (row: seq<ConnectionGene>)
      requires registry.Valid()
      requires IdsFrom(outs, o0) && n.id < o0
      requires Registered(registry.nodes, n) && forall j | 0 <= j < |outs| :: Registered(registry.nodes, outs[j])
      requires Before(registry.connections, n.id, o0)
      modifies registry`connections, registry.innovations
      ensures registry.Valid()
      ensures registry.innovations.next == old(registry.innovations.next) + |outs|
      ensures |row| == |outs| && InnovationsFrom(row, old(registry.innovations.next))
      ensures forall j | 0 <= j < |outs| :: row[j].input == n && row[j].output == outs[j]
      ensures registry.connections == Filed(old(registry.connections), row)
      ensures Before(registry.connections, n.id, o0 + |outs|)
    {
      ghost var c0, m0 := registry.innovations.next, registry.connections;
      row := [];
      var j := 0;
      while j < |outs|
        invariant 0 <= j <= |outs| && |row| == j && registry.Valid()
        invariant registry.innovations.next == c0 + j && InnovationsFrom(row, c0)
        invariant forall j' | 0 <= j' < j :: row[j'].input == n && row[j'].output == outs[j']
        invariant registry.connections == Filed(m0, row)
        invariant Before(registry.connections, n.id, o0 + j)
      {
        var cg := Connect(n, outs[j], us(at + j), o0 + j);
        row := row + [cg];
        assert row[..j] == row[..|row| - 1];
        j := j + 1;
      }
    }

    /** One new connection, registered under its innovation number. */
    method Connect(a: NodeGene, b: NodeGene, u: UnitReal, ghost y: nat) returns (cg: ConnectionGene)
      requires registry.Valid() && Registered(registry.nodes, a) && Registered(registry.nodes, b)
      requires a.id < b.id == y && Before(registry.connections, a.id, y)
      modifies registry`connections, registry.innovations
      ensures registry.Valid()
      ensures registry.innovations.next == old(registry.innovations.next) + 1
      ensures cg.innovation == old(registry.innovations.next) && cg.input == a && cg.output == b
      ensures registry.connections == old(registry.connections)[cg.innovation := cg]
      ensures Before(registry.connections, a.id, y + 1)
    {
      cg := new ConnectionGene(a, b, registry.innovations, u);
      BeforeStep(registry.connections, cg, a.id, y);
      registry.PutConnection(cg);
    }

    /** Appends `count` new genomes of this core, each given the connection
     *  objects `base` themselves and the nodes `ns` (lines 61-66). */
    method Populate(count: nat, base: seq<ConnectionGene>, ns: seq<NodeGene>)
      modifies this`genomes
      ensures |genomes| == |old(genomes)| + count && genomes[..|old(genomes)|] == old(genomes)
      ensures forall k | |old(genomes)| <= k < |genomes| ::
        && fresh(genomes[k]) && genomes[k].core == registry
        && genomes[k].connections == base && genomes[k].nodes == ns && genomes[k].nodeInputs == map[]
      ensures forall k1, k2 | |old(genomes)| <= k1 < k2 < |genomes| :: genomes[k1] != genomes[k2]
    {
      var i := 0;
      while i < count
        invariant 0 <= i <= count && |genomes| == |old(genomes)| + i && genomes[..|old(genomes)|] == old(genomes)
        invariant forall k | |old(genomes)| <= k < |genomes| ::
          && fresh(genomes[k]) && genomes[k].core == registry
          && genomes[k].connections == base && genomes[k].nodes == ns && genomes[k].nodeInputs == map[]
        invariant forall k1, k2 | |old(genomes)| <= k1 < k2 < |genomes| :: genomes[k1] != genomes[k2]
      {
        var g := new Genome(registry);
        g.AddConnections(base);
        genomes := genomes + [g];
        g.AddNodes(ns);
        i := i + 1;
      }
    }

    /** Drops the species that have no members left and keeps the others
     *  in order (lines 86-91). */
    method PruneEmpty()
      modifies this`species
      ensures species == Kept(old(species))
    {
      var kept := [];
      var i := 0;
      while i < |species|
        invariant 0 <= i <= |species| && species == old(species)
        invariant kept == Kept(species[..i])
      {
        assert species[..i + 1][..i] == species[..i];
        if species[i].genomes != [] {
          kept := kept + [species[i]];
        }
        i := i + 1;
      }
      assert species[..i] == species;
      species := kept;
    }

    /** One generation's bookkeeping: the pruning of emptied species and
     *  the counter step (lines 86-91, 97). */
    method Generation()
      modifies this`species, this`currentGeneration
      ensures species == Kept(old(species)) && currentGeneration == old(currentGeneration) + 1
    {
      PruneEmpty();
      currentGeneration := currentGeneration + 1;
    }

    /** The generation loop (lines 68-109): the counter starts at zero, the
     *  body runs at least once, and the loop goes on while the counter is
     *  below `maxGeneration` and the stopping check fails; `stopsAt` holds
     *  the generation counts at which the check succeeds. */
    method Evolve(maxGeneration: int, stopsAt: set<nat>)
      modifies this`species, this`currentGeneration
      ensures currentGeneration >= 1
      ensures currentGeneration >= maxGeneration || currentGeneration in stopsAt
      ensures forall k: nat | 1 <= k < currentGeneration :: Continues(k, maxGeneration, stopsAt)
      ensures species == Kept(old(species))
      ensures forall s | s in species :: s.genomes != []
    {
      currentGeneration := 0;
      var go := true;
      while go
        invariant currentGeneration == 0 ==> go && species == old(species)
        invariant currentGeneration >= 1 ==> species == Kept(old(species))
        invariant go && currentGeneration >= 1 ==> Continues(currentGeneration, maxGeneration, stopsAt)
        invariant !go ==> currentGeneration >= 1 && (currentGeneration >= maxGeneration || currentGeneration in stopsAt)
        invariant forall k: nat | 1 <= k < currentGeneration :: Continues(k, maxGeneration, stopsAt)
        decreases go, maxGeneration - currentGeneration
      {
        Generation();
        KeptIdempotent(old(species));
        go := Continues(currentGeneration, maxGeneration, stopsAt);
      }
      KeptMembers(old(species));
    }
  }
}
