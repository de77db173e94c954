/** The gene registry kept by the core: every node and connection ever
 *  created, keyed by id, and the two shared counters that issue the ids. */
module GeneRegistry {
  import opened Basics
  import opened NodeGenes
  import opened ConnectionGenes

  /** Two connections join the same pair of node ids. */
  predicate SameEnds(c: ConnectionGene, d: ConnectionGene) {
    c.input.id == d.input.id && c.output.id == d.output.id
  }

  /** `n` is the node registered under its id. */
  predicate Registered(nodes: map<nat, NodeGene>, n: NodeGene) {
    n.id in nodes && nodes[n.id] == n
  }

  /** `c` carries the innovation number, and the end nodes, of a registered connection. */
  predicate Known(connections: map<nat, ConnectionGene>, c: ConnectionGene) {
    c.innovation in connections && SameGene(connections[c.innovation], c)
  }

  /** The registry's maps, given the next values of the two counters: keys
   *  are ids below the counters; every registered connection joins two
   *  distinct registered nodes; no two registered connections join the same
   *  pair of nodes. */
  ghost predicate RegistryParts(nodes: map<nat, NodeGene>, connections: map<nat, ConnectionGene>,
                                nextId: nat, nextInnovation: nat)
  {
    && (forall k | k in nodes :: nodes[k].id == k && k < nextId)
    && (forall k | k in connections :: connections[k].innovation == k && k < nextInnovation)
    && (forall k | k in connections :: Registered(nodes, connections[k].input) && Registered(nodes, connections[k].output))
    && (forall k | k in connections :: connections[k].input.id != connections[k].output.id)
    && (forall k1, k2 | k1 in connections && k2 in connections && SameEnds(connections[k1], connections[k2]) :: k1 == k2)
  }

  /** The end nodes of a connection a registry knows are registered. */
  lemma KnownEndsRegistered(nodes: map<nat, NodeGene>, connections: map<nat, ConnectionGene>,
                            nextId: nat, nextInnovation: nat, c: ConnectionGene)
    requires RegistryParts(nodes, connections, nextId, nextInnovation) && Known(connections, c)
    ensures Registered(nodes, c.input) && Registered(nodes, c.output)
  {
    assert c.innovation in connections;
  }

  class Registry {
    var nodes: map<nat, NodeGene>
    var connections: map<nat, ConnectionGene>
    const nodeIds: IdCounter
    const innovations: IdCounter

    ghost predicate Valid()
      reads this, nodeIds, innovations
    {
      nodeIds != innovations && RegistryParts(nodes, connections, nodeIds.next, innovations.next)
    }

    constructor (nodeIds: IdCounter, innovations: IdCounter)
      requires nodeIds != innovations
      ensures Valid()
      ensures this.nodeIds == nodeIds && this.innovations == innovations
      ensures nodes == map[] && connections == map[]
    {
      this.nodeIds := nodeIds;
      this.innovations := innovations;
      nodes := map[];
      connections := map[];
    }

    /** Registers a node created by the node-id counter. */
    method PutNode(n: NodeGene)
      requires Valid()
      requires n.id < nodeIds.next && n.id !in nodes
      modifies this`nodes
      ensures Valid()
      ensures nodes == old(nodes)[n.id := n]
    {
      nodes := nodes[n.id := n];
    }

    /** Registers a connection created by the innovation counter between two
     *  distinct registered nodes that no registered connection joins yet. */
    method PutConnection(c: ConnectionGene)
      requires Valid()
      requires c.innovation < innovations.next && c.innovation !in connections
      requires Registered(nodes, c.input) && Registered(nodes, c.output) && c.input.id != c.output.id
      requires forall k | k in connections :: !SameEnds(connections[k], c)
      modifies this`connections
      ensures Valid()
      ensures connections == old(connections)[c.innovation := c]
    {
      connections := connections[c.innovation := c];
    }

    /** The scan over the registered connections that keeps the last one
     *  running from `a` to `b` (nodes compared by id), in whatever order the
     *  map yields them. */
    method FindConnection(a: NodeGene, b: NodeGene) returns (r: Option<ConnectionGene>)
      ensures r.None? <==> forall k | k in connections :: !connections[k].Equals2(a, b)
      ensures r.Some? ==> r.value in connections.Values && r.value.Equals2(a, b)
    {
      r := None;
      var remaining := connections.Keys;
      while remaining != {}
        invariant remaining <= connections.Keys
        invariant r.None? ==> forall k | k in connections && k !in remaining :: !connections[k].Equals2(a, b)
        invariant r.Some? ==> r.value in connections.Values && r.value.Equals2(a, b)
        decreases |remaining|
      {
        var k :| k in remaining;
        if connections[k].Equals2(a, b) {
          r := Some(connections[k]);
        }
        remaining := remaining - {k};
      }
    }

    /** In a valid registry the connection `FindConnection` returns is the
     *  only one joining its two nodes. */
    lemma FoundIsUnique(c: ConnectionGene, k: nat)
      requires Valid() && c in connections.Values && k in connections
      requires SameEnds(connections[k], c)
      ensures connections[k] == c
    {
      var j :| j in connections && connections[j] == c;
    }
  }
}
