/** The incoming-connection index of a genome: for each node id, the
 *  connections that end in that node. */
module GenomeIndex {
  import opened Basics
  import opened Graphs
  import opened NodeGenes
  import opened ConnectionGenes
  import opened GeneViews

  type Index = map<nat, seq<ConnectionGene>>

  /** Every connection in an entry starts at a node that has an entry too. */
  ghost predicate InputsIndexed(ni: Index) {
    forall k, c | k in ni && c in ni[k] :: c.input.id in ni
  }

  /** The index files exactly the connections of `cs`, each under its output node. */
  ghost predicate IndexMatches(ni: Index, cs: seq<ConnectionGene>) {
    && (forall k, c | k in ni && c in ni[k] :: c in cs && c.output.id == k)
    && (forall c | c in cs :: c.output.id in ni && c in ni[c.output.id])
  }

  /** Node `x` has been expanded by a backward search looking for `start`:
   *  all its predecessors are in `seen` and none of them is `start`. */
  ghost predicate Expanded(ni: Index, seen: set<nat>, x: nat, start: nat) {
    x in ni && forall c | c in ni[x] :: c.input.id in seen && c.input.id != start
  }

  lemma ExpandedGrows(ni: Index, s1: set<nat>, s2: set<nat>, x: nat, start: nat)
    requires s1 <= s2 && Expanded(ni, s1, x, start)
    ensures Expanded(ni, s2, x, start)
  {
  }

  /** An index that files exactly a list of connections describes the same
   *  edges as the list. */
  lemma IndexMatchesEdges(ni: Index, cs: seq<ConnectionGene>)
    requires IndexMatches(ni, cs)
    ensures IndexEdges(ni) == ConnEdges(cs)
  {
    forall e | e in ConnEdges(cs) ensures e in IndexEdges(ni) {
      var c :| c in cs && e == (c.input.id, c.output.id);
      assert c in ni[c.output.id];
    }
  }

  /** Adding empty entries adds no edge. */
  lemma EmptyEntryEdges(ni: Index, k: nat)
    requires k !in ni
    ensures IndexEdges(ni[k := []]) == IndexEdges(ni)
  {
    var ni' := ni[k := []];
    forall e | e in IndexEdges(ni') ensures e in IndexEdges(ni) {
      var j: nat, c: ConnectionGene :| j in ni' && c in ni'[j] && e == (c.input.id, j);
      assert j != k;
    }
    forall e | e in IndexEdges(ni) ensures e in IndexEdges(ni') {
      var j: nat, c: ConnectionGene :| j in ni && c in ni[j] && e == (c.input.id, j);
      assert c in ni'[j];
    }
  }

  /** Filing `c` under its output node adds exactly its edge. */
  lemma FileEdges(ni: Index, c: ConnectionGene)
    requires c.output.id in ni
    ensures IndexEdges(ni[c.output.id := ni[c.output.id] + [c]]) == IndexEdges(ni) + {(c.input.id, c.output.id)}
  {
    var ni' := ni[c.output.id := ni[c.output.id] + [c]];
    forall e | e in IndexEdges(ni') ensures e in IndexEdges(ni) + {(c.input.id, c.output.id)} {
      var k: nat, d: ConnectionGene :| k in ni' && d in ni'[k] && e == (d.input.id, k);
      if k == c.output.id && d !in ni[k] {
        assert d == c;
      }
    }
    forall e | e in IndexEdges(ni) ensures e in IndexEdges(ni') {
      var k: nat, d: ConnectionGene :| k in ni && d in ni[k] && e == (d.input.id, k);
      assert d in ni'[k];
    }
    assert c in ni'[c.output.id];
  }

  /** Filing a new connection under its output node keeps the index in step
   *  with the list the connection is appended to. */
  lemma FileMatches(ni: Index, cs: seq<ConnectionGene>, c: ConnectionGene)
    requires IndexMatches(ni, cs) && c.output.id in ni
    ensures IndexMatches(ni[c.output.id := ni[c.output.id] + [c]], cs + [c])
  {
    var ni' := ni[c.output.id := ni[c.output.id] + [c]];
    var cs' := cs + [c];
    forall k, d | k in ni' && d in ni'[k]
      ensures d in cs' && d.output.id == k
    {
      if k == c.output.id && d !in ni[k] {
        assert d == c;
      }
    }
    forall d | d in cs'
      ensures d.output.id in ni' && d in ni'[d.output.id]
    {
      if d != c {
        assert d in cs;
      }
    }
  }

  /** An empty entry for a node without one keeps the index in step. */
  lemma EmptyEntryMatches(ni: Index, cs: seq<ConnectionGene>, k: nat)
    requires IndexMatches(ni, cs) && k !in ni
    ensures IndexMatches(ni[k := []], cs)
  {
  }

  /** Entries added empty keep the index in step. */
  lemma EntriesKeepMatches(ni: Index, r: Index, cs: seq<ConnectionGene>)
    requires IndexMatches(ni, cs)
    requires ni.Keys <= r.Keys
    requires forall k | k in ni :: r[k] == ni[k]
    requires forall k | k in r && k !in ni :: r[k] == []
    ensures IndexMatches(r, cs)
  {
  }

  /** Gives every listed node that lacks one an empty entry, keeping all
   *  other entries as they were. */
  method EnsureEntries(ni: Index, ns: seq<NodeGene>) returns (r: Index)
    ensures r.Keys == ni.Keys + NodeIds(ns)
    ensures forall k | k in ni :: r[k] == ni[k]
    ensures forall k | k in r && k !in ni :: r[k] == []
  {
    r := ni;
    var i := 0;
    while i < |ns|
      invariant 0 <= i <= |ns|
      invariant r.Keys == ni.Keys + NodeIds(ns[..i])
      invariant forall k | k in ni :: r[k] == ni[k]
      invariant forall k | k in r && k !in ni :: r[k] == []
    {
      assert ns[..i + 1] == ns[..i] + [ns[i]];
      if ns[i].id !in r {
        r := r[ns[i].id := []];
      }
      i := i + 1;
    }
    assert ns[..i] == ns;
  }

  /** Entries that are added empty leave the edges unchanged. */
  lemma EnsureEntriesEdges(ni: Index, r: Index)
    requires ni.Keys <= r.Keys
    requires forall k | k in ni :: r[k] == ni[k]
    requires forall k | k in r && k !in ni :: r[k] == []
    ensures IndexEdges(r) == IndexEdges(ni)
  {
    forall e | e in IndexEdges(r) ensures e in IndexEdges(ni) {
      var k: nat, c: ConnectionGene :| k in r && c in r[k] && e == (c.input.id, k);
      assert k in ni;
    }
    forall e | e in IndexEdges(ni) ensures e in IndexEdges(r) {
      var k: nat, c: ConnectionGene :| k in ni && c in ni[k] && e == (c.input.id, k);
      assert c in r[k];
    }
  }

  /** The parts of a shaped genome (see `Genome.Shaped`). */
  ghost predicate ShapedParts(ns: seq<NodeGene>, cs: seq<ConnectionGene>, ni: Index) {
    && NodeIds(ns) <= ni.Keys
    && IndexMatches(ni, cs)
    && EndpointIds(cs) <= NodeIds(ns)
  }

  /** Connections `cs` and nodes `ns` grew from `cs0` and `ns0` by genes of
   *  `genes` not numbered in `todo` whose coin `heads` came up, each with its end nodes, without
   *  repeating an innovation number or closing a cycle. */
  ghost predicate GrownFrom(cs: seq<ConnectionGene>, ns: seq<NodeGene>, genes: map<nat, ConnectionGene>, heads: nat -> bool,
                            cs0: seq<ConnectionGene>, ns0: seq<NodeGene>, base: set<nat>, todo: set<nat>)
  {
    && DistinctInnovations(cs)
    && NodeIds(ns) == base + EndpointIds(cs)
    && cs0 <= cs && ns0 <= ns
    && Innovations(cs) <= Innovations(cs0) + genes.Keys && Innovations(cs) !! todo
    && (forall i | |cs0| <= i < |cs| :: cs[i].innovation in genes && cs[i] == genes[cs[i].innovation] && heads(cs[i].innovation))
    && EndpointNodes(cs0) <= EndpointNodes(cs)
    && (forall i | |ns0| <= i < |ns| :: ns[i] in EndpointNodes(cs))
    && (DistinctIds(ns0) ==> DistinctIds(ns))
    && (Acyclic(ConnEdges(cs0)) && LooplessGenes(genes) ==> Acyclic(ConnEdges(cs)))
  }

  /** No gene of the map joins a node to itself. */
  ghost predicate LooplessGenes(genes: map<nat, ConnectionGene>) {
    forall k | k in genes :: genes[k].input.id != genes[k].output.id
  }

  /** A shaped genome grown as `GrownFrom` describes. */
  ghost predicate GrownParts(ns: seq<NodeGene>, cs: seq<ConnectionGene>, ni: Index, genes: map<nat, ConnectionGene>, heads: nat -> bool,
                             cs0: seq<ConnectionGene>, ns0: seq<NodeGene>, base: set<nat>, todo: set<nat>)
  {
    ShapedParts(ns, cs, ni) && GrownFrom(cs, ns, genes, heads, cs0, ns0, base, todo)
  }

  /** `c` filed under its output node's id, an empty entry being made first
   *  when that id has none. */
  function Filed(ni: Index, c: ConnectionGene): Index {
    var out := c.output.id;
    var entry := if out in ni then ni[out] else [];
    ni[out := entry + [c]]
  }

  /** Filing a connection keeps the index matching the list it is appended to. */
  lemma FiledMatches(ni: Index, cs: seq<ConnectionGene>, c: ConnectionGene)
    requires IndexMatches(ni, cs)
    ensures IndexMatches(Filed(ni, c), cs + [c])
  {
    var out := c.output.id;
    if out !in ni {
      EmptyEntryMatches(ni, cs, out);
      FileMatches(ni[out := []], cs, c);
      assert ni[out := []][out := [] + [c]] == Filed(ni, c);
    } else {
      FileMatches(ni, cs, c);
    }
  }

  /** Connections `cs` (one per number of `keys` not in `todo`), their index
   *  `ni` and the node list `ns`, which extends `io` by end nodes of `cs`. */
  ghost predicate MatchedParts(cs: seq<ConnectionGene>, ns: seq<NodeGene>, ni: Index, io: seq<NodeGene>,
                               keys: set<nat>, todo: set<nat>)
  {
    && Innovations(cs) <= keys && Innovations(cs) !! todo
    && (forall k | k in keys :: k in todo || k in Innovations(cs))
    && DistinctInnovations(cs)
    && io <= ns && (forall i | |io| <= i < |ns| :: ns[i] in EndpointNodes(cs))
    && NodeIds(ns) == NodeIds(io) + EndpointIds(cs)
    && (DistinctIds(io) ==> DistinctIds(ns))
    && IndexMatches(ni, cs)
  }
}
