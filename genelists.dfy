/** Views of the gene lists a genome keeps: innovation numbers, the edges the
 *  connection list and the incoming-connection index describe, node ids,
 *  layer filters, and the ordering by innovation number. */
module GeneViews {
  import opened Basics
  import opened Graphs
  import opened NodeGenes
  import opened ConnectionGenes

  function Innovations(cs: seq<ConnectionGene>): set<nat> {
    set c | c in cs :: c.innovation
  }

  /** `contains` on a connection list: some element has innovation number `k`. */
  predicate HasInnovation(cs: seq<ConnectionGene>, k: nat) {
    exists i | 0 <= i < |cs| :: cs[i].innovation == k
  }

  ghost predicate DistinctInnovations(cs: seq<ConnectionGene>) {
    forall i, j | 0 <= i < j < |cs| :: cs[i].innovation != cs[j].innovation
  }

  /** `indexOf` on a connection list: the first position holding innovation
   *  number `k`, or -1. */
  function FirstIndexOf(cs: seq<ConnectionGene>, k: nat): (r: int)
    ensures -1 <= r < |cs|
    ensures r >= 0 ==> cs[r].innovation == k
    ensures forall j | 0 <= j < |cs| && (r < 0 || j < r) :: cs[j].innovation != k
  {
    if cs == [] then -1
    else if cs[0].innovation == k then 0
    else
      var r := FirstIndexOf(cs[1..], k);
      if r < 0 then -1 else r + 1
  }

  /** The last position holding innovation number `k`: the entry a map keyed
   *  by innovation number keeps when the list is put into it in order. */
  function LastIndexOf(cs: seq<ConnectionGene>, k: nat): (r: int)
    ensures -1 <= r < |cs|
    ensures r >= 0 ==> cs[r].innovation == k
    ensures forall j | r < j < |cs| :: cs[j].innovation != k
  {
    if cs == [] then -1
    else if cs[|cs| - 1].innovation == k then |cs| - 1
    else LastIndexOf(cs[..|cs| - 1], k)
  }

  /** The connection a map keyed by innovation number keeps for `k` when the
   *  list is put into it in order. */
  function LastGene(cs: seq<ConnectionGene>, k: nat): (c: ConnectionGene)
    requires k in Innovations(cs)
    ensures c in cs && c.innovation == k
  {
    var i := LastIndexOf(cs, k);
    assert i >= 0 by {
      var c :| c in cs && c.innovation == k;
      var j :| 0 <= j < |cs| && cs[j] == c;
    }
    cs[i]
  }

  /** The ids of the nodes the connections of a list join. */
  function EndpointIds(cs: seq<ConnectionGene>): set<nat> {
    (set c | c in cs :: c.input.id) + (set c | c in cs :: c.output.id)
  }

  /** The node objects the connections of a list join. */
  ghost function EndpointNodes(cs: seq<ConnectionGene>): set<NodeGene> {
    (set c | c in cs :: c.input) + (set c | c in cs :: c.output)
  }

  /** The edges (input id, output id) of a list of connections. */
  function ConnEdges(cs: seq<ConnectionGene>): set<Edge> {
    set c | c in cs :: (c.input.id, c.output.id)
  }

  /** The edges an incoming-connection index describes: an entry for node `k`
   *  holding a connection from `c.input` gives the edge (c.input.id, k). */
  function IndexEdges(ni: map<nat, seq<ConnectionGene>>): set<Edge> {
    set k, c | k in ni && c in ni[k] :: (c.input.id, k)
  }

  /** `contains` on a node list: some element has id `id`. */
  predicate HasId(ns: seq<NodeGene>, id: nat) {
    exists i | 0 <= i < |ns| :: ns[i].id == id
  }

  function NodeIds(ns: seq<NodeGene>): set<nat> {
    set n | n in ns :: n.id
  }

  ghost predicate DistinctIds(ns: seq<NodeGene>) {
    forall i, j | 0 <= i < j < |ns| :: ns[i].id != ns[j].id
  }

  /** No connection joins a node to itself. */
  ghost predicate Loopless(cs: seq<ConnectionGene>) {
    forall i | 0 <= i < |cs| :: cs[i].input.id != cs[i].output.id
  }

  /** The nodes whose layer is one of `layers`, in list order. */
  function NodesOfLayers(ns: seq<NodeGene>, layers: set<Layer>): (r: seq<NodeGene>)
    ensures |r| <= |ns|
    ensures forall i | 0 <= i < |r| :: r[i] in ns && r[i].layer in layers
    ensures forall i | 0 <= i < |ns| && ns[i].layer in layers :: ns[i] in r
  {
    if ns == [] then []
    else
      var last := ns[|ns| - 1];
      NodesOfLayers(ns[..|ns| - 1], layers) + (if last.layer in layers then [last] else [])
  }

  /** Growing a node list at its end grows its nodes of given layers at
   *  their end. */
  lemma {:induction false} NodesOfLayersPrefix(ns: seq<NodeGene>, ms: seq<NodeGene>, layers: set<Layer>)
    requires ns <= ms
    ensures NodesOfLayers(ns, layers) <= NodesOfLayers(ms, layers)
    decreases |ms|
  {
    if |ns| < |ms| {
      assert ns <= ms[..|ms| - 1];
      NodesOfLayersPrefix(ns, ms[..|ms| - 1], layers);
    } else {
      assert ns == ms;
    }
  }

  /** The active connections, in list order. */
  function ActiveOf(cs: seq<ConnectionGene>): (r: seq<ConnectionGene>)
    reads set c | c in cs
    ensures |r| <= |cs|
    ensures forall i | 0 <= i < |r| :: r[i] in cs && r[i].active
    ensures forall i | 0 <= i < |cs| && cs[i].active :: cs[i] in r
  {
    if cs == [] then []
    else
      var last := cs[|cs| - 1];
      ActiveOf(cs[..|cs| - 1]) + (if last.active then [last] else [])
  }

  /** The greatest innovation number in the list, or 0: the running maximum
   *  of a scan that starts at 0. */
  function MaxInnovation(cs: seq<ConnectionGene>): (r: nat)
    ensures forall i | 0 <= i < |cs| :: cs[i].innovation <= r
    ensures r == 0 || exists i | 0 <= i < |cs| :: cs[i].innovation == r
  {
    if cs == [] then 0
    else
      var m := MaxInnovation(cs[..|cs| - 1]);
      var k := cs[|cs| - 1].innovation;
      if k > m then k else m
  }

  predicate SortedByInnovation(cs: seq<ConnectionGene>) {
    forall i, j | 0 <= i < j < |cs| :: cs[i].innovation <= cs[j].innovation
  }

  /** Inserts `c` after the leading elements whose innovation number is
   *  not greater. */
  function InsertByInnovation(c: ConnectionGene, s: seq<ConnectionGene>): (r: seq<ConnectionGene>)
    ensures multiset(r) == multiset(s) + multiset{c}
    decreases |s|
  {
    if s == [] then [c]
    else if c.innovation < s[0].innovation then [c] + s
    else
      assert s == [s[0]] + s[1..];
      [s[0]] + InsertByInnovation(c, s[1..])
  }

  /** Insertion into a list sorted by innovation number keeps it sorted. */
  lemma {:induction false} InsertByInnovationSorted(c: ConnectionGene, s: seq<ConnectionGene>)
    requires SortedByInnovation(s)
    ensures SortedByInnovation(InsertByInnovation(c, s))
    decreases |s|
  {
    if s != [] && s[0].innovation <= c.innovation {
      var rest := InsertByInnovation(c, s[1..]);
      InsertByInnovationSorted(c, s[1..]);
      forall i | 0 <= i < |rest| ensures s[0].innovation <= rest[i].innovation {
        assert rest[i] in multiset(rest);
        if rest[i] != c {
          assert rest[i] in s[1..];
        }
      }
    }
  }

  /** The list ordered by innovation number (`Collections.sort`). */
  function SortByInnovation(cs: seq<ConnectionGene>): (r: seq<ConnectionGene>)
    ensures SortedByInnovation(r)
    ensures multiset(r) == multiset(cs)
    decreases |cs|
  {
    if cs == [] then []
    else
      assert cs == cs[..|cs| - 1] + [cs[|cs| - 1]];
      InsertByInnovationSorted(cs[|cs| - 1], SortByInnovation(cs[..|cs| - 1]));
      InsertByInnovation(cs[|cs| - 1], SortByInnovation(cs[..|cs| - 1]))
  }

  lemma HasInnovationIffMember(cs: seq<ConnectionGene>, k: nat)
    ensures HasInnovation(cs, k) <==> k in Innovations(cs)
  {
    if k in Innovations(cs) {
      var c :| c in cs && c.innovation == k;
      var i :| 0 <= i < |cs| && cs[i] == c;
    }
  }

  lemma HasIdIffMember(ns: seq<NodeGene>, id: nat)
    ensures HasId(ns, id) <==> id in NodeIds(ns)
  {
    if id in NodeIds(ns) {
      var n :| n in ns && n.id == id;
      var i :| 0 <= i < |ns| && ns[i] == n;
    }
  }

  /** A list without repeated innovation numbers has as many innovation
   *  numbers as elements. */
  lemma {:induction false} DistinctInnovationsCard(cs: seq<ConnectionGene>)
    requires DistinctInnovations(cs)
    ensures |Innovations(cs)| == |cs|
  {
    if cs != [] {
      var init := cs[..|cs| - 1];
      var last := cs[|cs| - 1];
      DistinctInnovationsCard(init);
      assert Innovations(cs) == Innovations(init) + {last.innovation};
      assert last.innovation !in Innovations(init);
    }
  }

  /** The innovation numbers of a list are at most as many as its elements. */
  lemma {:induction false} InnovationsCardBound(cs: seq<ConnectionGene>)
    ensures |Innovations(cs)| <= |cs|
  {
    if cs != [] {
      var init := cs[..|cs| - 1];
      InnovationsCardBound(init);
      assert Innovations(cs) == Innovations(init) + {cs[|cs| - 1].innovation};
    }
  }

  /** Appending a connection adds exactly its number. */
  lemma AppendInnovation(cs: seq<ConnectionGene>, c: ConnectionGene)
    ensures Innovations(cs + [c]) == Innovations(cs) + {c.innovation}
  {
    assert forall x :: x in cs + [c] <==> x in cs || x == c;
  }

  /** The last gene numbered `k` after appending `c`. */
  lemma LastGeneAppend(cs: seq<ConnectionGene>, c: ConnectionGene, k: nat)
    requires k in Innovations(cs + [c])
    ensures k != c.innovation ==> k in Innovations(cs)
    ensures LastGene(cs + [c], k) == if c.innovation == k then c else LastGene(cs, k)
  {
    assert (cs + [c])[..|cs|] == cs;
    if k != c.innovation {
      var d :| d in cs + [c] && d.innovation == k;
      assert d in cs;
    }
  }

  /** Appending a connection adds exactly its end nodes. */
  lemma AppendEndpoints(cs: seq<ConnectionGene>, c: ConnectionGene)
    ensures EndpointIds(cs + [c]) == EndpointIds(cs) + {c.input.id, c.output.id}
    ensures EndpointNodes(cs + [c]) == EndpointNodes(cs) + {c.input, c.output}
  {
    assert forall x :: x in cs + [c] <==> x in cs || x == c;
  }

  /** Appending a connection adds exactly its edge. */
  lemma AppendEdge(cs: seq<ConnectionGene>, c: ConnectionGene)
    ensures ConnEdges(cs + [c]) == ConnEdges(cs) + {(c.input.id, c.output.id)}
  {
    assert forall x :: x in cs + [c] <==> x in cs || x == c;
  }

  lemma AppendNewInnovation(cs: seq<ConnectionGene>, c: ConnectionGene)
    requires DistinctInnovations(cs) && c.innovation !in Innovations(cs)
    ensures DistinctInnovations(cs + [c])
  {
    forall i | 0 <= i < |cs| ensures cs[i].innovation != c.innovation {
      assert cs[i] in cs;
    }
  }

  lemma AppendNewId(ns: seq<NodeGene>, n: NodeGene)
    requires DistinctIds(ns) && n.id !in NodeIds(ns)
    ensures DistinctIds(ns + [n]) && NodeIds(ns + [n]) == NodeIds(ns) + {n.id}
  {
    forall i | 0 <= i < |ns| ensures ns[i].id != n.id {
      assert ns[i] in ns;
    }
    assert forall x :: x in ns + [n] <==> x in ns || x == n;
  }

  /** A layer filter of a list without repeated ids has no repeated ids. */
  lemma {:induction false} NodesOfLayersDistinct(ns: seq<NodeGene>, layers: set<Layer>)
    requires DistinctIds(ns)
    ensures DistinctIds(NodesOfLayers(ns, layers))
  {
    if ns != [] {
      var init := ns[..|ns| - 1];
      var last := ns[|ns| - 1];
      NodesOfLayersDistinct(init, layers);
      var r := NodesOfLayers(init, layers);
      forall i | 0 <= i < |r| ensures r[i].id != last.id {
        var j :| 0 <= j < |init| && init[j] == r[i];
      }
    }
  }

  /** An acyclic connection list joins no node to itself. */
  lemma AcyclicLoopless(cs: seq<ConnectionGene>)
    requires Acyclic(ConnEdges(cs))
    ensures Loopless(cs)
  {
    forall i | 0 <= i < |cs| ensures cs[i].input.id != cs[i].output.id {
      assert cs[i] in cs;
      EdgeReaches(ConnEdges(cs), cs[i].input.id, cs[i].output.id);
    }
  }
}
