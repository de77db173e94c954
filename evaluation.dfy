/** Forward evaluation of a genome's network at the level of values: the
 *  weighted input sum of a node, the equation an evaluated node satisfies,
 *  and the facts the memoised recursive evaluation relies on. */
module Evaluation {
  import opened Basics
  import opened Graphs
  import opened NodeGenes
  import opened ConnectionGenes
  import opened GeneRegistry
  import opened GeneViews
  import opened GenomeIndex

  /** The recursion depth past which evaluation gives up and the process exits. */
  const MAX_RECURSION: nat := 1000

  /** The hidden activation for hidden nodes, the output activation for every other node. */
  function Activate(hidden: real -> real, output: real -> real, layer: Layer, x: real): real {
    if layer == Hidden then hidden(x) else output(x)
  }

  /** Every connection of `cs` starts at a node that has a value. */
  ghost predicate Valued(cs: seq<ConnectionGene>, vals: map<nat, real>) {
    forall c | c in cs :: c.input.id in vals
  }

  /** The connections filed in an index. */
  ghost function FiledGenes(ni: Index): set<ConnectionGene> {
    set k, c | k in ni && c in ni[k] :: c
  }

  /** The sum, in list order, of each connection's weight times the value of
   *  its input node; active or not, every connection counts. */
  function WeightedSum(cs: seq<ConnectionGene>, vals: map<nat, real>): real
    requires Valued(cs, vals)
    reads set c | c in cs
  {
    if cs == [] then 0.0
    else
      var c := cs[|cs| - 1];
      WeightedSum(cs[..|cs| - 1], vals) + vals[c.input.id] * c.weight
  }

  /** The evaluation equation of node `n`: it has a value, which is 0 when
   *  the index has no entry for it and otherwise the activation, for its
   *  layer, of the weighted sum over the entry, every input valued. */
  ghost predicate Settled(ni: Index, vals: map<nat, real>, n: NodeGene, hidden: real -> real, output: real -> real)
    reads FiledGenes(ni)
  {
    && n.id in vals
    && (n.id !in ni ==> vals[n.id] == 0.0)
    && (n.id in ni ==> Valued(ni[n.id], vals) && vals[n.id] == Activate(hidden, output, n.layer, WeightedSum(ni[n.id], vals)))
  }

  /** Every value not bound from the input (`bound`) belongs to the node of
   *  the core with its id and satisfies that node's evaluation equation. */
  ghost predicate Sound(ni: Index, vals: map<nat, real>, bound: set<nat>, cn: map<nat, NodeGene>,
                        hidden: real -> real, output: real -> real)
    reads FiledGenes(ni)
  {
    forall k | k in vals && k !in bound :: k in cn && cn[k].id == k && Settled(ni, vals, cn[k], hidden, output)
  }

  /** Every connection in the index starts at a node of the core. */
  ghost predicate IndexRegistered(ni: Index, cn: map<nat, NodeGene>) {
    forall k, c | k in ni && c in ni[k] :: Registered(cn, c.input)
  }

  /** No connection in the index starts at node `id`. */
  ghost predicate FeedsNothing(ni: Index, id: nat) {
    forall k, c | k in ni && c in ni[k] :: c.input.id != id
  }

  /** The weighted sum depends only on the values of the input nodes. */
  lemma {:induction false} SumAgrees(cs: seq<ConnectionGene>, v1: map<nat, real>, v2: map<nat, real>)
    requires Valued(cs, v1)
    requires forall c | c in cs :: c.input.id in v2 && v2[c.input.id] == v1[c.input.id]
    ensures Valued(cs, v2) && WeightedSum(cs, v2) == WeightedSum(cs, v1)
  {
    if cs != [] {
      var init := cs[..|cs| - 1];
      assert forall c | c in init :: c in cs;
      SumAgrees(init, v1, v2);
    }
  }

  /** One step of the summing loop over `cs`: the values grew from `v1` to
   *  `v2` keeping old keys, and the next input has a value. */
  lemma SumStep(cs: seq<ConnectionGene>, i: nat, v1: map<nat, real>, v2: map<nat, real>, sum: real, next: real)
    requires i < |cs| && Valued(cs[..i], v1) && sum == WeightedSum(cs[..i], v1)
    requires forall k | k in v1 :: k in v2 && v2[k] == v1[k]
    requires cs[i].input.id in v2 && next == sum + v2[cs[i].input.id] * cs[i].weight
    ensures Valued(cs[..i + 1], v2) && next == WeightedSum(cs[..i + 1], v2)
  {
    SumAgrees(cs[..i], v1, v2);
    assert cs[..i + 1] == cs[..i] + [cs[i]];
    assert cs[..i + 1][..i] == cs[..i];
  }

  /** Storing the activation of a node's weighted sum settles it, when none
   *  of its inputs is the node itself. */
  lemma StoreSettled(ni: Index, vals: map<nat, real>, n: NodeGene, hidden: real -> real, output: real -> real)
    requires n.id in ni && Valued(ni[n.id], vals)
    requires forall c | c in ni[n.id] :: c.input.id != n.id
    ensures Settled(ni, vals[n.id := Activate(hidden, output, n.layer, WeightedSum(ni[n.id], vals))], n, hidden, output)
  {
    var v := Activate(hidden, output, n.layer, WeightedSum(ni[n.id], vals));
    SumAgrees(ni[n.id], vals, vals[n.id := v]);
  }

  /** Storing value `v` for a node of the core keeps the values sound when
   *  the node then satisfies its equation (or is bound), and a value it
   *  already had either stays or is read by no connection. */
  lemma SoundUpdate(ni: Index, vals: map<nat, real>, bound: set<nat>, cn: map<nat, NodeGene>, n: NodeGene, v: real,
                    hidden: real -> real, output: real -> real)
    requires Sound(ni, vals, bound, cn, hidden, output) && Registered(cn, n)
    requires n.id in bound || Settled(ni, vals[n.id := v], n, hidden, output)
    requires n.id in vals ==> vals[n.id] == v || FeedsNothing(ni, n.id)
    ensures Sound(ni, vals[n.id := v], bound, cn, hidden, output)
  {
    var vals2 := vals[n.id := v];
    forall k | k in vals2 && k !in bound
      ensures k in cn && cn[k].id == k && Settled(ni, vals2, cn[k], hidden, output)
    {
      if k != n.id {
        var m := cn[k];
        if m.id in ni {
          forall c | c in ni[m.id]
            ensures c.input.id in vals2 && vals2[c.input.id] == vals[c.input.id]
          {
            assert c.input.id in vals;
          }
          SumAgrees(ni[m.id], vals, vals2);
        }
      }
    }
  }

  /** A sequence without repeats drawn from a set is no longer than the set. */
  lemma DistinctWithin<T>(s: seq<T>, S: set<T>)
    requires Distinct(s) && forall i | 0 <= i < |s| :: s[i] in S
    ensures |s| <= |S|
  {
    DistinctCard(s);
    SubsetCard(Elements(s), S);
  }

  /** Fewer exempt keys make soundness stronger. */
  lemma SoundExempt(ni: Index, vals: map<nat, real>, b1: set<nat>, b2: set<nat>, cn: map<nat, NodeGene>,
                    hidden: real -> real, output: real -> real)
    requires Sound(ni, vals, b1, cn, hidden, output) && b1 <= b2
    ensures Sound(ni, vals, b2, cn, hidden, output)
  {
  }

  /** A settled node of the core need not be exempt. */
  lemma SoundSettled(ni: Index, vals: map<nat, real>, bound: set<nat>, cn: map<nat, NodeGene>, n: NodeGene,
                     hidden: real -> real, output: real -> real)
    requires Sound(ni, vals, bound, cn, hidden, output) && Registered(cn, n) && Settled(ni, vals, n, hidden, output)
    ensures Sound(ni, vals, bound - {n.id}, cn, hidden, output)
  {
  }

  /** Evaluating a node without an entry: it gets value 0 and the values
   *  stay sound, also when it had a value bound from the input that no
   *  connection reads. */
  lemma FinishLeaf(ni: Index, vals: map<nat, real>, bound: set<nat>, cn: map<nat, NodeGene>, n: NodeGene,
                   hidden: real -> real, output: real -> real)
    requires Sound(ni, vals, bound, cn, hidden, output) && Registered(cn, n) && n.id !in ni
    requires n.id in vals && n.id in bound ==> FeedsNothing(ni, n.id)
    ensures Sound(ni, vals[n.id := 0.0], bound - {n.id}, cn, hidden, output)
    ensures Settled(ni, vals[n.id := 0.0], n, hidden, output)
  {
    if n.id in vals && n.id !in bound {
      assert Settled(ni, vals, cn[n.id], hidden, output);
    }
    SoundUpdate(ni, vals, bound, cn, n, 0.0, hidden, output);
    SoundSettled(ni, vals[n.id := 0.0], bound, cn, n, hidden, output);
  }

  /** Evaluating a node with an entry in an acyclic index, once every input
   *  has a value: values `vals` grew from `vals0` by ancestors of the node
   *  only, so the node's own old value, if any, was not touched; storing
   *  the activation of its weighted sum settles it and keeps the values
   *  sound. */
  lemma FinishNode(ni: Index, vals0: map<nat, real>, vals: map<nat, real>, bound: set<nat>, cn: map<nat, NodeGene>,
                   n: NodeGene, hidden: real -> real, output: real -> real)
    requires Acyclic(IndexEdges(ni)) && Registered(cn, n) && n.id in ni
    requires Sound(ni, vals0, bound, cn, hidden, output) && Sound(ni, vals, bound, cn, hidden, output)
    requires Valued(ni[n.id], vals)
    requires forall k | k in vals0 :: k in vals && vals[k] == vals0[k]
    requires forall k | k in vals && k !in vals0 :: Reaches(IndexEdges(ni), k, n.id)
    requires n.id in vals0 && n.id in bound ==> FeedsNothing(ni, n.id)
    ensures var v := Activate(hidden, output, n.layer, WeightedSum(ni[n.id], vals));
      Sound(ni, vals[n.id := v], bound - {n.id}, cn, hidden, output) && Settled(ni, vals[n.id := v], n, hidden, output)
  {
    var E := IndexEdges(ni);
    var v := Activate(hidden, output, n.layer, WeightedSum(ni[n.id], vals));
    forall c | c in ni[n.id]
      ensures c.input.id != n.id
    {
      assert (c.input.id, n.id) in E;
      if c.input.id == n.id {
        EdgeReaches(E, n.id, n.id);
      }
    }
    StoreSettled(ni, vals, n, hidden, output);
    if n.id in vals {
      assert n.id in vals0;
      if n.id !in bound {
        assert Settled(ni, vals0, cn[n.id], hidden, output);
        SumAgrees(ni[n.id], vals0, vals);
      }
    }
    SoundUpdate(ni, vals, bound, cn, n, v, hidden, output);
    SoundSettled(ni, vals[n.id := v], bound, cn, n, hidden, output);
  }

  /** The ids of the nodes a recursive evaluation of node `id` is nested in:
   *  distinct nodes with entries, each reached from `id`. */
  ghost predicate ChainOk(ni: Index, id: nat, chain: seq<nat>) {
    && Distinct(chain)
    && forall j | 0 <= j < |chain| :: chain[j] in ni && Reaches(IndexEdges(ni), id, chain[j])
  }

  /** In an acyclic index the node is not among those it is nested in. */
  lemma ChainExtends(ni: Index, id: nat, chain: seq<nat>)
    requires Acyclic(IndexEdges(ni)) && ChainOk(ni, id, chain)
    ensures Distinct(chain + [id])
  {
    var s := chain + [id];
    forall i, j | 0 <= i < j < |s|
      ensures s[i] != s[j]
    {
      if j == |chain| {
        assert Reaches(IndexEdges(ni), id, chain[i]);
      }
    }
  }

  /** So the nesting is shallower than the index has entries. */
  lemma ChainBound(ni: Index, id: nat, chain: seq<nat>)
    requires Acyclic(IndexEdges(ni)) && ChainOk(ni, id, chain) && id in ni
    ensures |chain| < |ni|
  {
    ChainExtends(ni, id, chain);
    DistinctWithin(chain + [id], ni.Keys);
  }

  /** Evaluating an input `x` of node `id` nests it in `id` as well. */
  lemma ChainStep(ni: Index, id: nat, chain: seq<nat>, x: nat)
    requires Acyclic(IndexEdges(ni)) && ChainOk(ni, id, chain) && id in ni
    requires (x, id) in IndexEdges(ni)
    ensures ChainOk(ni, x, chain + [id])
  {
    var E := IndexEdges(ni);
    ChainExtends(ni, id, chain);
    EdgeReaches(E, x, id);
    forall j | 0 <= j < |chain|
      ensures Reaches(E, x, chain[j])
    {
      ReachesTrans(E, x, id, chain[j]);
    }
  }
}
