/** The loop detector of a genome: Tarjan's strongly-connected-component
 *  search over the genome's connections, kept in the search fields of the
 *  nodes (index, lowlink, on-stack), a counter, a stack and the list of
 *  components found. */
module Tarjans {
  import opened Basics
  import opened Graphs
  import opened NodeGenes
  import opened ConnectionGenes
  import opened GeneViews
  import opened Genomes
  import opened TarjanSearch

  /** The connections of `cs` leaving `v` (by node equality, active or not),
   *  in list order. */
  function Outgoing(cs: seq<ConnectionGene>, v: NodeGene): (r: seq<ConnectionGene>)
    ensures forall c | c in r :: c in cs && c.input.id == v.id
    ensures forall c | c in cs && c.input.id == v.id :: c in r
  {
    if cs == [] then []
    else
      var last := cs[|cs| - 1];
      Outgoing(cs[..|cs| - 1], v) + (if last.input.id == v.id then [last] else [])
  }

  /** Java's `==` on two `Integer` fields, as the root test at line 45
   *  writes it: the same object. Boxing caches only the values -128 to
   *  127, and the index and the lowlink of a node are boxed separately
   *  (lines 29-30, 39, 41), so two non-null fields are the same object
   *  exactly when they hold the same cached value. */
  function BoxedSame(a: Option<nat>, b: Option<nat>): bool {
    match (a, b)
    case (None, None) => true
    case (Some(x), Some(y)) => x == y && x <= 127
    case _ => false
  }

  /** The root test as written: agrees with comparing the numbers for
   *  indices up to 127, and never holds for a node whose index is 128 or
   *  more, whatever its lowlink. */
  lemma BoxedRootTest(m: Marks)
    requires m.index.Some? && m.lowlink.Some?
    ensures IdxOf(m) <= 127 ==> (BoxedSame(m.lowlink, m.index) <==> LowOf(m) == IdxOf(m))
    ensures IdxOf(m) >= 128 ==> !BoxedSame(m.lowlink, m.index)
  {
  }

  /** The smallest case: a node with index 128 that is a root (its lowlink
   *  equals its index) fails the test as written, so it is never popped,
   *  and in a genome of 129 unconnected nodes only 128 components are
   *  found: a loop is reported where there is none. */
  lemma BoxedRootMissed()
    ensures var m := Marks(Some(128), Some(128), true);
      LowOf(m) == IdxOf(m) && !BoxedSame(m.lowlink, m.index)
  {
  }

  /** The search as written on a genome of `n` nodes and no connections
   *  (lines 14-55): each node starts a search of its own, takes the next
   *  index as index and lowlink and is pushed; it is popped as a component
   *  of its own only when the boxed root test passes, and otherwise stays
   *  on the stack. Up to 128 nodes every node is a component; from 129 on
   *  only 128 components are found, and `loop`, the result of
   *  `containsLoop`, reports a loop the genome does not have. */
  method BoxedEdgelessSearch(n: nat) returns (components: nat, loop: bool)
    ensures components == if n <= 128 then n else 128
    ensures loop <==> n >= 129
  {
    var stack: seq<nat> := [];
    var index := 0;
    components := 0;
    for v := 0 to n
      invariant index == v
      invariant components == if v <= 128 then v else 128
      invariant |stack| == v - components
      invariant forall j | 0 <= j < |stack| :: stack[j] == components + j
    {
      var m := Marks(Some(index), Some(index), true);
      index := index + 1;
      assert BoxedSame(m.lowlink, m.index) <==> v <= 127;
      ghost var before := stack;
      stack := stack + [v];
      assert stack[|before|] == v;
      if BoxedSame(m.lowlink, m.index) {
        // `v` is on top of the stack, so the pop loop stops after one pop.
        var w := stack[|stack| - 1];
        stack := stack[..|stack| - 1];
        assert w == v && stack == before == [];
        components := components + 1;
      } else {
        assert components == 128;
      }
    }
    loop := components < n;
  }

  class Tarjan {
    var index: nat
    var stack: seq<NodeGene>
    var g: Genome?
    var sccs: seq<seq<NodeGene>>
    /** The search fields of the genome's nodes, as values. */
    ghost var marks: map<NodeGene, Marks>
    /** The edges of the genome's connections. */
    ghost var edges: set<Edge>
    /** The genome's nodes. */
    ghost var repr: set<NodeGene>
    /** The genome's connections. */
    ghost var conns: seq<ConnectionGene>

    constructor ()
      ensures index == 0 && stack == [] && g == null && sccs == []
    {
      index := 0;
      stack := [];
      g := null;
      sccs := [];
      marks := map[];
      edges := {};
      repr := {};
      conns := [];
    }

    /** `marks` holds the search fields of exactly the genome's nodes. */
    ghost predicate Coupled()
      reads this`repr, this`marks, repr
    {
      marks.Keys == repr && forall n | n in repr :: marks[n] == Marks(n.index, n.lowlink, n.onStack)
    }

    /** The nodes still without an index. */
    ghost function Unvisited(): set<NodeGene>
      reads this`marks
    {
      Unindexed(marks)
    }

    /** The search is over genome `g`, whose connections are `conns`. */
    ghost predicate Holds()
      reads this`g, this`conns, g
    {
      g != null && g.connections == conns
    }

    ghost predicate Valid()
      reads this, repr
    {
      Coupled() && Tracking(marks, repr, edges, conns, index, stack, sccs)
    }

    /** Reports whether the genome's connections close a loop: there are
     *  fewer strongly connected components than nodes (lines 14-26). */
    method ContainsLoop(genome: Genome) returns (r: bool)
      requires DistinctIds(genome.nodes)
      requires forall c | c in genome.connections :: c.input in genome.nodes && c.output in genome.nodes
      modifies this, genome.nodes
      ensures g == genome && Valid() && stack == []
      ensures forall n | n in genome.nodes :: n.index.Some? && n in Flatten(sccs)
      ensures forall x | x in Flatten(sccs) :: x in genome.nodes
      ensures Distinct(Flatten(sccs))
      ensures r <==> exists k | 0 <= k < |sccs| :: |sccs[k]| >= 2
      ensures r ==> !Acyclic(ConnEdges(genome.connections))
    {
      Start(genome);
      SearchAll(genome);
      r := |sccs| < |genome.nodes|;
      DistinctIdsApart(genome.nodes);
      Conclude(genome.nodes, marks, index, sccs, edges);
    }

    /** Searches from every node still unvisited, in list order
     *  (lines 20-24). */
    method SearchAll(genome: Genome)
      requires g == genome && Valid() && Holds() && stack == [] && repr == set n: NodeGene | n in genome.nodes
      modifies this`index, this`stack, this`sccs, this`marks, repr
      ensures Valid() && Holds() && stack == [] && repr == set n: NodeGene | n in genome.nodes
      ensures Indexed(marks, genome.nodes)
    {
      var nodes := genome.nodes;
      for i := 0 to |nodes|
        invariant Valid() && Holds() && stack == []
        invariant Indexed(marks, nodes[..i])
      {
        var v := nodes[i];
        ghost var M := marks;
        if v.index.None? {
          StrongConnect(v);
        }
        KeepsIndexed(M, marks, nodes, i);
      }
      assert nodes[..|nodes|] == nodes;
    }

    /** Starts a search of `genome` with a fresh counter, stack and
     *  component list, and every node's search fields reset (lines 15-19). */
    method Start(genome: Genome)
      requires DistinctIds(genome.nodes)
      requires forall c | c in genome.connections :: c.input in genome.nodes && c.output in genome.nodes
      modifies this, genome.nodes
      ensures g == genome && Valid() && Holds() && stack == [] && sccs == [] && index == 0
      ensures repr == set n: NodeGene | n in genome.nodes
    {
      sccs := [];
      g := genome;
      index := 0;
      stack := [];
      DistinctIdsApart(genome.nodes);
      for i := 0 to |genome.nodes|
        invariant g == genome && sccs == [] && index == 0 && stack == []
        invariant forall j | 0 <= j < i :: genome.nodes[j].index.None? && genome.nodes[j].lowlink.None? && !genome.nodes[j].onStack
      {
        genome.nodes[i].Reset();
      }
      marks := map n | n in genome.nodes :: Marks(None, None, false);
      repr := set n: NodeGene | n in genome.nodes;
      conns := genome.connections;
      edges := ConnEdges(conns);
      forall n | n in genome.nodes ensures n.index.None? && n.lowlink.None? && !n.onStack {
        var j :| 0 <= j < |genome.nodes| && genome.nodes[j] == n;
      }
      StartSearch(marks, edges);
    }

    /** Searches from unvisited node `v` (lines 28-55): visits it, follows
     *  the connections leaving it, and pops its component when it is a
     *  root, its lowlink equal to its index. */
    method StrongConnect(v: NodeGene)
      requires Valid() && Holds() && v in marks && marks[v].index.None?
      modifies this`index, this`stack, this`sccs, this`marks, repr
      decreases Unvisited(), 0
      ensures Valid() && Holds()
      ensures Searched(old(marks), marks, old(stack), stack, old(sccs), sccs, old(index), index, edges, v)
      ensures old(stack) == [] ==> stack == []
    {
      ghost var M0, S0, C0, c0 := marks, stack, sccs, index;
      VisitExplore(M0, S0, C0, c0, edges, v);
      Visit(v);
      var outs := Outgoing(g.connections, v);
      for k := 0 to |outs|
        invariant Valid() && Holds() && Exploring(M0, marks, S0, stack, C0, sccs, c0, index, edges, v)
      {
        var c := outs[k];
        assert c in conns && (c.input.id, c.output.id) in ConnEdges(conns);
        Follow(v, c.output, M0, S0, C0, c0);
      }
      RootTest(marks, index, v);
      if v.lowlink == v.index {
        RootDone(M0, marks, S0, stack, C0, sccs, c0, index, edges, v);
        PopComponent(v, |S0|, c0);
      } else {
        NonRootDone(M0, marks, S0, stack, C0, sccs, c0, index, edges, v);
      }
    }

    /** Follows the connection from `v` to `w` (lines 36-42): searches from
     *  `w` when it is unvisited, and lowers `v`'s lowlink to `w`'s when `w`
     *  was just searched or is still on the stack. */
    method Follow(v: NodeGene, w: NodeGene, ghost M0: map<NodeGene, Marks>, ghost S0: seq<NodeGene>,
                  ghost C0: seq<seq<NodeGene>>, ghost c0: nat)
      requires Valid() && Holds() && Exploring(M0, marks, S0, stack, C0, sccs, c0, index, edges, v)
      requires w in marks && (v.id, w.id) in edges
      modifies this`index, this`stack, this`sccs, this`marks, repr
      decreases Unvisited(), 2
      ensures Valid() && Holds() && Exploring(M0, marks, S0, stack, C0, sccs, c0, index, edges, v)
    {
      if w.index.None? {
        Descend(v, w, M0, S0, C0, c0);
      } else if w.onStack {
        ExploreLower(M0, marks, S0, stack, C0, sccs, c0, index, edges, v, w);
        Lower(v, w);
      }
    }

    /** Searches from `w`, unvisited and the target of a connection from
     *  `v`, then lowers `v`'s lowlink to `w`'s (lines 37-39). */
    method Descend(v: NodeGene, w: NodeGene, ghost M0: map<NodeGene, Marks>, ghost S0: seq<NodeGene>,
                   ghost C0: seq<seq<NodeGene>>, ghost c0: nat)
      requires Valid() && Holds() && Exploring(M0, marks, S0, stack, C0, sccs, c0, index, edges, v)
      requires w in marks && marks[w].index.None? && (v.id, w.id) in edges
      modifies this`index, this`stack, this`sccs, this`marks, repr
      decreases Unvisited(), 1
      ensures Valid() && Holds() && Exploring(M0, marks, S0, stack, C0, sccs, c0, index, edges, v)
    {
      ghost var M1, S1, C1, c1 := marks, stack, sccs, index;
      StrongConnect(w);
      Adopt(v, w, M0, S0, C0, c0, M1, S1, C1, c1);
    }

    /** Lowers the lowlink of `v` to that of `w`, the target of a
     *  connection from `v` just searched from (line 39). */
    method Adopt(v: NodeGene, w: NodeGene, ghost M0: map<NodeGene, Marks>, ghost S0: seq<NodeGene>,
                 ghost C0: seq<seq<NodeGene>>, ghost c0: nat, ghost M1: map<NodeGene, Marks>, ghost S1: seq<NodeGene>,
                 ghost C1: seq<seq<NodeGene>>, ghost c1: nat)
      requires Valid() && Holds() && Exploring(M0, M1, S0, S1, C0, C1, c0, c1, edges, v) && Numbered(M1, c1)
      requires (v.id, w.id) in edges && w in M1 && M1[w].index.None?
      requires Searched(M1, marks, S1, stack, C1, sccs, c1, index, edges, w)
      modifies this`marks, v`lowlink
      ensures Valid() && Holds() && Exploring(M0, marks, S0, stack, C0, sccs, c0, index, edges, v)
    {
      FollowStep(M0, S0, C0, c0, M1, S1, C1, c1, marks, stack, sccs, index, edges, v, w);
      Lower(v, w);
    }

    /** Gives `v` the counter's value as index and lowlink, advances the
     *  counter and pushes `v` (lines 29-33). */
    method Visit(v: NodeGene)
      requires Valid() && Holds() && v in marks && marks[v].index.None?
      modifies this`index, this`stack, this`marks, v
      ensures Valid() && Holds()
      ensures marks == old(marks)[v := Marks(Some(old(index)), Some(old(index)), true)]
      ensures index == old(index) + 1 && stack == old(stack) + [v]
    {
      VisitStep(marks, index, stack, sccs, edges, v);
      Enter(v, index);
      index := index + 1;
      stack := stack + [v];
    }

    /** Sets the index and lowlink of `v` to `i` and puts it on the stack,
     *  through its setters. */
    method Enter(v: NodeGene, i: nat)
      requires Coupled() && v in marks
      modifies this`marks, v
      ensures Coupled() && marks == old(marks)[v := Marks(Some(i), Some(i), true)]
    {
      v.SetIndex(Some(i));
      v.SetLowlink(Some(i));
      v.SetOnStack(true);
      marks := marks[v := Marks(Some(i), Some(i), true)];
    }

    /** Lowers the lowlink of `v` to that of `w` when smaller (lines 39, 41). */
    method Lower(v: NodeGene, w: NodeGene)
      requires Valid() && Holds() && v in marks && marks[v].onStack && w in marks && marks[w].index.Some?
      requires (v.id, w.id) in edges && (marks[w].onStack || LowOf(marks[v]) <= LowOf(marks[w]))
      modifies this`marks, v`lowlink
      ensures Valid() && Holds()
      ensures marks == Lowered(old(marks), v, w) && stack == old(stack) && sccs == old(sccs) && index == old(index)
    {
      LowerStep(marks, index, stack, sccs, edges, v, w);
      Relink(v, Min(LowOf(Marks(v.index, v.lowlink, v.onStack)), LowOf(Marks(w.index, w.lowlink, w.onStack))));
    }

    /** Sets the lowlink of `v` to `low`, through its setter. */
    method Relink(v: NodeGene, low: nat)
      requires Coupled() && v in marks
      modifies this`marks, v`lowlink
      ensures Coupled() && marks == old(marks)[v := old(marks)[v].(lowlink := Some(low))]
    {
      v.SetLowlink(Some(low));
      marks := marks[v := marks[v].(lowlink := Some(low))];
    }

    /** Pops the stack down to root `v`, at position `p`, into a new
     *  component (lines 45-54). */
    method PopComponent(v: NodeGene, ghost p: nat, ghost i0: nat)
      requires Valid() && Holds() && Above(marks, stack, edges, v, p, i0) && LowOf(marks[v]) == IdxOf(marks[v])
      modifies this`stack, this`sccs, this`marks, repr
      ensures Valid() && Holds()
      ensures stack == old(stack[..p]) && sccs == old(sccs) + [Reversed(old(stack[p..]))]
      ensures marks == Unstack(old(marks), old(stack[p..]))
    {
      PopStep(marks, index, stack, sccs, edges, p);
      StackDistinct(marks, stack, edges);
      forall i | p < i < |stack| ensures stack[i].id != v.id {
        assert stack[i] != stack[p] && stack[i] in marks;
      }
      var scc := PopTo(v, p);
      sccs := sccs + [scc];
    }

    /** Pops nodes off the stack, taking each off the stack, until `v`, at
     *  position `p`, is popped; returns them in popping order (lines 46-52). */
    method PopTo(v: NodeGene, ghost p: nat) returns (scc: seq<NodeGene>)
      requires Coupled() && p < |stack| && stack[p] == v && Distinct(stack)
      requires forall i | p <= i < |stack| :: stack[i] in marks
      requires forall i | p < i < |stack| :: stack[i].id != v.id
      modifies this`stack, this`marks, repr
      ensures Coupled() && stack == old(stack[..p])
      ensures scc == Reversed(old(stack[p..])) && marks == Unstack(old(marks), old(stack[p..]))
    {
      ghost var S, M := stack, marks;
      scc := [];
      var more := true;
      while more
        invariant Coupled() && p <= |stack| <= |S| && stack == S[..|stack|]
        invariant scc == Reversed(S[|stack|..]) && marks == Unstack(M, S[|stack|..])
        invariant more <==> p < |stack|
        decreases |stack|
      {
        ghost var k := |stack|;
        UnstackStep(M, S, k);
        var w := Pop();
        scc := scc + [w];
        more := !w.Equals(v);
        assert w == S[k - 1] && |stack| == k - 1;
      }
    }


    /** Pops the top node off the stack and clears its on-stack flag
     *  (lines 49-50). */
    method Pop() returns (w: NodeGene)
      requires Coupled() && stack != [] && stack[|stack| - 1] in marks
      modifies this`stack, this`marks, repr
      ensures Coupled() && w == old(stack[|stack| - 1]) && stack == old(stack[..|stack| - 1])
      ensures marks == old(marks)[w := old(marks)[w].(onStack := false)]
    {
      w := stack[|stack| - 1];
      stack := stack[..|stack| - 1];
      w.SetOnStack(false);
      marks := marks[w := marks[w].(onStack := false)];
    }
  }
}
